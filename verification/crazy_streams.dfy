/** The queries of `CrazyStreams` over an encounter-ordered sequence of accounts.
    Each query is a pure function of the sequence; an exception the Java code throws
    is a `Failure` result. */
module CrazyStreams {
  import opened Results
  import opened Seqs
  import opened Strings
  import JavaInt
  import opened Grouping
  import opened Accounts
  import opened NameOrder

  // ---------------------------------------------------------------------------
  // Field accessors and tests, as functions the stream stages take
  // ---------------------------------------------------------------------------

  function IdOf(a: Account): int { a.id }
  function FirstNameOf(a: Account): string { a.firstName }
  function LastNameOf(a: Account): string { a.lastName }
  function EmailOf(a: Account): string { a.email }
  function BalanceOf(a: Account): real { a.balance }
  function BirthdayMonth(a: Account): int { a.birthday.month }
  function CreationMonth(a: Account): int { a.creationDate.month }
  function Self(a: Account): Account { a }
  predicate IsMale(a: Account) { a.sex == Male }

  /** First name followed by last name. */
  function FullName(a: Account): string { a.firstName + a.lastName }

  /** `a.getFirstName().toLowerCase() + a.getLastName().toLowerCase()`: the full name
      lower-cased as a whole. */
  function LowerFullName(a: Account): (r: string)
    ensures r == LowerAscii(FullName(a))
  {
    LowerAsciiAppend(a.firstName, a.lastName);
    LowerAscii(a.firstName) + LowerAscii(a.lastName)
  }

  function BornIn(month: int): Account -> bool { (a: Account) => a.birthday.month == month }
  function CreatedInYear(year: int): Account -> bool { (a: Account) => a.creationDate.year == year }
  function CreatedInMonth(month: int): Account -> bool { (a: Account) => a.creationDate.month == month }

  // ---------------------------------------------------------------------------
  // findRichestPerson
  // ---------------------------------------------------------------------------

  /** `max(comparing(Account::getBalance))`: empty for no accounts, otherwise an
      account whose balance no other exceeds. `maxBy` keeps the accumulated account
      on a tie, so it is the FIRST account with the largest balance. */
  function FindRichestPerson(accounts: seq<Account>): (r: Option<Account>)
    ensures r.None? <==> |accounts| == 0
    ensures r.Some? ==> r.value in accounts
    ensures r.Some? ==> forall i :: 0 <= i < |accounts| ==> accounts[i].balance <= r.value.balance
    ensures r.Some? ==> exists i :: 0 <= i < |accounts| && accounts[i] == r.value &&
                          forall j :: 0 <= j < i ==> accounts[j].balance < r.value.balance
  {
    if |accounts| == 0 then None
    else
      var init := accounts[..|accounts| - 1];
      var last := accounts[|accounts| - 1];
      assert forall i :: 0 <= i < |init| ==> init[i] == accounts[i];
      match FindRichestPerson(init)
      case None => Some(last)
      case Some(best) =>
        if best.balance >= last.balance then Some(best)
        else
          assert forall j :: 0 <= j < |accounts| - 1 ==> accounts[j].balance < last.balance;
          Some(last)
  }

  // ---------------------------------------------------------------------------
  // findAccountsByBirthdayMonth
  // ---------------------------------------------------------------------------

  /** The accounts born in `month`, every occurrence kept, in encounter order
      (`FindAccountsByBirthdayMonthAppend`). */
  function FindAccountsByBirthdayMonth(accounts: seq<Account>, month: int): (r: seq<Account>)
    ensures forall i :: 0 <= i < |r| ==> r[i].birthday.month == month
    ensures forall a :: multiset(r)[a] == if a.birthday.month == month then multiset(accounts)[a] else 0
  {
    FilterContents(accounts, BornIn(month));
    Filter(accounts, BornIn(month))
  }

  /** The filter commutes with concatenation, so it keeps encounter order. */
  lemma FindAccountsByBirthdayMonthAppend(a: seq<Account>, b: seq<Account>, month: int)
    ensures FindAccountsByBirthdayMonth(a + b, month)
         == FindAccountsByBirthdayMonth(a, month) + FindAccountsByBirthdayMonth(b, month)
  {
    FilterAppend(a, b, BornIn(month));
  }

  /** Accounts all born in `month` come back unchanged. */
  lemma FindAccountsByBirthdayMonthAll(accounts: seq<Account>, month: int)
    requires forall i :: 0 <= i < |accounts| ==> accounts[i].birthday.month == month
    ensures FindAccountsByBirthdayMonth(accounts, month) == accounts
  {
    FilterAll(accounts, BornIn(month));
  }

  // ---------------------------------------------------------------------------
  // partitionMaleAccounts
  // ---------------------------------------------------------------------------

  /** `groupingBy(sex == MALE)`: `true` maps to the male accounts and `false` to the
      female ones, each in encounter order; a key is absent when no account has that
      sex (unlike `partitioningBy`, which would always hold both). */
  function PartitionMaleAccounts(accounts: seq<Account>): (r: map<bool, seq<Account>>)
    ensures true in r <==> exists a :: a in accounts && a.sex == Male
    ensures false in r <==> exists a :: a in accounts && a.sex == Female
    ensures forall b :: b in r ==> r[b] == Filter(accounts, HasKey(IsMale, b))
  {
    var groups := GroupBy(accounts, IsMale);
    assert forall b :: b in groups ==> groups[b] == Filter(accounts, HasKey(IsMale, b)) by {
      forall b | b in groups
        ensures groups[b] == Filter(accounts, HasKey(IsMale, b))
      {
        GroupByWithKey(accounts, IsMale, b);
      }
    }
    groups
  }

  /** Each account sits in exactly the list keyed by whether it is male, as often as
      it occurs in the input. */
  lemma PartitionMaleAccountsPartitions(accounts: seq<Account>)
    ensures forall a :: a in accounts ==>
              var r := PartitionMaleAccounts(accounts);
              IsMale(a) in r && multiset(r[IsMale(a)])[a] == multiset(accounts)[a]
    ensures forall b, a :: b in PartitionMaleAccounts(accounts) && a in PartitionMaleAccounts(accounts)[b] ==>
              IsMale(a) == b
  {
    GroupByPartitions(accounts, IsMale);
  }

  /** An input without male accounts yields no `true` key, although the map is
      documented to hold both keys. */
  lemma PartitionMaleAccountsWithoutMales(accounts: seq<Account>)
    requires forall a :: a in accounts ==> a.sex == Female
    ensures true !in PartitionMaleAccounts(accounts)
  {
  }

  predicate IsFemale(a: Account) { a.sex == Female }

  /** `partitioningBy(sex == MALE)`, the documented behaviour: both keys are always
      present, `true` with the male and `false` with the female accounts, each in
      encounter order. */
  function PartitioningMaleAccounts(accounts: seq<Account>): (r: map<bool, seq<Account>>)
    ensures r.Keys == {true, false}
    ensures forall b :: b in r ==> r[b] == Filter(accounts, HasKey(IsMale, b))
  {
    FilterCongruent(accounts, IsMale, HasKey(IsMale, true));
    FilterCongruent(accounts, IsFemale, HasKey(IsMale, false));
    map[true := Filter(accounts, IsMale), false := Filter(accounts, IsFemale)]
  }

  /** The documented map and the computed one agree on every key the computed one
      has; a key it lacks maps to the empty list in the documented one. */
  lemma PartitioningExtendsGrouping(accounts: seq<Account>)
    ensures var g := PartitionMaleAccounts(accounts);
            var p := PartitioningMaleAccounts(accounts);
            forall b :: (b in g ==> g[b] == p[b]) && (b !in g ==> p[b] == [])
  {
    var g := PartitionMaleAccounts(accounts);
    var p := PartitioningMaleAccounts(accounts);
    forall b | b !in g
      ensures p[b] == []
    {
      FilterNone(accounts, HasKey(IsMale, b));
    }
  }

  // ---------------------------------------------------------------------------
  // getNumOfLettersInFirstAndLastNames
  // ---------------------------------------------------------------------------

  /** `mapToInt(first.length() + last.length()).sum()` in Java `int` arithmetic: the
      exact number of characters in all full names, wrapped to 32 bits. */
  function GetNumOfLettersInFirstAndLastNames(accounts: seq<Account>): (r: int)
    ensures JavaInt.InRange(r)
    ensures r == JavaInt.Wrap(|Flatten(MapSeq(accounts, FullName))|)
    ensures |Flatten(MapSeq(accounts, FullName))| <= JavaInt.INT_MAX ==>
              r == |Flatten(MapSeq(accounts, FullName))|
  {
    if |accounts| == 0 then 0
    else
      var init := accounts[..|accounts| - 1];
      var last := accounts[|accounts| - 1];
      var sofar := GetNumOfLettersInFirstAndLastNames(init);
      var names := MapSeq(accounts, FullName);
      assert names[..|names| - 1] == MapSeq(init, FullName);
      JavaInt.WrapAdd(|Flatten(MapSeq(init, FullName))|, |FullName(last)|);
      JavaInt.WrapAdd(|FullName(last)|, sofar);
      JavaInt.Add(sofar, JavaInt.Wrap(|last.firstName| + |last.lastName|))
  }

  // ---------------------------------------------------------------------------
  // calculateTotalBalance
  // ---------------------------------------------------------------------------

  /** `map(getBalance).reduce(ZERO, add)`: exactly zero for no accounts, the balance
      itself for one account, never negative when no balance is; with
      `CalculateTotalBalanceAppend` this fixes it as the sum of all balances. */
  function CalculateTotalBalance(accounts: seq<Account>): (r: real)
    ensures |accounts| == 0 ==> r == 0.0
    ensures |accounts| == 1 ==> r == accounts[0].balance
    ensures (forall i :: 0 <= i < |accounts| ==> accounts[i].balance >= 0.0) ==> r >= 0.0
  {
    SeqSum(accounts, BalanceOf)
  }

  /** The total over two collections is the sum of their totals. */
  lemma CalculateTotalBalanceAppend(a: seq<Account>, b: seq<Account>)
    ensures CalculateTotalBalance(a + b) == CalculateTotalBalance(a) + CalculateTotalBalance(b)
  {
    SeqSumAppend(a, b, BalanceOf);
  }

  // ---------------------------------------------------------------------------
  // getBalanceByEmail
  // ---------------------------------------------------------------------------

  /** The message of the exception thrown when no account has `email`. */
  function NotFoundMessage(email: string): string
  {
    "Cannot find Account by email=" + email
  }

  /** `filter(email).map(getBalance).findAny()`: the balance of some account with
      that email, or `EntityNotFoundException` naming the email when there is none.
      Which match `findAny` returns is not promised; the model takes the first. */
  function GetBalanceByEmail(accounts: seq<Account>, email: string): (r: Result<real>)
    ensures r.Success? ==> exists a :: a in accounts && a.email == email && a.balance == r.value
    ensures r.Failure? <==> forall a :: a in accounts ==> a.email != email
    ensures r.Failure? ==> r.error == EntityNotFound(NotFoundMessage(email))
  {
    if |accounts| == 0 then Failure(EntityNotFound(NotFoundMessage(email)))
    else if accounts[0].email == email then Success(accounts[0].balance)
    else
      assert accounts == [accounts[0]] + accounts[1..];
      GetBalanceByEmail(accounts[1..], email)
  }

  /** When exactly one account has the email, its balance is the answer. */
  lemma GetBalanceByUniqueEmail(accounts: seq<Account>, a: Account)
    requires a in accounts
    requires forall b :: b in accounts && b.email == a.email ==> b == a
    ensures GetBalanceByEmail(accounts, a.email) == Success(a.balance)
  {
  }

  // ---------------------------------------------------------------------------
  // groupAccountsByEmailDomain
  // ---------------------------------------------------------------------------

  /** The account at `i` is the first one whose email has no domain, raising `e`. */
  predicate FirstWithoutDomainAt(accounts: seq<Account>, i: int, e: Error)
  {
    && 0 <= i < |accounts|
    && EmailDomain(accounts[i].email) == Failure(e)
    && forall j :: 0 <= j < i ==> HasDomain(accounts[j])
  }

  /** The domains of the accounts' emails, computed in encounter order, or the
      exception raised by the first email that has none. */
  function Domains(accounts: seq<Account>): (r: Result<seq<string>>)
    ensures r.Success? <==> forall a :: a in accounts ==> HasDomain(a)
    ensures r.Success? ==> |r.value| == |accounts|
    ensures r.Success? ==> forall i :: 0 <= i < |accounts| ==> EmailDomain(accounts[i].email) == Success(r.value[i])
    ensures r.Failure? ==> exists i :: FirstWithoutDomainAt(accounts, i, r.error)
  {
    if |accounts| == 0 then Success([])
    else
      assert accounts == [accounts[0]] + accounts[1..];
      match EmailDomain(accounts[0].email)
      case Failure(e) =>
        assert FirstWithoutDomainAt(accounts, 0, e);
        assert accounts[0] in accounts;
        Failure(e)
      case Success(d) =>
        match Domains(accounts[1..])
        case Failure(e) =>
          FirstWithoutDomainStep(accounts, e);
          Failure(e)
        case Success(ds) => Success([d] + ds)
  }

  /** `groupingBy(email.split("@")[1])`: each domain mapped to the accounts whose
      email has it, in encounter order; the exception of the first email without a
      domain when there is one. */
  function GroupAccountsByEmailDomain(accounts: seq<Account>): (r: Result<map<string, seq<Account>>>)
    ensures r.Failure? <==> exists a :: a in accounts && !HasDomain(a)
    ensures r.Failure? ==> exists i :: FirstWithoutDomainAt(accounts, i, r.error)
    ensures r.Success? ==> forall d :: d in r.value <==> exists a :: a in accounts && EmailDomain(a.email) == Success(d)
    ensures r.Success? ==> forall d :: d in r.value ==> r.value[d] == Filter(accounts, HasKey(DomainOf, d))
  {
    match Domains(accounts)
    case Failure(e) => Failure(e)
    case Success(_) =>
      var groups := GroupBy(accounts, DomainOf);
      assert forall d :: d in groups ==> groups[d] == Filter(accounts, HasKey(DomainOf, d)) by {
        forall d | d in groups
          ensures groups[d] == Filter(accounts, HasKey(DomainOf, d))
        {
          GroupByWithKey(accounts, DomainOf, d);
        }
      }
      Success(groups)
  }

  /** Each account sits under the domain of its email, as often as it occurs in the
      input, and under no other; no domain maps to an empty list. */
  lemma GroupAccountsByEmailDomainPartitions(accounts: seq<Account>)
    requires forall a :: a in accounts ==> HasDomain(a)
    ensures GroupAccountsByEmailDomain(accounts).Success?
    ensures var m := GroupAccountsByEmailDomain(accounts).value;
            forall a :: a in accounts ==>
              EmailDomain(a.email).value in m && multiset(m[EmailDomain(a.email).value])[a] == multiset(accounts)[a]
    ensures var m := GroupAccountsByEmailDomain(accounts).value;
            forall d, a :: d in m && a in m[d] ==> EmailDomain(a.email) == Success(d)
    ensures var m := GroupAccountsByEmailDomain(accounts).value;
            forall d :: d in m ==> m[d] != []
  {
    GroupByPartitions(accounts, DomainOf);
    GroupByNonEmpty(accounts, DomainOf);
    var m := GroupAccountsByEmailDomain(accounts).value;
    forall d, a: Account | d in m && a in m[d]
      ensures EmailDomain(a.email) == Success(d)
    {
      GroupByWithKey(accounts, DomainOf, d);
      FilterContents(accounts, HasKey(DomainOf, d));
    }
  }

  // ---------------------------------------------------------------------------
  // containsAccountWithEmailDomain
  // ---------------------------------------------------------------------------

  /** The account at `i` has `domain`, and every account before it has some domain,
      so `anyMatch` reaches it without an exception. */
  predicate DomainMatchAt(accounts: seq<Account>, i: int, domain: string)
  {
    && 0 <= i < |accounts|
    && EmailDomain(accounts[i].email) == Success(domain)
    && forall j :: 0 <= j < i ==> HasDomain(accounts[j])
  }

  /** `anyMatch(email.split("@")[1].equals(domain))`: true once an account with that
      domain is met. The match short-circuits, so an email without a domain raises
      its exception only when it comes before every match. */
  function ContainsAccountWithEmailDomain(accounts: seq<Account>, domain: string): (r: Result<bool>)
    ensures r == Success(true) <==> exists i :: DomainMatchAt(accounts, i, domain)
    ensures r == Success(false) <==>
              forall a :: a in accounts ==> HasDomain(a) && EmailDomain(a.email) != Success(domain)
    ensures r.Failure? ==> exists i :: FirstWithoutDomainAt(accounts, i, r.error)
  {
    if |accounts| == 0 then Success(false)
    else
      var rest := accounts[1..];
      match EmailDomain(accounts[0].email)
      case Failure(e) =>
        assert FirstWithoutDomainAt(accounts, 0, e);
        assert accounts[0] in accounts;
        Failure(e)
      case Success(d) =>
        if d == domain then
          assert DomainMatchAt(accounts, 0, domain);
          Success(true)
        else
          var r := ContainsAccountWithEmailDomain(rest, domain);
          ContainsStep(accounts, domain, r);
          r
  }

  /** How the answer for the accounts after a first one whose domain differs carries
      over to all the accounts. */
  lemma ContainsStep(accounts: seq<Account>, domain: string, r: Result<bool>)
    requires |accounts| > 0 && HasDomain(accounts[0]) && EmailDomain(accounts[0].email) != Success(domain)
    requires r == Success(true) <==> exists i :: DomainMatchAt(accounts[1..], i, domain)
    requires r == Success(false) <==>
               forall a :: a in accounts[1..] ==> HasDomain(a) && EmailDomain(a.email) != Success(domain)
    requires r.Failure? ==> exists i :: FirstWithoutDomainAt(accounts[1..], i, r.error)
    ensures r == Success(true) <==> exists i :: DomainMatchAt(accounts, i, domain)
    ensures r == Success(false) <==>
              forall a :: a in accounts ==> HasDomain(a) && EmailDomain(a.email) != Success(domain)
    ensures r.Failure? ==> exists i :: FirstWithoutDomainAt(accounts, i, r.error)
  {
    MatchAtStep(accounts, domain);
    if r.Failure? {
      FirstWithoutDomainStep(accounts, r.error);
    }
  }

  /** Past a head that does not match, a match in the whole is a match in the tail. */
  lemma MatchAtStep(accounts: seq<Account>, domain: string)
    requires |accounts| > 0 && HasDomain(accounts[0]) && EmailDomain(accounts[0].email) != Success(domain)
    ensures (exists i :: DomainMatchAt(accounts, i, domain)) <==> exists i :: DomainMatchAt(accounts[1..], i, domain)
  {
    var rest := accounts[1..];
    if exists i :: DomainMatchAt(rest, i, domain) {
      var i :| DomainMatchAt(rest, i, domain);
      assert DomainMatchAt(accounts, i + 1, domain);
    }
    if exists i :: DomainMatchAt(accounts, i, domain) {
      var i :| DomainMatchAt(accounts, i, domain);
      assert DomainMatchAt(rest, i - 1, domain);
    }
  }

  /** Past a head that has a domain, the first failure of the tail is that of the whole. */
  lemma FirstWithoutDomainStep(accounts: seq<Account>, e: Error)
    requires |accounts| > 0 && HasDomain(accounts[0])
    requires exists i :: FirstWithoutDomainAt(accounts[1..], i, e)
    ensures exists i :: FirstWithoutDomainAt(accounts, i, e)
  {
    var i :| FirstWithoutDomainAt(accounts[1..], i, e);
    assert FirstWithoutDomainAt(accounts, i + 1, e);
  }

  /** With every email well formed, the answer is true exactly when the domain is a key
      of the grouping by domain. */
  lemma ContainsAccountWithEmailDomainIffKey(accounts: seq<Account>, domain: string)
    requires forall a :: a in accounts ==> HasDomain(a)
    ensures GroupAccountsByEmailDomain(accounts).Success?
    ensures ContainsAccountWithEmailDomain(accounts, domain)
         == Success(domain in GroupAccountsByEmailDomain(accounts).value)
  {
    var m := GroupAccountsByEmailDomain(accounts).value;
    if domain in m {
      var a :| a in accounts && EmailDomain(a.email) == Success(domain);
      ContainsWhenPresent(accounts, domain, a);
    } else {
      ContainsWhenAbsent(accounts, domain);
    }
  }

  lemma ContainsWhenAbsent(accounts: seq<Account>, domain: string)
    requires forall b :: b in accounts ==> HasDomain(b) && EmailDomain(b.email) != Success(domain)
    ensures ContainsAccountWithEmailDomain(accounts, domain) == Success(false)
  {
  }

  lemma ContainsWhenPresent(accounts: seq<Account>, domain: string, a: Account)
    requires forall b :: b in accounts ==> HasDomain(b)
    requires a in accounts && EmailDomain(a.email) == Success(domain)
    ensures ContainsAccountWithEmailDomain(accounts, domain) == Success(true)
  {
    var i :| 0 <= i < |accounts| && accounts[i] == a;
    assert DomainMatchAt(accounts, i, domain);
  }

  // ---------------------------------------------------------------------------
  // sortByFirstAndLastNames
  // ---------------------------------------------------------------------------

  /** `sorted(comparing(getFirstName).thenComparing(getLastName))`: the same accounts,
      ordered by first and then last name, and accounts with equal names keep their
      encounter order (the sort is stable). Any stable sort by this comparator
      gives this sequence. */
  function SortByFirstAndLastNames(accounts: seq<Account>): (r: seq<Account>)
    ensures multiset(r) == multiset(accounts)
    ensures forall i, j :: 0 <= i < j < |r| ==> NameLe(r[i], r[j])
    ensures forall y :: Filter(r, NamesOf(y)) == Filter(accounts, NamesOf(y))
  {
    var r := Sort(accounts);
    assert forall y :: Filter(r, NamesOf(y)) == Filter(accounts, NamesOf(y)) by {
      forall y
        ensures Filter(r, NamesOf(y)) == Filter(accounts, NamesOf(y))
      {
        SortStable(accounts, y);
      }
    }
    r
  }

  /** Sorting the sorted list again changes nothing. */
  lemma SortByFirstAndLastNamesIdempotent(accounts: seq<Account>)
    ensures SortByFirstAndLastNames(SortByFirstAndLastNames(accounts)) == SortByFirstAndLastNames(accounts)
  {
    SortOfSorted(Sort(accounts));
  }

  // ---------------------------------------------------------------------------
  // collectAccountsById
  // ---------------------------------------------------------------------------

  /** `toMap(getId, identity())`: every id mapped to its account; a repeated id
      raises the duplicate-key exception. */
  function CollectAccountsById(accounts: seq<Account>): (r: Result<map<int, Account>>)
    ensures r.Failure? <==> exists i, j :: 0 <= i < j < |accounts| && accounts[i].id == accounts[j].id
    ensures r.Failure? ==> r.error == DuplicateKey
    ensures r.Success? ==> r.value.Keys == set a | a in accounts :: a.id
    ensures r.Success? ==> forall a :: a in accounts ==> r.value[a.id] == a
  {
    ToMap(accounts, IdOf, Self)
  }

  // ---------------------------------------------------------------------------
  // collectBalancesByEmailForAccountsCreatedOn
  // ---------------------------------------------------------------------------

  /** `filter(creation year == year).collect(toMap(getEmail, getBalance))`: the email
      of every account created in `year` mapped to its balance; two such accounts
      with one email raise the duplicate-key exception. */
  function CollectBalancesByEmailForAccountsCreatedOn(accounts: seq<Account>, year: int): (r: Result<map<string, real>>)
    ensures r.Failure? <==>
              exists i, j :: 0 <= i < j < |accounts| && accounts[i].creationDate.year == year &&
                accounts[j].creationDate.year == year && accounts[i].email == accounts[j].email
    ensures r.Failure? ==> r.error == DuplicateKey
    ensures r.Success? ==> forall e :: e in r.value <==>
              exists a :: a in accounts && a.creationDate.year == year && a.email == e
    ensures r.Success? ==> forall a :: a in accounts && a.creationDate.year == year ==> r.value[a.email] == a.balance
  {
    var created := Filter(accounts, CreatedInYear(year));
    FilterContents(accounts, CreatedInYear(year));
    KeysDistinctFilter(accounts, CreatedInYear(year), EmailOf);
    ToMap(created, EmailOf, BalanceOf)
  }

  // ---------------------------------------------------------------------------
  // groupFirstNamesByLastNames
  // ---------------------------------------------------------------------------

  /** `groupingBy(getLastName, mapping(getFirstName, toSet()))`: each last name mapped
      to the set of first names that occur with it. */
  function GroupFirstNamesByLastNames(accounts: seq<Account>): (r: map<string, set<string>>)
    ensures forall l :: l in r <==> exists a :: a in accounts && a.lastName == l
    ensures forall l, f :: l in r ==>
              (f in r[l] <==> exists a :: a in accounts && a.lastName == l && a.firstName == f)
  {
    var groups := GroupBy(accounts, LastNameOf);
    var r := map l | l in groups :: set a | a in groups[l] :: a.firstName;
    assert forall l, f :: l in r ==>
              (f in r[l] <==> exists a :: a in accounts && a.lastName == l && a.firstName == f) by {
      forall l, f | l in r
        ensures f in r[l] <==> exists a :: a in accounts && a.lastName == l && a.firstName == f
      {
        GroupByWithKey(accounts, LastNameOf, l);
        FilterContents(accounts, HasKey(LastNameOf, l));
      }
    }
    r
  }

  /** No last name maps to an empty set. */
  lemma GroupFirstNamesByLastNamesNonEmpty(accounts: seq<Account>)
    ensures forall l :: l in GroupFirstNamesByLastNames(accounts) ==> GroupFirstNamesByLastNames(accounts)[l] != {}
  {
    var r := GroupFirstNamesByLastNames(accounts);
    forall l | l in r
      ensures r[l] != {}
    {
      var a :| a in accounts && a.lastName == l;
      assert a.firstName in r[l];
    }
  }

  // ---------------------------------------------------------------------------
  // groupCommaSeparatedFirstNamesByBirthdayMonth
  // ---------------------------------------------------------------------------

  /** The first names of the accounts joined with ", ". */
  function JoinedFirstNames(accounts: seq<Account>): string
  {
    Join(MapSeq(accounts, FirstNameOf), ", ")
  }

  /** `groupingBy(birthday month, mapping(getFirstName, joining(", ")))`: each birth
      month mapped to the first names of the accounts born in it, in encounter order,
      separated by ", " -- the names of exactly the accounts that
      `FindAccountsByBirthdayMonth` returns for that month. */
  function GroupCommaSeparatedFirstNamesByBirthdayMonth(accounts: seq<Account>): (r: map<int, string>)
    ensures forall m :: m in r <==> exists a :: a in accounts && a.birthday.month == m
    ensures forall m :: m in r ==> r[m] == JoinedFirstNames(FindAccountsByBirthdayMonth(accounts, m))
  {
    var groups := GroupBy(accounts, BirthdayMonth);
    forall m | m in groups
      ensures groups[m] == FindAccountsByBirthdayMonth(accounts, m)
    {
      BirthMonthGroup(accounts, m);
    }
    map m | m in groups :: JoinedFirstNames(groups[m])
  }

  /** The group of a birth month is what `FindAccountsByBirthdayMonth` returns for it. */
  lemma BirthMonthGroup(accounts: seq<Account>, m: int)
    requires m in GroupBy(accounts, BirthdayMonth)
    ensures GroupBy(accounts, BirthdayMonth)[m] == FindAccountsByBirthdayMonth(accounts, m)
  {
    GroupByWithKey(accounts, BirthdayMonth, m);
    FilterCongruent(accounts, HasKey(BirthdayMonth, m), BornIn(m));
  }

  /** Joining keeps encounter order: for a month present in both halves of a
      collection, the joined names of the whole are those of the first half, ", ",
      then those of the second. */
  lemma GroupCommaSeparatedFirstNamesByBirthdayMonthAppend(a: seq<Account>, b: seq<Account>, m: int)
    requires exists x :: x in a && x.birthday.month == m
    requires exists y :: y in b && y.birthday.month == m
    ensures m in GroupCommaSeparatedFirstNamesByBirthdayMonth(a)
    ensures m in GroupCommaSeparatedFirstNamesByBirthdayMonth(b)
    ensures m in GroupCommaSeparatedFirstNamesByBirthdayMonth(a + b)
    ensures GroupCommaSeparatedFirstNamesByBirthdayMonth(a + b)[m]
         == GroupCommaSeparatedFirstNamesByBirthdayMonth(a)[m] + ", "
          + GroupCommaSeparatedFirstNamesByBirthdayMonth(b)[m]
  {
    var x :| x in a && x.birthday.month == m;
    var y :| y in b && y.birthday.month == m;
    assert x in a + b;
    var fa := FindAccountsByBirthdayMonth(a, m);
    var fb := FindAccountsByBirthdayMonth(b, m);
    FindAccountsByBirthdayMonthAppend(a, b, m);
    BornInMonthFound(a, m, x);
    BornInMonthFound(b, m, y);
    MapSeqAppend(fa, fb, FirstNameOf);
    JoinAppend(MapSeq(fa, FirstNameOf), MapSeq(fb, FirstNameOf), ", ");
  }

  /** An account born in `m` makes the filter for `m` non-empty. */
  lemma BornInMonthFound(accounts: seq<Account>, m: int, x: Account)
    requires x in accounts && x.birthday.month == m
    ensures FindAccountsByBirthdayMonth(accounts, m) != []
  {
    assert multiset(FindAccountsByBirthdayMonth(accounts, m))[x] > 0;
  }

  // ---------------------------------------------------------------------------
  // groupTotalBalanceByCreationMonth
  // ---------------------------------------------------------------------------

  /** `groupingBy(creation month, mapping(getBalance, reducing(ZERO, add)))`: each
      creation month mapped to the total balance of the accounts created in it. */
  function GroupTotalBalanceByCreationMonth(accounts: seq<Account>): (r: map<int, real>)
    ensures forall m :: m in r <==> exists a :: a in accounts && a.creationDate.month == m
    ensures forall m :: m in r ==> r[m] == CalculateTotalBalance(Filter(accounts, CreatedInMonth(m)))
  {
    var groups := GroupBy(accounts, CreationMonth);
    forall m | m in groups
      ensures SeqSum(groups[m], BalanceOf) == CalculateTotalBalance(Filter(accounts, CreatedInMonth(m)))
    {
      CreationMonthGroup(accounts, m);
    }
    Totals(groups, BalanceOf)
  }

  /** The group of a creation month is the filter for that month. */
  lemma CreationMonthGroup(accounts: seq<Account>, m: int)
    requires m in GroupBy(accounts, CreationMonth)
    ensures GroupBy(accounts, CreationMonth)[m] == Filter(accounts, CreatedInMonth(m))
  {
    GroupByWithKey(accounts, CreationMonth, m);
    FilterCongruent(accounts, HasKey(CreationMonth, m), CreatedInMonth(m));
  }

  /** The monthly totals add up to the total balance; for no accounts the map is
      empty and the total is 0.0. */
  lemma GroupTotalBalanceByCreationMonthSum(accounts: seq<Account>)
    ensures SumValues(GroupTotalBalanceByCreationMonth(accounts)) == CalculateTotalBalance(accounts)
  {
    GroupedSum(accounts, CreationMonth, BalanceOf);
  }

  // ---------------------------------------------------------------------------
  // getCharacterFrequencyInFirstNames
  // ---------------------------------------------------------------------------

  /** All first names laid end to end. */
  function FirstNameChars(accounts: seq<Account>): string
  {
    Flatten(MapSeq(accounts, FirstNameOf))
  }

  /** `flatMap(firstName.chars()).collect(groupingBy(identity(), counting()))`: each
      character that occurs in a first name mapped to its number of occurrences in
      all first names (case-sensitive). */
  function GetCharacterFrequencyInFirstNames(accounts: seq<Account>): (r: map<char, nat>)
    ensures forall c :: c in r <==> exists a :: a in accounts && c in a.firstName
    ensures forall c :: c in r ==> r[c] == multiset(FirstNameChars(accounts))[c]
  {
    var names := MapSeq(accounts, FirstNameOf);
    forall c
      ensures c in FirstNameChars(accounts) <==> exists a :: a in accounts && c in a.firstName
    {
      if exists a :: a in accounts && c in a.firstName {
        var a :| a in accounts && c in a.firstName;
        var i :| 0 <= i < |accounts| && accounts[i] == a;
        assert c in names[i];
      }
    }
    Counting(FirstNameChars(accounts))
  }

  /** The counts add up to the number of characters in all first names. */
  lemma GetCharacterFrequencyInFirstNamesSum(accounts: seq<Account>)
    ensures var r := GetCharacterFrequencyInFirstNames(accounts);
            SumValues(map c | c in r :: r[c] as real) == |FirstNameChars(accounts)| as real
  {
    CountingSum(FirstNameChars(accounts));
  }

  // ---------------------------------------------------------------------------
  // getCharacterFrequencyIgnoreCaseInFirstAndLastNames
  // ---------------------------------------------------------------------------

  /** All full names laid end to end, as written. */
  function FullNameChars(accounts: seq<Account>): string
  {
    Flatten(MapSeq(accounts, FullName))
  }

  /** Lower-casing each name and then laying them end to end lower-cases the whole. */
  lemma {:induction false} LowerFullNameChars(accounts: seq<Account>)
    ensures Flatten(MapSeq(accounts, LowerFullName)) == LowerAscii(FullNameChars(accounts))
  {
    if |accounts| > 0 {
      var init := accounts[..|accounts| - 1];
      var last := accounts[|accounts| - 1];
      LowerFullNameChars(init);
      assert MapSeq(accounts, LowerFullName)[..|accounts| - 1] == MapSeq(init, LowerFullName);
      assert MapSeq(accounts, FullName)[..|accounts| - 1] == MapSeq(init, FullName);
      LowerAsciiAppend(last.firstName, last.lastName);
      LowerAsciiAppend(FullNameChars(init), FullName(last));
    }
  }

  /** `map(lower(first) + lower(last)).flatMap(chars).collect(groupingBy(identity(),
      counting()))`: counts over all first and last names with case ignored. A
      character is a key exactly when it occurs with case ignored, so no key is an
      upper-case letter, and its value is how often it occurs with case ignored. */
  function GetCharacterFrequencyIgnoreCaseInFirstAndLastNames(accounts: seq<Account>): (r: map<char, nat>)
    ensures forall c :: c in r <==> IgnoreCaseCount(FullNameChars(accounts), c) > 0
    ensures forall c :: c in r ==> r[c] == IgnoreCaseCount(FullNameChars(accounts), c)
    ensures forall c :: c in r ==> !IsUpperAscii(c)
  {
    var lowered := Flatten(MapSeq(accounts, LowerFullName));
    LowerFullNameChars(accounts);
    forall c
      ensures multiset(lowered)[c] == IgnoreCaseCount(FullNameChars(accounts), c)
    {
      LowerAsciiCount(FullNameChars(accounts), c);
    }
    Counting(lowered)
  }

  /** A key is a character that is not an upper-case letter and that occurs in some
      name as itself or, for a lower-case letter, as its upper-case partner. */
  lemma GetCharacterFrequencyIgnoreCaseKeys(accounts: seq<Account>, c: char)
    ensures var r := GetCharacterFrequencyIgnoreCaseInFirstAndLastNames(accounts);
            var chars := FullNameChars(accounts);
            c in r <==> !IsUpperAscii(c) && (c in chars || (IsLowerAscii(c) && UpperOf(c) in chars))
  {
  }

  /** The counts add up to the number of characters in all full names. */
  lemma GetCharacterFrequencyIgnoreCaseInFirstAndLastNamesSum(accounts: seq<Account>)
    ensures var r := GetCharacterFrequencyIgnoreCaseInFirstAndLastNames(accounts);
            SumValues(map c | c in r :: r[c] as real) == |FullNameChars(accounts)| as real
  {
    LowerFullNameChars(accounts);
    CountingSum(Flatten(MapSeq(accounts, LowerFullName)));
  }
}
