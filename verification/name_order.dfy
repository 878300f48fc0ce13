/** The order `comparing(Account::getFirstName).thenComparing(Account::getLastName)`
    and the stable sort that `Stream.sorted` performs with it. */
module NameOrder {
  import opened Seqs
  import opened Strings
  import opened Accounts

  /** The comparator says `x` may come before `y`: a smaller first name, or the same
      first name and a last name that is not larger. */
  predicate NameLe(x: Account, y: Account)
    ensures NameLe(x, y) ==> LexLe(x.firstName, y.firstName)
    ensures x.firstName == y.firstName ==> (NameLe(x, y) <==> LexLe(x.lastName, y.lastName))
  {
    LexLeTotal(x.firstName, y.firstName);
    LexLeReflexive(x.firstName);
    LexLess(x.firstName, y.firstName) || (x.firstName == y.firstName && LexLe(x.lastName, y.lastName))
  }

  /** Both names agree: the comparator returns zero. */
  predicate SameNames(x: Account, y: Account)
  {
    x.firstName == y.firstName && x.lastName == y.lastName
  }

  lemma NameLeTotal(x: Account, y: Account)
    ensures NameLe(x, y) || NameLe(y, x)
  {
    LexLessIff(x.firstName, y.firstName);
    LexLessIff(y.firstName, x.firstName);
    LexLeTotal(x.firstName, y.firstName);
    LexLeTotal(x.lastName, y.lastName);
  }

  lemma NameLeTransitive(x: Account, y: Account, z: Account)
    requires NameLe(x, y) && NameLe(y, z)
    ensures NameLe(x, z)
  {
    LexLessIff(x.firstName, y.firstName);
    LexLessIff(y.firstName, z.firstName);
    LexLessIff(x.firstName, z.firstName);
    if LexLess(x.firstName, y.firstName) && LexLess(y.firstName, z.firstName) {
      LexLeTransitive(x.firstName, y.firstName, z.firstName);
      if x.firstName == z.firstName {
        LexLeAntisymmetric(x.firstName, y.firstName);
      }
    }
    if x.firstName == y.firstName == z.firstName {
      LexLeTransitive(x.lastName, y.lastName, z.lastName);
    }
  }

  /** Each precedes the other exactly when both names agree. */
  lemma NameLeBothWays(x: Account, y: Account)
    ensures NameLe(x, y) && NameLe(y, x) <==> SameNames(x, y)
  {
    LexLessIff(x.firstName, y.firstName);
    LexLessIff(y.firstName, x.firstName);
    if SameNames(x, y) {
      LexLeReflexive(x.lastName);
    }
    if NameLe(x, y) && NameLe(y, x) && x.firstName == y.firstName {
      LexLeAntisymmetric(x.lastName, y.lastName);
    }
  }

  /** The test "has the same names as `y`", as a filter predicate. */
  function NamesOf(y: Account): Account -> bool
  {
    a => SameNames(a, y)
  }

  /** Every element may come before every later one. */
  predicate Sorted(s: seq<Account>)
  {
    forall i, j :: 0 <= i < j < |s| ==> NameLe(s[i], s[j])
  }

  /** `x` placed into sorted `t` before the first element it may precede, so after
      every element with the same names. */
  function Insert(x: Account, t: seq<Account>): (r: seq<Account>)
    ensures multiset(r) == multiset(t) + multiset{x}
  {
    if |t| == 0 then [x]
    else if NameLe(x, t[0]) then [x] + t
    else
      assert t == [t[0]] + t[1..];
      [t[0]] + Insert(x, t[1..])
  }

  lemma {:induction false} InsertSorted(x: Account, t: seq<Account>)
    requires Sorted(t)
    ensures Sorted(Insert(x, t))
  {
    if |t| > 0 {
      if NameLe(x, t[0]) {
        forall j | 1 <= j < |t| + 1
          ensures NameLe(x, ([x] + t)[j])
        {
          if j > 1 {
            NameLeTransitive(x, t[0], t[j - 1]);
          }
        }
      } else {
        NameLeTotal(x, t[0]);
        InsertSorted(x, t[1..]);
        var r := Insert(x, t[1..]);
        forall j | 0 <= j < |r|
          ensures NameLe(t[0], r[j])
        {
          assert r[j] in multiset(r);
          assert r[j] == x || r[j] in t[1..];
        }
      }
    }
  }

  /** Insertion is stable: among accounts with the names of `y`, the inserted one
      ends up in front exactly when `x` has those names (it was met first). */
  lemma {:induction false} InsertStable(x: Account, t: seq<Account>, y: Account)
    requires Sorted(t)
    ensures Filter(Insert(x, t), NamesOf(y))
         == Filter([x], NamesOf(y)) + Filter(t, NamesOf(y))
  {
    var p := NamesOf(y);
    if |t| == 0 {
      assert Filter(t, p) == [];
    } else if NameLe(x, t[0]) {
      FilterAppend([x], t, p);
    } else {
      SortedTail(t);
      InsertStable(x, t[1..], y);
      InsertBehindHead(x, t, y);
    }
  }

  /** The stability step when `x` goes behind the head of `t`. */
  lemma InsertBehindHead(x: Account, t: seq<Account>, y: Account)
    requires |t| > 0 && !NameLe(x, t[0])
    requires Filter(Insert(x, t[1..]), NamesOf(y))
          == Filter([x], NamesOf(y)) + Filter(t[1..], NamesOf(y))
    ensures Filter(Insert(x, t), NamesOf(y))
         == Filter([x], NamesOf(y)) + Filter(t, NamesOf(y))
  {
    var p := NamesOf(y);
    var t' := t[1..];
    var head := Filter([t[0]], p);
    var mine := Filter([x], p);
    var rest := Filter(t', p);
    NotBothNamed(x, t[0], y);
    calc {
      Filter(Insert(x, t), p);
      { assert Insert(x, t) == [t[0]] + Insert(x, t'); }
      Filter([t[0]] + Insert(x, t'), p);
      { FilterAppend([t[0]], Insert(x, t'), p); }
      head + Filter(Insert(x, t'), p);
      head + (mine + rest);
      { SwapAroundEmpty(head, mine, rest); }
      mine + (head + rest);
      { assert t == [t[0]] + t'; FilterAppend([t[0]], t', p); }
      mine + Filter(t, p);
    }
  }

  /** Accounts of which the first may not come before the second do not share names,
      so at most one of them carries the names of `y`. */
  lemma NotBothNamed(x: Account, h: Account, y: Account)
    requires !NameLe(x, h)
    ensures Filter([h], NamesOf(y)) == [] || Filter([x], NamesOf(y)) == []
  {
    FilterSingleton(x, NamesOf(y));
    FilterSingleton(h, NamesOf(y));
    LexLeReflexive(x.lastName);
  }

  lemma SortedTail(t: seq<Account>)
    requires |t| > 0 && Sorted(t)
    ensures Sorted(t[1..])
  {
    forall i, j | 0 <= i < j < |t| - 1
      ensures NameLe(t[1..][i], t[1..][j])
    {
      assert t[1..][i] == t[i + 1] && t[1..][j] == t[j + 1];
    }
  }

  /** Two pieces of which one is empty can trade places. */
  lemma SwapAroundEmpty<T>(a: seq<T>, b: seq<T>, c: seq<T>)
    requires a == [] || b == []
    ensures a + (b + c) == b + (a + c)
  {
    if a == [] {
      assert a + (b + c) == b + c;
      assert a + c == c;
    } else {
      assert b + (a + c) == a + c;
      assert b + c == c;
    }
  }

  lemma FilterSingleton(x: Account, p: Account -> bool)
    ensures Filter([x], p) == if p(x) then [x] else []
  {
    assert [x][..0] == [];
  }

  /** `sorted(comparator)`: a stable sort, by insertion from the back. */
  function Sort(s: seq<Account>): (r: seq<Account>)
    ensures multiset(r) == multiset(s)
    ensures Sorted(r)
  {
    if |s| == 0 then []
    else
      assert s == [s[0]] + s[1..];
      InsertSorted(s[0], Sort(s[1..]));
      Insert(s[0], Sort(s[1..]))
  }

  /** The sort keeps the encounter order of accounts whose names agree. */
  lemma {:induction false} SortStable(s: seq<Account>, y: Account)
    ensures Filter(Sort(s), NamesOf(y)) == Filter(s, NamesOf(y))
  {
    if |s| > 0 {
      SortStable(s[1..], y);
      StableStep(s[0], Sort(s[1..]), s[1..], y);
      assert s == [s[0]] + s[1..];
    }
  }

  /** Inserting into a sorted sequence that keeps the order of `s` among the accounts
      named like `y` keeps the order of `[x] + s` among them. */
  lemma StableStep(x: Account, t: seq<Account>, s: seq<Account>, y: Account)
    requires Sorted(t) && Filter(t, NamesOf(y)) == Filter(s, NamesOf(y))
    ensures Filter(Insert(x, t), NamesOf(y)) == Filter([x] + s, NamesOf(y))
  {
    InsertStable(x, t, y);
    FilterAppend([x], s, NamesOf(y));
  }

  /** A sorted input comes back unchanged, so sorting twice sorts once. */
  lemma {:induction false} SortOfSorted(s: seq<Account>)
    requires Sorted(s)
    ensures Sort(s) == s
  {
    if |s| > 0 {
      SortOfSorted(s[1..]);
      assert s == [s[0]] + s[1..];
      if |s| > 1 {
        assert NameLe(s[0], s[1]);
      }
    }
  }
}
