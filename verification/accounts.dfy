/** The `Account` record the queries read, and the email domain the Java code takes
    from it with `split("@")[1]`. */
module Accounts {
  import opened Results
  import opened Strings

  /** A `LocalDate` reduced to its three fields; calendar validity is not modelled. */
  datatype Date = Date(year: int, month: int, day: int)

  datatype Sex = Male | Female

  /** An account; `balance` is an exact decimal. */
  datatype Account = Account(
    id: int,
    firstName: string,
    lastName: string,
    email: string,
    sex: Sex,
    birthday: Date,
    creationDate: Date,
    balance: real)

  /** `email.split("@")[1]`: the second piece of the split, or the
      `ArrayIndexOutOfBoundsException` that Java raises when the split yields fewer
      than two pieces (no "@", or nothing but "@"s after the first one). */
  function EmailDomain(email: string): (r: Result<string>)
    ensures r.Success? ==> '@' in email && '@' !in r.value
    ensures '@' !in email ==> r == Failure(IndexOutOfBounds(1, 1))
  {
    var pieces := Split(email, '@');
    if |pieces| >= 2 then Success(pieces[1]) else Failure(IndexOutOfBounds(1, |pieces|))
  }

  /** Some "@" is followed, somewhere later, by a character other than "@". */
  predicate TextAfterAt(email: string)
  {
    exists i, j :: 0 <= i < j < |email| && email[i] == '@' && email[j] != '@'
  }

  /** An email has a domain exactly when some character other than "@" follows an
      "@"; so "ab", "a@" and "a@@" have none, and "a@@b" has one. */
  lemma EmailDomainSucceedsIff(email: string)
    ensures EmailDomain(email).Success? <==> TextAfterAt(email)
  {
    if '@' in email {
      var p := FirstAt(email);
      var local, tail := email[..p], email[p + 1..];
      assert email == local + ['@'] + tail;
      if EmailDomain(email).Success? {
        var c, j := TextInTail(local, tail);
        assert email[p + 1 + j] == c;
      }
      if TextAfterAt(email) {
        var i, j :| 0 <= i < j < |email| && email[i] == '@' && email[j] != '@';
        assert tail[j - p - 1] == email[j];
        TailTextGivesDomain(local, tail, email[j]);
      }
    }
  }

  /** The position of the first "@" of an address that has one. */
  lemma {:induction false} FirstAt(email: string) returns (p: int)
    requires '@' in email
    ensures 0 <= p < |email| && email[p] == '@' && '@' !in email[..p]
  {
    if email[0] == '@' {
      p := 0;
    } else {
      assert email == [email[0]] + email[1..];
      var q := FirstAt(email[1..]);
      p := q + 1;
      assert email[..p] == [email[0]] + email[1..][..q];
    }
  }

  /** Splitting at the first "@": the local part, then the pieces of the rest. */
  lemma SplitAtFirstAt(local: string, tail: string)
    requires '@' !in local
    ensures Pieces(local + ['@'] + tail, '@') == [local] + Pieces(tail, '@')
  {
    PiecesAround(local, '@', tail);
    PiecesWithoutSeparator(local, '@');
  }

  /** A domain means some character other than "@" after the first "@". */
  lemma TextInTail(local: string, tail: string) returns (c: char, j: int)
    requires '@' !in local
    requires EmailDomain(local + ['@'] + tail).Success?
    ensures 0 <= j < |tail| && tail[j] == c && c != '@'
  {
    var e := local + ['@'] + tail;
    assert e[|local|] == '@';
    var k := LaterPieceNonEmpty(e, '@');
    SplitAtFirstAt(local, tail);
    c := Pieces(e, '@')[k][0];
    PiecesFromString(tail, '@', k - 1, c);
    j :| 0 <= j < |tail| && tail[j] == c;
  }

  /** A character other than "@" after the first "@" gives a domain. */
  lemma TailTextGivesDomain(local: string, tail: string, c: char)
    requires '@' !in local && c in tail && c != '@'
    ensures EmailDomain(local + ['@'] + tail).Success?
  {
    var e := local + ['@'] + tail;
    SplitAtFirstAt(local, tail);
    assert e[|local|] == '@';
    PiecesKeepOthers(tail, '@', c);
    var i :| 0 <= i < |Pieces(tail, '@')| && c in Pieces(tail, '@')[i];
    assert Pieces(e, '@')[i + 1] != "";
  }

  /** A well-formed address `local@domain` yields exactly its domain. */
  lemma EmailDomainOfWellFormed(local: string, domain: string)
    requires '@' !in local && '@' !in domain && domain != ""
    ensures EmailDomain(local + "@" + domain) == Success(domain)
  {
    SplitJoin([local, domain], '@');
    assert Join([local, domain], "@") == local + "@" + domain;
  }

  /** An address ending in "@" has no domain, although it holds an "@". */
  lemma EmailDomainOfTrailingAt(local: string)
    requires '@' !in local
    ensures EmailDomain(local + "@").Failure?
  {
    var e := local + "@";
    PiecesAround(local, '@', "");
    PiecesWithoutSeparator(local, '@');
    assert e == local + ['@'] + "";
    assert e[|local|] == '@';
  }

  /** With more than one "@", the domain is the text between the first "@" and the
      second one, even when it is empty, provided some piece after it is not (for
      example "a@@b" has the empty domain). */
  lemma EmailDomainOfSeveralAts(local: string, mid: string, rest: string)
    requires '@' !in local && '@' !in mid
    requires mid != "" || exists c :: c in rest && c != '@'
    ensures EmailDomain(local + "@" + mid + "@" + rest) == Success(mid)
  {
    var e := local + "@" + mid + "@" + rest;
    SeveralAtsPieces(local, mid, rest);
    assert e[|local|] == '@';
    var ps, r := Pieces(e, '@'), Split(e, '@');
    if mid == "" {
      var c :| c in rest && c != '@';
      assert e == local + ['@'] + (mid + "@" + rest);
      TailTextGivesDomain(local, mid + "@" + rest, c);
    } else {
      assert ps[1] != "";
    }
    assert |r| >= 2 && r[1] == ps[1] == mid;
  }

  /** The pieces of `local@mid@rest`: the first two parts, then the pieces of `rest`. */
  lemma SeveralAtsPieces(local: string, mid: string, rest: string)
    requires '@' !in local && '@' !in mid
    ensures Pieces(local + "@" + mid + "@" + rest, '@') == [local, mid] + Pieces(rest, '@')
  {
    assert local + "@" + mid + "@" + rest == local + ['@'] + (mid + ['@'] + rest);
    SplitAtFirstAt(local, mid + ['@'] + rest);
    SplitAtFirstAt(mid, rest);
  }

  /** Whether the email has a domain, that is, `split("@")[1]` does not throw. */
  predicate HasDomain(a: Account)
  {
    EmailDomain(a.email).Success?
  }

  /** The domain of an email that has one (the empty string otherwise, never used). */
  function DomainOf(a: Account): string
  {
    match EmailDomain(a.email)
    case Success(d) => d
    case Failure(_) => ""
  }
}
