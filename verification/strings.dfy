/** The parts of `java.lang.String` the queries rely on: `compareTo`, `split` with a
    one-character separator, `Collectors.joining` and an ASCII `toLowerCase`. */
module Strings {

  // ---------------------------------------------------------------------------
  // compareTo
  // ---------------------------------------------------------------------------

  /** `a` is an initial part of `b`. */
  predicate IsPrefix(a: string, b: string)
  {
    |a| <= |b| && a == b[..|a|]
  }

  /** `a` and `b` agree before position `k` and `a` has the smaller character at `k`. */
  predicate DiffersFirstAt(a: string, b: string, k: int)
  {
    0 <= k < |a| && k < |b| && a[..k] == b[..k] && a[k] < b[k]
  }

  /** `a.compareTo(b) <= 0`: `a` is a prefix of `b`, or `a` has the smaller
      character at the first position where the two differ. */
  predicate LexLe(a: string, b: string)
    ensures LexLe(a, b) <==> IsPrefix(a, b) || exists k :: DiffersFirstAt(a, b, k)
  {
    if |a| == 0 then true
    else if |b| == 0 then false
    else if a[0] < b[0] then
      assert DiffersFirstAt(a, b, 0);
      true
    else if a[0] == b[0] then
      var r := LexLe(a[1..], b[1..]);
      DropCommonHead(a, b);
      r
    else
      NoDifferenceBelow(a, b);
      false
  }

  /** Dropping an equal first character keeps both the prefix relation and the
      position of the first difference, shifted by one. */
  lemma DropCommonHead(a: string, b: string)
    requires |a| > 0 && |b| > 0 && a[0] == b[0]
    ensures IsPrefix(a, b) <==> IsPrefix(a[1..], b[1..])
    ensures (exists k :: DiffersFirstAt(a, b, k)) <==> exists k :: DiffersFirstAt(a[1..], b[1..], k)
  {
    if IsPrefix(a[1..], b[1..]) {
      assert a == [a[0]] + a[1..];
      assert b[..|a|] == [b[0]] + b[1..][..|a| - 1];
    }
    if exists k :: DiffersFirstAt(a, b, k) {
      var k :| DiffersFirstAt(a, b, k);
      assert a[..k][0] == b[..k][0] || k == 0;
      assert k > 0;
      assert a[1..][..k - 1] == a[..k][1..];
      assert b[1..][..k - 1] == b[..k][1..];
      assert DiffersFirstAt(a[1..], b[1..], k - 1);
    }
    if exists k :: DiffersFirstAt(a[1..], b[1..], k) {
      var k :| DiffersFirstAt(a[1..], b[1..], k);
      assert a[..k + 1] == [a[0]] + a[1..][..k];
      assert b[..k + 1] == [b[0]] + b[1..][..k];
      assert DiffersFirstAt(a, b, k + 1);
    }
  }

  /** A larger first character rules out both ways `a` may precede `b`. */
  lemma NoDifferenceBelow(a: string, b: string)
    requires |a| > 0 && |b| > 0 && a[0] > b[0]
    ensures !IsPrefix(a, b) && forall k :: !DiffersFirstAt(a, b, k)
  {
  }

  /** `a.compareTo(b) < 0`. */
  predicate LexLess(a: string, b: string)
  {
    !LexLe(b, a)
  }

  lemma {:induction false} LexLeReflexive(a: string)
    ensures LexLe(a, a)
  {
    if |a| > 0 {
      LexLeReflexive(a[1..]);
    }
  }

  /** Any two strings are comparable. */
  lemma {:induction false} LexLeTotal(a: string, b: string)
    ensures LexLe(a, b) || LexLe(b, a)
  {
    if |a| > 0 && |b| > 0 && a[0] == b[0] {
      LexLeTotal(a[1..], b[1..]);
    }
  }

  /** Strings that compare equal are equal (`compareTo` is zero only on equal strings). */
  lemma {:induction false} LexLeAntisymmetric(a: string, b: string)
    requires LexLe(a, b) && LexLe(b, a)
    ensures a == b
  {
    if |a| > 0 {
      LexLeAntisymmetric(a[1..], b[1..]);
      assert a == [a[0]] + a[1..];
      assert b == [b[0]] + b[1..];
    }
  }

  lemma {:induction false} LexLeTransitive(a: string, b: string, c: string)
    requires LexLe(a, b) && LexLe(b, c)
    ensures LexLe(a, c)
  {
    if |a| > 0 && a[0] == b[0] && b[0] == c[0] {
      LexLeTransitive(a[1..], b[1..], c[1..]);
    }
  }

  /** The strict comparison is the non-strict one between different strings. */
  lemma LexLessIff(a: string, b: string)
    ensures LexLess(a, b) <==> LexLe(a, b) && a != b
  {
    LexLeTotal(a, b);
    if LexLe(a, b) && LexLe(b, a) {
      LexLeAntisymmetric(a, b);
    }
    if a == b {
      LexLeReflexive(a);
    }
  }

  // ---------------------------------------------------------------------------
  // split
  // ---------------------------------------------------------------------------

  /** The pieces of `s` between occurrences of `sep`, empty pieces included: one
      more piece than there are separators. */
  function Pieces(s: string, sep: char): (r: seq<string>)
    ensures |r| >= 1
    ensures forall i :: 0 <= i < |r| ==> sep !in r[i]
  {
    if |s| == 0 then [""]
    else
      var rest := Pieces(s[1..], sep);
      if s[0] == sep then [""] + rest
      else
        assert forall i :: 1 <= i < |rest| ==> rest[1..][i - 1] == rest[i];
        [[s[0]] + rest[0]] + rest[1..]
  }

  /** Trailing empty pieces removed, as `split` does when its limit is zero. */
  function DropTrailingEmpty(ps: seq<string>): (r: seq<string>)
    ensures |r| <= |ps| && r == ps[..|r|]
    ensures |r| > 0 ==> r[|r| - 1] != ""
    ensures forall i :: |r| <= i < |ps| ==> ps[i] == ""
  {
    if |ps| > 0 && ps[|ps| - 1] == "" then DropTrailingEmpty(ps[..|ps| - 1]) else ps
  }

  /** `s.split(sep)` for a separator that is not a regular-expression metacharacter:
      without a separator the whole string is the only piece (even when it is empty);
      otherwise the pieces with the trailing empty ones dropped. */
  function Split(s: string, sep: char): (r: seq<string>)
    ensures forall i :: 0 <= i < |r| ==> sep !in r[i]
    ensures sep !in s ==> r == [s]
    ensures sep in s && |r| > 0 ==> r[|r| - 1] != ""
    ensures sep in s ==> |r| <= |Pieces(s, sep)| && r == Pieces(s, sep)[..|r|]
    ensures sep in s ==> forall i :: |r| <= i < |Pieces(s, sep)| ==> Pieces(s, sep)[i] == ""
  {
    if sep !in s then
      PiecesWithoutSeparator(s, sep);
      [s]
    else DropTrailingEmpty(Pieces(s, sep))
  }

  lemma {:induction false} PiecesWithoutSeparator(s: string, sep: char)
    requires sep !in s
    ensures Pieces(s, sep) == [s]
  {
    if |s| > 0 {
      PiecesWithoutSeparator(s[1..], sep);
      assert s == [s[0]] + s[1..];
    }
  }

  /** A character other than the separator lands in some piece. */
  lemma {:induction false} PiecesKeepOthers(s: string, sep: char, c: char)
    requires c in s && c != sep
    ensures exists i :: 0 <= i < |Pieces(s, sep)| && c in Pieces(s, sep)[i]
  {
    var rest := Pieces(s[1..], sep);
    if s[0] == c {
      assert c in Pieces(s, sep)[0];
    } else {
      assert c in s[1..] by {
        assert s == [s[0]] + s[1..];
      }
      PiecesKeepOthers(s[1..], sep, c);
      var i :| 0 <= i < |rest| && c in rest[i];
      if s[0] == sep {
        assert Pieces(s, sep)[i + 1] == rest[i];
      } else if i == 0 {
        assert c in Pieces(s, sep)[0];
      } else {
        assert Pieces(s, sep)[i] == rest[i];
      }
    }
  }

  /** A split into two or more parts has a non-empty piece after the first. */
  lemma LaterPieceNonEmpty(s: string, sep: char) returns (k: int)
    requires sep in s && |Split(s, sep)| >= 2
    ensures 1 <= k < |Pieces(s, sep)| && Pieces(s, sep)[k] != ""
  {
    k := |Split(s, sep)| - 1;
  }

  /** Every character of a piece comes from the string. */
  lemma {:induction false} PiecesFromString(s: string, sep: char, i: int, c: char)
    requires 0 <= i < |Pieces(s, sep)| && c in Pieces(s, sep)[i]
    ensures c in s
  {
    var rest := Pieces(s[1..], sep);
    if |s| > 0 {
      assert s == [s[0]] + s[1..];
      if s[0] == sep {
        if i > 0 {
          PiecesFromString(s[1..], sep, i - 1, c);
        }
      } else if i == 0 {
        if c != s[0] {
          PiecesFromString(s[1..], sep, 0, c);
        }
      } else {
        PiecesFromString(s[1..], sep, i, c);
      }
    }
  }

  /** Splitting at a separator splits each side independently. */
  lemma {:induction false} PiecesAround(u: string, sep: char, v: string)
    ensures Pieces(u + [sep] + v, sep) == Pieces(u, sep) + Pieces(v, sep)
  {
    if |u| == 0 {
      assert u + [sep] + v == [sep] + v;
      assert ([sep] + v)[1..] == v;
    } else {
      var u' := u[1..];
      assert (u + [sep] + v)[1..] == u' + [sep] + v;
      assert (u + [sep] + v)[0] == u[0];
      PiecesAround(u', sep, v);
    }
  }

  // ---------------------------------------------------------------------------
  // joining
  // ---------------------------------------------------------------------------

  /** The strings laid end to end with `sep` between neighbours, accumulated from the
      left as `StringJoiner` does (`Collectors.joining(sep)`); empty for no strings, and
      a single string with no separator at all. */
  function Join(xs: seq<string>, sep: string): (r: string)
    ensures |xs| == 0 ==> r == ""
    ensures |xs| == 1 ==> r == xs[0]
    ensures |xs| > 0 ==> |r| >= |xs[0]| && r[..|xs[0]|] == xs[0]
  {
    if |xs| == 0 then ""
    else if |xs| == 1 then xs[0]
    else Join(xs[..|xs| - 1], sep) + sep + xs[|xs| - 1]
  }

  /** Joining a concatenation joins the two halves around one separator. */
  lemma {:induction false} JoinAppend(xs: seq<string>, ys: seq<string>, sep: string)
    requires |xs| > 0 && |ys| > 0
    ensures Join(xs + ys, sep) == Join(xs, sep) + sep + Join(ys, sep)
    decreases |ys|
  {
    if |ys| == 1 {
      assert (xs + ys)[..|xs + ys| - 1] == xs;
    } else {
      var ys' := ys[..|ys| - 1];
      assert (xs + ys)[..|xs + ys| - 1] == xs + ys';
      JoinAppend(xs, ys', sep);
    }
  }

  /** Splitting and joining back at the same separator restores the string. */
  lemma {:induction false} JoinPieces(s: string, sep: char)
    ensures Join(Pieces(s, sep), [sep]) == s
  {
    if |s| > 0 {
      var rest := Pieces(s[1..], sep);
      JoinPieces(s[1..], sep);
      if s[0] == sep {
        JoinAppend([""], rest, [sep]);
      } else {
        JoinExtendHead(s[0], rest, [sep]);
      }
      assert s == [s[0]] + s[1..];
    }
  }

  /** Putting a character in front of the first string puts it in front of the
      joining. */
  lemma JoinExtendHead(c: char, xs: seq<string>, sep: string)
    requires |xs| > 0
    ensures Join([[c] + xs[0]] + xs[1..], sep) == [c] + Join(xs, sep)
  {
    if |xs| > 1 {
      var head := [c] + xs[0];
      JoinAppend([head], xs[1..], sep);
      assert xs == [xs[0]] + xs[1..];
      JoinAppend([xs[0]], xs[1..], sep);
    }
  }

  /** Joining pieces free of the separator and splitting back restores the pieces. */
  lemma {:induction false} PiecesJoin(xs: seq<string>, sep: char)
    requires |xs| > 0
    requires forall i :: 0 <= i < |xs| ==> sep !in xs[i]
    ensures Pieces(Join(xs, [sep]), sep) == xs
  {
    PiecesWithoutSeparator(xs[|xs| - 1], sep);
    if |xs| > 1 {
      var init := xs[..|xs| - 1];
      PiecesJoin(init, sep);
      PiecesAround(Join(init, [sep]), sep, xs[|xs| - 1]);
    }
  }

  /** `split` undoes `String.join` when no piece holds the separator and, for two or
      more pieces, the last one is not empty. */
  lemma SplitJoin(xs: seq<string>, sep: char)
    requires |xs| > 0
    requires forall i :: 0 <= i < |xs| ==> sep !in xs[i]
    requires |xs| > 1 ==> xs[|xs| - 1] != ""
    ensures Split(Join(xs, [sep]), sep) == xs
  {
    PiecesJoin(xs, sep);
    if |xs| > 1 {
      var j := Join(xs, [sep]);
      var init := Join(xs[..|xs| - 1], [sep]);
      assert j[|init|] == sep;
    }
  }

  // ---------------------------------------------------------------------------
  // toLowerCase
  // ---------------------------------------------------------------------------

  predicate IsUpperAscii(c: char)
  {
    'A' <= c <= 'Z'
  }

  predicate IsLowerAscii(c: char)
  {
    'a' <= c <= 'z'
  }

  /** The upper-case partner of an ASCII lower-case letter. */
  function UpperOf(c: char): (r: char)
    requires IsLowerAscii(c)
    ensures IsUpperAscii(r)
  {
    (c as int - 32) as char
  }

  /** `Character.toLowerCase` restricted to ASCII: upper-case letters move to their
      lower-case partners, every other character stays. */
  function ToLowerAscii(c: char): (r: char)
    ensures !IsUpperAscii(r)
    ensures !IsUpperAscii(c) ==> r == c
    ensures IsUpperAscii(c) ==> IsLowerAscii(r) && UpperOf(r) == c
  {
    if IsUpperAscii(c) then (c as int + 32) as char else c
  }

  /** A character is the lower-case form of exactly itself and, for a letter, its
      upper-case partner. */
  lemma ToLowerAsciiPreimage(x: char, c: char)
    ensures ToLowerAscii(x) == c <==>
      (!IsUpperAscii(c) && x == c) || (IsLowerAscii(c) && x == UpperOf(c))
  {
  }

  /** `String.toLowerCase` restricted to ASCII. */
  function LowerAscii(s: string): (r: string)
    ensures |r| == |s|
    ensures forall i :: 0 <= i < |s| ==> r[i] == ToLowerAscii(s[i])
  {
    if |s| == 0 then "" else LowerAscii(s[..|s| - 1]) + [ToLowerAscii(s[|s| - 1])]
  }

  /** Lower-casing distributes over concatenation. */
  lemma LowerAsciiAppend(a: string, b: string)
    ensures LowerAscii(a + b) == LowerAscii(a) + LowerAscii(b)
  {
  }

  /** How often `c` occurs in `s` with case ignored: an upper-case letter never, a
      lower-case letter in either case, any other character as itself. */
  function IgnoreCaseCount(s: string, c: char): nat
  {
    if IsUpperAscii(c) then 0
    else if IsLowerAscii(c) then multiset(s)[c] + multiset(s)[UpperOf(c)]
    else multiset(s)[c]
  }

  /** Counting a character after lower-casing counts it with case ignored before. */
  lemma {:induction false} LowerAsciiCount(s: string, c: char)
    ensures multiset(LowerAscii(s))[c] == IgnoreCaseCount(s, c)
  {
    if |s| > 0 {
      var init := s[..|s| - 1];
      var x := s[|s| - 1];
      LowerAsciiCount(init, c);
      CountSnoc(LowerAscii(init), ToLowerAscii(x), c);
      IgnoreCaseCountLast(s, c);
    }
  }

  lemma CountSnoc(a: string, x: char, c: char)
    ensures multiset(a + [x])[c] == multiset(a)[c] + if x == c then 1 else 0
  {
  }

  /** One more character adds one to the case-ignoring count of its lower-case form. */
  lemma IgnoreCaseCountSnoc(a: string, x: char, c: char)
    ensures IgnoreCaseCount(a + [x], c) == IgnoreCaseCount(a, c) + if ToLowerAscii(x) == c then 1 else 0
  {
    CountSnoc(a, x, c);
    if IsLowerAscii(c) {
      CountSnoc(a, x, UpperOf(c));
    }
    ToLowerAsciiPreimage(x, c);
  }

  lemma IgnoreCaseCountLast(s: string, c: char)
    requires |s| > 0
    ensures IgnoreCaseCount(s, c) ==
            IgnoreCaseCount(s[..|s| - 1], c) + if ToLowerAscii(s[|s| - 1]) == c then 1 else 0
  {
    assert s == s[..|s| - 1] + [s[|s| - 1]];
    IgnoreCaseCountSnoc(s[..|s| - 1], s[|s| - 1], c);
  }
}
