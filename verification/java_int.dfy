/** Java's 32-bit `int`: results of `+` wrap around modulo 2^32 into
    [-2^31, 2^31). */
module JavaInt {

  const TWO_TO_THE_32: int := 0x1_0000_0000
  const INT_MIN: int := -0x8000_0000
  const INT_MAX: int := 0x7FFF_FFFF

  predicate InRange(x: int)
  {
    INT_MIN <= x <= INT_MAX
  }

  /** The `int` that Java stores for the mathematical value `x`: the one value in
      range that differs from `x` by a multiple of 2^32. */
  function Wrap(x: int): (r: int)
    ensures InRange(r)
    ensures (x - r) % TWO_TO_THE_32 == 0
    ensures InRange(x) ==> r == x
  {
    (x - INT_MIN) % TWO_TO_THE_32 + INT_MIN
  }

  /** Java's `a + b` on two `int`s. */
  function Add(a: int, b: int): (r: int)
    requires InRange(a) && InRange(b)
    ensures InRange(r)
    ensures (a + b - r) % TWO_TO_THE_32 == 0
    ensures InRange(a + b) ==> r == a + b
  {
    Wrap(a + b)
  }

  /** Two in-range values congruent modulo 2^32 are equal. */
  lemma {:induction false} WrapUnique(x: int, r: int)
    requires InRange(r) && (x - r) % TWO_TO_THE_32 == 0
    ensures Wrap(x) == r
  {
    var w := Wrap(x);
    assert (w - r) % TWO_TO_THE_32 == 0 by {
      var q1 := (x - r) / TWO_TO_THE_32;
      var q2 := (x - w) / TWO_TO_THE_32;
      assert w - r == (q1 - q2) * TWO_TO_THE_32;
    }
  }

  /** Wrapping an intermediate sum does not change the wrapped total: adding in
      `int` step by step ends where wrapping the exact sum once does. */
  lemma WrapAdd(x: int, y: int)
    ensures Wrap(Wrap(x) + y) == Wrap(x + y)
  {
    var w := Wrap(x);
    var r := Wrap(x + y);
    assert (w + y - r) % TWO_TO_THE_32 == 0 by {
      var q1 := (x - w) / TWO_TO_THE_32;
      var q2 := (x + y - r) / TWO_TO_THE_32;
      assert w + y - r == (q2 - q1) * TWO_TO_THE_32;
    }
    WrapUnique(w + y, r);
  }
}
