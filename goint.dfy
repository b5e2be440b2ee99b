/** Go's integer remainder operator, which truncates toward zero, stated
    against Dafny's Euclidean `%`. */
module GoInt {

  function Abs(x: int): nat {
    if x < 0 then -x else x
  }

  /** Go's `a % b`: the remainder of the quotient truncated toward zero, so it
      carries the sign of `a`. Go panics when `b` is zero, hence the requires. */
  function GoRem(a: int, b: int): (r: int)
    requires b != 0
    ensures Abs(r) < Abs(b)
    ensures a >= 0 ==> r >= 0
    ensures a <= 0 ==> r <= 0
    ensures (a - r) % b == 0
  {
    if a >= 0 then
      NonNegativeRemainder(a, b);
      a % Abs(b)
    else
      NegativeRemainder(a, b);
      -((-a) % Abs(b))
  }

  /** For a non-negative dividend, what remains after taking away the
      remainder by `|b|` is a multiple of `b`. */
  lemma NonNegativeRemainder(a: int, b: int)
    requires a >= 0 && b != 0
    ensures (a - a % Abs(b)) % b == 0
  {
    var m := Abs(b);
    MultipleMod(a - a % m, b, if b < 0 then -(a / m) else a / m);
  }

  /** For a negative dividend, adding back the remainder of `-a` by `|b|`
      leaves a multiple of `b`. */
  lemma NegativeRemainder(a: int, b: int)
    requires a < 0 && b != 0
    ensures (a + (-a) % Abs(b)) % b == 0
  {
    var m := Abs(b);
    MultipleMod(a + (-a) % m, b, if b < 0 then (-a) / m else -((-a) / m));
  }

  lemma MulAtLeast(d: int, m: int)
    requires d >= 1 && m >= 1
    ensures d * m >= m
  {
    assert (d - 1) * m >= 0;
  }

  /** Euclidean division leaves a unique remainder. */
  lemma ModUnique(x: int, m: int, q: int, r: int)
    requires m != 0 && 0 <= r < Abs(m) && x == q * m + r
    ensures x % m == r
  {
    var q', r' := x / m, x % m;
    var d := q - q';
    assert d * m == r' - r;
    if d != 0 {
      MulAtLeast(Abs(d), Abs(m));
      assert false;
    }
  }

  lemma MultipleMod(x: int, m: int, q: int)
    requires m != 0 && x == q * m
    ensures x % m == 0
  {
    ModUnique(x, m, q, 0);
  }

  lemma ModZeroSymmetric(x: int, m: int)
    requires m != 0
    ensures x % m == 0 <==> x % Abs(m) == 0
    ensures x % m == 0 <==> (-x) % m == 0
  {
    if x % m == 0 {
      MultipleMod(x, Abs(m), if m < 0 then -(x / m) else x / m);
      MultipleMod(-x, m, -(x / m));
    }
    if x % Abs(m) == 0 {
      MultipleMod(x, m, if m < 0 then -(x / Abs(m)) else x / Abs(m));
    }
    if (-x) % m == 0 {
      MultipleMod(x, m, -((-x) / m));
    }
  }

  /** The test `num % d == 0` means "d divides num" under Go's truncating
      remainder exactly as under Dafny's Euclidean one. */
  lemma GoRemZeroIffDivides(a: int, b: int)
    requires b != 0
    ensures GoRem(a, b) == 0 <==> a % b == 0
  {
    ModZeroSymmetric(a, b);
    ModZeroSymmetric(-a, Abs(b));
    ModZeroSymmetric(a, Abs(b));
  }
}
