/** Draws of Math.random() and the integer values the generator derives from them.
    A draw is the exact rational num/den in [0, 1); every floor/ceil of the source
    is computed exactly on that rational. */
module Chance {

  datatype Fraction = Fraction(num: nat, den: nat)

  /** A random number in [0, 1). */
  type Unit = f: Fraction | f.num < f.den witness Fraction(0, 1)

  /** floor(n * r): the index expression `Math.floor(n * Math.random())`. */
  function Index(r: Unit, n: nat): (k: nat)
    ensures n > 0 ==> k < n
  {
    IndexBound(r, n);
    (n * r.num) / r.den
  }

  /** floor(r * size / 2 + size / 2): one side of a new room. */
  function RoomSide(r: Unit, size: nat): (s: nat)
    ensures size / 2 <= s
    ensures size > 0 ==> s < size
  {
    RoomSideBounds(r, size);
    (size * (r.num + r.den)) / (2 * r.den)
  }

  /** ceil(r * side / 4 - side / 4): the offset of an object from a room centre
      along an axis whose room side is `side`. It is never positive. */
  function Jitter(r: Unit, side: nat): (j: int)
    ensures -(side / 4) <= j <= 0
  {
    var m: nat := r.den - r.num;
    JitterBound(side, m, r.den);
    -((side * m) / (4 * r.den))
  }

  lemma IndexBound(r: Unit, n: nat)
    ensures n > 0 ==> (n * r.num) / r.den < n
  {
    if n > 0 {
      MulStrict(n, r.num, r.den);
      DivBelow(n * r.num, r.den, n);
    }
  }

  lemma RoomSideBounds(r: Unit, size: nat)
    ensures size / 2 <= (size * (r.num + r.den)) / (2 * r.den)
    ensures size > 0 ==> (size * (r.num + r.den)) / (2 * r.den) < size
  {
    var a := size * (r.num + r.den);
    var b := 2 * r.den;
    MulMono(size, r.den, r.num + r.den);
    assert (size / 2) * b <= a by {
      assert (size / 2) * b == (2 * (size / 2)) * r.den;
      MulMono(r.den, 2 * (size / 2), size);
    }
    DivAtLeast(a, b, size / 2);
    if size > 0 {
      MulStrict(size, r.num, r.den);
      assert a < size * b;
      DivBelow(a, b, size);
    }
  }

  lemma JitterBound(side: nat, m: nat, den: nat)
    requires 0 < den && m <= den
    ensures 0 <= (side * m) / (4 * den) <= side / 4
  {
    var b := 4 * den;
    var q := (side * m) / b;
    DivNonneg(side * m, b);
    QuotientBound(side, m, den, b, q);
    QuarterBound(side, q);
  }

  lemma QuotientBound(side: int, m: int, den: int, b: int, q: int)
    requires 0 <= side && 0 <= m <= den && 0 < den && b == 4 * den && q == (side * m) / b
    ensures 4 * q <= side
  {
    DivFloor(side * m, b);
    MulMono(side, m, den);
    assert (4 * q) * den == q * b;
    MulCancel(4 * q, side, den);
  }

  lemma QuarterBound(side: int, q: int)
    requires 4 * q <= side
    ensures q <= side / 4
  {
  }

  lemma DivNonneg(a: int, b: int)
    requires 0 <= a && 0 < b
    ensures 0 <= a / b
  {
    assert a == (a / b) * b + a % b;
  }

  lemma DivFloor(a: int, b: int)
    requires 0 < b
    ensures (a / b) * b <= a
  {
    assert a == (a / b) * b + a % b;
  }

  lemma MulMono(a: int, b: int, c: int)
    requires 0 <= a && b <= c
    ensures a * b <= a * c
  {
  }

  lemma MulStrict(a: int, b: int, c: int)
    requires b < c
    ensures a > 0 ==> a * b < a * c
  {
  }

  lemma MulCancel(a: int, b: int, d: int)
    requires d > 0 && a * d <= b * d
    ensures a <= b
  {
    if a > b {
      MulStrict(d, b, a);
      assert false;
    }
  }

  lemma DivBelow(a: int, b: int, c: int)
    requires b > 0 && a < c * b
    ensures a / b < c
  {
    var q := a / b;
    DivFloor(a, b);
    if q >= c {
      MulMono(b, c, q);
      assert false;
    }
  }

  lemma DivAtLeast(a: int, b: int, q: int)
    requires b > 0 && q * b <= a
    ensures q <= a / b
  {
    var d := a / b;
    assert a == d * b + a % b;
    if q > d {
      MulMono(b, d + 1, q);
      assert false;
    }
  }
}
