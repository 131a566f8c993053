/** The line a drag walks, in whole pixels. */
module Drags {
  import opened Bytes

  /** Rust's `/` on signed integers. */
  function TruncDiv(a: int, b: int): int
    requires b > 0
  {
    if a >= 0 then a / b else -((-a) / b)
  }

  function Signum(a: int): int {
    if a > 0 then 1 else if a < 0 then -1 else 0
  }

  /** One coordinate of a held point, as an unbounded integer: `i` of `n` steps along, rounded half away from
      the start. */
  function AlongWide(from: int, to: int, i: int, n: int): int
    requires n > 0
  {
    var offset := (to - from) * i;
    from + TruncDiv(2 * offset + Signum(offset) * n, 2 * n)
  }

  function Along(from: u16, to: u16, i: int, n: int): u16
    requires n > 0
  {
    AlongWide(from, to, i, n) % 0x1_0000
  }

  /** `b / n` to the nearest whole number, halves up. */
  function Nearest(b: nat, n: int): int
    requires n > 0
  {
    (2 * b + n) / (2 * n)
  }

  lemma NearestIs(b: nat, n: int)
    requires n > 0
    ensures Nearest(b, n) >= 0 && -n <= 2 * (Nearest(b, n) * n - b) <= n
  {
    DivMod(2 * b + n, 2 * n);
    var q := Nearest(b, n);
    assert q * (2 * n) == 2 * (q * n);
    if q < 0 { MulMono(q, -1, 2 * n); }
  }

  lemma NearestGrows(a: nat, b: nat, n: int)
    requires n > 0 && a <= b
    ensures Nearest(a, n) <= Nearest(b, n)
  {
    DivMod(2 * a + n, 2 * n);
    DivMod(2 * b + n, 2 * n);
    if Nearest(a, n) > Nearest(b, n) { MulMono(Nearest(b, n) + 1, Nearest(a, n), 2 * n); }
  }

  lemma NearestOfWhole(d: nat, n: int)
    requires n > 0
    ensures 0 <= d * n && Nearest(d * n, n) == d
  {
    MulMono(0, d, n);
    assert 2 * (d * n) + n == d * (2 * n) + n;
    DivModUnique(2 * (d * n) + n, 2 * n, d, n);
  }

  /** How far point `i` is from the start, in the direction of the end. */
  lemma AlongIsNearest(from: u16, to: u16, i: nat, n: int)
    requires n > 0
    ensures to >= from ==> 0 <= (to - from) * i && AlongWide(from, to, i, n) == from + Nearest((to - from) * i, n)
    ensures to < from ==> 0 <= (from - to) * i && AlongWide(from, to, i, n) == from - Nearest((from - to) * i, n)
  {
    hide TruncDiv;
    var d := if to >= from then to - from else from - to;
    MulMono(0, d, i);
    var offset := (to - from) * i;
    assert to < from ==> offset == -(d * i);
    if offset == 0 {
      TruncOfHalf(n);
      NearestOfWhole(0, n);
    } else if offset > 0 {
      TruncUp(2 * offset + n, 2 * n);
    } else {
      TruncDown(2 * offset - n, 2 * n);
      assert -(2 * offset - n) == 2 * (d * i) + n;
    }
  }

  lemma TruncOfHalf(n: int)
    requires n > 0
    ensures TruncDiv(0, 2 * n) == 0
  {
    DivModUnique(0, 2 * n, 0, 0);
  }

  lemma TruncUp(a: int, b: int)
    requires a >= 0 && b > 0
    ensures TruncDiv(a, b) == a / b
  {
  }

  lemma TruncDown(a: int, b: int)
    requires a < 0 && b > 0
    ensures TruncDiv(a, b) == -((-a) / b)
  {
  }

  /** Every held point of a drag is between the two ends, so the cast to 16 bits changes nothing; it is
      within half a pixel of the exact line; and the last point is the end itself. */
  lemma PointOnTheLine(from: u16, to: u16, i: nat, n: int)
    requires 0 < i <= n
    ensures Along(from, to, i, n) == AlongWide(from, to, i, n)
    ensures Min(from, to) <= Along(from, to, i, n) <= Max(from, to)
    ensures -n <= 2 * ((Along(from, to, i, n) - from) * n - (to - from) * i) <= n
    ensures i == n ==> Along(from, to, i, n) == to
  {
    hide AlongWide, Nearest;
    AlongIsNearest(from, to, i, n);
    var d := if to >= from then to - from else from - to;
    MulMono(0, d, i);
    MulMono(i, n, d);
    NearestIs(d * i, n);
    NearestGrows(d * i, d * n, n);
    NearestOfWhole(d, n);
    var q := Nearest(d * i, n);
    DivModUnique(AlongWide(from, to, i, n), 0x1_0000, 0, AlongWide(from, to, i, n));
    if to < from {
      assert (Along(from, to, i, n) - from) * n == -(q * n);
      assert (to - from) * i == -(d * i);
    }
  }

  /** The walk never turns back. */
  lemma WalkIsMonotone(from: u16, to: u16, i: nat, j: nat, n: int)
    requires 0 < i <= j <= n
    ensures from <= to ==> Along(from, to, i, n) <= Along(from, to, j, n)
    ensures from >= to ==> Along(from, to, i, n) >= Along(from, to, j, n)
  {
    hide AlongWide, Nearest;
    PointOnTheLine(from, to, i, n);
    PointOnTheLine(from, to, j, n);
    AlongIsNearest(from, to, i, n);
    AlongIsNearest(from, to, j, n);
    var d := if to >= from then to - from else from - to;
    MulMono(0, d, i);
    MulMono(i, j, d);
    NearestGrows(d * i, d * j, n);
    if from == to { NearestOfWhole(0, n); }
  }
}
