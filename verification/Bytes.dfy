/** Machine integers, bit operations and big/little-endian fields, on mathematical integers. */
module Bytes {

  type byte = x: int | 0 <= x < 0x100
  type u16 = x: int | 0 <= x < 0x1_0000
  type u32 = x: int | 0 <= x < 0x1_0000_0000

  datatype Option<+T> = None | Some(value: T)

  // ---------------------------------------------------------------- bits

  function Pow2(k: nat): (p: nat)
    ensures p > 0
  {
    if k == 0 then 1 else 2 * Pow2(k - 1)
  }

  /** Bitwise and of two naturals, least significant bit first. */
  function BitAnd(a: nat, b: nat): (r: nat)
    ensures r <= a && r <= b
    decreases a
  {
    if a == 0 || b == 0 then 0
    else (if a % 2 == 1 && b % 2 == 1 then 1 else 0) + 2 * BitAnd(a / 2, b / 2)
  }

  /** Bitwise or of two naturals. */
  function BitOr(a: nat, b: nat): (r: nat)
    ensures r >= a && r >= b && r <= a + b
    decreases a + b
  {
    if a == 0 then b
    else if b == 0 then a
    else (if a % 2 == 1 || b % 2 == 1 then 1 else 0) + 2 * BitOr(a / 2, b / 2)
  }

  /** Rust's `u32 << s` for `s < 32`: bits pushed past bit 31 are lost. */
  function Shl(x: u32, s: nat): u32 {
    (x * Pow2(s)) % 0x1_0000_0000
  }

  /** `x >> s`. */
  function Shr(x: nat, s: nat): (r: nat)
    ensures r <= x
    decreases s
  {
    if s == 0 then x else Shr(x / 2, s - 1)
  }

  lemma {:induction false} ShrIsDiv(x: nat, s: nat)
    ensures Shr(x, s) == x / Pow2(s)
    decreases s
  {
    if s > 0 {
      ShrIsDiv(x / 2, s - 1);
      DivDiv(x, 2, Pow2(s - 1));
    }
  }

  lemma ShrBound(x: nat, p: nat)
    requires p > 0
    ensures 0 <= x / p <= x
  {
    DivMod(x, p);
    if x / p > x {
      MulMono(x + 1, x / p, p);
      MulMono(1, p, x + 1);
    }
  }

  lemma DivMod(x: int, p: int)
    requires p > 0
    ensures x == (x / p) * p + x % p && 0 <= x % p < p
  {
  }

  lemma MulMono(a: int, b: int, c: int)
    requires a <= b && 0 <= c
    ensures a * c <= b * c && c * a <= c * b
  {
  }

  /** The quotient and remainder are the only ones. */
  lemma DivModUnique(x: int, p: int, q: int, r: int)
    requires p > 0 && x == q * p + r && 0 <= r < p
    ensures x / p == q && x % p == r
  {
    DivMod(x, p);
    var d := x / p - q;
    assert d * p == r - x % p;
    if d > 0 { MulMono(1, d, p); } else if d < 0 { MulMono(d, -1, p); }
  }

  lemma {:induction false} Pow2Add(a: nat, b: nat)
    ensures Pow2(a + b) == Pow2(a) * Pow2(b)
  {
    if a > 0 {
      Pow2Add(a - 1, b);
      assert Pow2(a + b) == 2 * Pow2(a - 1 + b);
      assert Pow2(a) * Pow2(b) == 2 * (Pow2(a - 1) * Pow2(b));
    }
  }

  lemma Pow2Mono(a: nat, b: nat)
    requires a <= b
    ensures Pow2(a) <= Pow2(b)
    decreases b - a
  {
    if a < b { Pow2Mono(a, b - 1); }
  }

  lemma Pow2Table()
    ensures Pow2(0) == 1 && Pow2(1) == 2 && Pow2(2) == 4 && Pow2(3) == 8
    ensures Pow2(4) == 16 && Pow2(5) == 32 && Pow2(6) == 64 && Pow2(7) == 128
    ensures Pow2(8) == 0x100 && Pow2(16) == 0x1_0000 && Pow2(24) == 0x100_0000
    ensures Pow2(32) == 0x1_0000_0000
  {
    Pow2Low();
    hide Pow2;
    Pow2Add(4, 4);
    Pow2Add(8, 8);
    Pow2Add(16, 8);
    Pow2Add(16, 16);
  }

  lemma Pow2Low()
    ensures Pow2(0) == 1 && Pow2(1) == 2 && Pow2(2) == 4 && Pow2(3) == 8
    ensures Pow2(4) == 16 && Pow2(5) == 32 && Pow2(6) == 64 && Pow2(7) == 128
  {
  }

  /** Masking with `2^k - 1` keeps the low `k` bits. */
  lemma {:induction false} AndLowMask(a: nat, k: nat)
    ensures BitAnd(a, Pow2(k) - 1) == a % Pow2(k)
    decreases k
  {
    if k > 0 {
      var p := Pow2(k - 1);
      assert Pow2(k) == 2 * p;
      AndLowMask(a / 2, k - 1);
      hide Pow2, BitAnd;
      AndLowStep(a, p, Pow2(k));
    }
  }

  lemma AndLowStep(a: nat, p: nat, q: nat)
    requires p > 0 && q == 2 * p && BitAnd(a / 2, p - 1) == (a / 2) % p
    ensures BitAnd(a, q - 1) == a % q
  {
    ModHalf(a, p);
    AndStep(a, p);
  }

  lemma AndStep(a: nat, p: nat)
    requires p > 0
    ensures BitAnd(a, 2 * p - 1) == a % 2 + 2 * BitAnd(a / 2, p - 1)
  {
    assert (2 * p - 1) / 2 == p - 1 && (2 * p - 1) % 2 == 1;
  }

  /** Or of a multiple of `2^k` with something below `2^k` is their sum. */
  lemma {:induction false} OrDisjoint(a: nat, k: nat, b: nat)
    requires b < Pow2(k)
    ensures BitOr(a * Pow2(k), b) == a * Pow2(k) + b
    decreases k
  {
    if k > 0 && a > 0 && b > 0 {
      var p := Pow2(k - 1);
      assert a * Pow2(k) == 2 * (a * p);
      OrDisjoint(a, k - 1, b / 2);
    }
  }

  /** Or stays below a power of two that bounds both sides. */
  lemma {:induction false} OrBound(a: nat, b: nat, k: nat)
    requires a < Pow2(k) && b < Pow2(k)
    ensures BitOr(a, b) < Pow2(k)
    decreases k
  {
    if k > 0 && a > 0 && b > 0 {
      OrBound(a / 2, b / 2, k - 1);
    }
  }

  /** Or commutes with dropping low bits. */
  lemma {:induction false} OrShr(a: nat, b: nat, k: nat)
    ensures Shr(BitOr(a, b), k) == BitOr(Shr(a, k), Shr(b, k))
    decreases k
  {
    if k > 0 {
      OrShr(a / 2, b / 2, k - 1);
      OrHalf(a, b);
    }
  }

  lemma OrHalf(a: nat, b: nat)
    ensures BitOr(a, b) / 2 == BitOr(a / 2, b / 2)
    ensures BitOr(a, b) % 2 == (if a % 2 == 1 || b % 2 == 1 then 1 else 0)
  {
  }

  /** Or commutes with keeping low bits. */
  lemma {:induction false} OrMod(a: nat, b: nat, k: nat)
    ensures BitOr(a, b) % Pow2(k) == BitOr(a % Pow2(k), b % Pow2(k))
    decreases k
  {
    if k > 0 {
      var p := Pow2(k - 1);
      OrMod(a / 2, b / 2, k - 1);
      hide BitOr;
      ModParts(a, p);
      ModParts(b, p);
      ModHalf(BitOr(a, b), p);
      OrHalf(a, b);
      OrHalf(a % (2 * p), b % (2 * p));
    } else {
      assert BitOr(0, 0) == 0;
    }
  }

  lemma ModHalf(a: nat, p: nat)
    requires p > 0
    ensures a % (2 * p) == 2 * ((a / 2) % p) + a % 2
  {
    DivMod(a / 2, p);
    var q, r := (a / 2) / p, (a / 2) % p;
    assert q * (2 * p) == 2 * (q * p);
    DivModUnique(a, 2 * p, q, 2 * r + a % 2);
  }

  lemma ModParts(a: nat, p: nat)
    requires p > 0
    ensures 0 <= a % (2 * p) && a % (2 * p) / 2 == (a / 2) % p && a % (2 * p) % 2 == a % 2
  {
    ModHalf(a, p);
    DivMod(a / 2, p);
  }

  lemma DivDiv(a: nat, m: nat, n: nat)
    requires m > 0 && n > 0
    ensures m * n > 0 && a / (m * n) == a / m / n
  {
    MulMono(1, m, n);
    DivMod(a, m);
    DivMod(a / m, n);
    var q := a / m / n;
    var r := (a / m % n) * m + a % m;
    MulMono(a / m % n, n - 1, m);
    assert a == q * (m * n) + r by {
      assert a / m == q * n + a / m % n;
      assert (a / m) * m == q * (m * n) + (a / m % n) * m;
    }
    assert (n - 1) * m + m == m * n;
    DivModUnique(a, m * n, q, r);
  }

  // ---------------------------------------------------------------- byte order

  function Pow256(n: nat): (p: nat)
    ensures p > 0
  {
    if n == 0 then 1 else 256 * Pow256(n - 1)
  }

  lemma Pow256Table()
    ensures Pow256(0) == 1 && Pow256(1) == 0x100 && Pow256(2) == 0x1_0000
    ensures Pow256(3) == 0x100_0000 && Pow256(4) == 0x1_0000_0000
  {
  }

  /** The low `n` bytes of `v`, most significant first. */
  function Be(v: nat, n: nat): (b: seq<byte>)
    ensures |b| == n
    decreases n
  {
    if n == 0 then [] else Be(v / 256, n - 1) + [v % 256]
  }

  /** The low `n` bytes of `v`, least significant first. */
  function Le(v: nat, n: nat): (b: seq<byte>)
    ensures |b| == n
    decreases n
  {
    if n == 0 then [] else [v % 256] + Le(v / 256, n - 1)
  }

  function FromBe(b: seq<byte>): nat {
    if |b| == 0 then 0 else FromBe(b[..|b| - 1]) * 256 + b[|b| - 1]
  }

  function FromLe(b: seq<byte>): nat {
    if |b| == 0 then 0 else b[0] + 256 * FromLe(b[1..])
  }

  lemma {:induction false} FromBeBe(v: nat, n: nat)
    ensures FromBe(Be(v, n)) == v % Pow256(n)
    decreases n
  {
    if n > 0 {
      FromBeBe(v / 256, n - 1);
      assert Be(v, n)[..n - 1] == Be(v / 256, n - 1);
      ModBase(v, Pow256(n - 1));
    }
  }

  lemma {:induction false} FromLeLe(v: nat, n: nat)
    ensures FromLe(Le(v, n)) == v % Pow256(n)
    decreases n
  {
    if n > 0 {
      FromLeLe(v / 256, n - 1);
      assert Le(v, n)[1..] == Le(v / 256, n - 1);
      ModBase(v, Pow256(n - 1));
    }
  }

  lemma ModBase(v: nat, p: nat)
    requires p > 0
    ensures v % (256 * p) == (v / 256 % p) * 256 + v % 256
  {
    DivMod(v / 256, p);
    var q, r := v / 256 / p, v / 256 % p;
    assert q * (256 * p) == 256 * (q * p);
    DivModUnique(v, 256 * p, q, 256 * r + v % 256);
  }

  lemma {:induction false} FromBeBound(b: seq<byte>)
    ensures FromBe(b) < Pow256(|b|)
    decreases |b|
  {
    if |b| > 0 { FromBeBound(b[..|b| - 1]); }
  }

  lemma {:induction false} FromLeBound(b: seq<byte>)
    ensures FromLe(b) < Pow256(|b|)
    decreases |b|
  {
    if |b| > 0 { FromLeBound(b[1..]); }
  }

  /** Concatenation regroups. */
  lemma Regroup<T>(a: seq<T>, b: seq<T>, c: seq<T>)
    ensures (a + b) + c == a + (b + c)
  {
  }

  /** Byte strings one after another. */
  function Concat(parts: seq<seq<byte>>): seq<byte> {
    if |parts| == 0 then [] else parts[0] + Concat(parts[1..])
  }

  function Min(a: int, b: int): int { if a < b then a else b }
  function Max(a: int, b: int): int { if a < b then b else a }
}
