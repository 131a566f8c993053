/** What the pixel arithmetic keeps: per channel, per pixel, and through 3-byte CPIXELs. */
module PixelLaws {
  import opened Bytes
  import opened PixelFormats

  /** `max` is `2^bits - 1` for some field width of 1 to 16 bits. */
  predicate FieldMax(max: u16, bits: nat) {
    1 <= bits <= 16 && max == Pow2(bits) - 1
  }

  // ---------------------------------------------------------------- one channel

  /** A value within the field is not touched by the mask. */
  lemma MaskKeeps(v: nat, max: u16, bits: nat)
    requires FieldMax(max, bits)
    ensures BitAnd(v, max) == v % Pow2(bits)
    ensures v <= max ==> BitAnd(v, max) == v
  {
    AndLowMask(v, bits);
    if v <= max { DivModUnique(v, Pow2(bits), 0, v); }
  }

  /** A byte as a field value: the nearest one, and never past the maximum. */
  lemma UnscaleIsNearest(v: byte, max: u16, bits: nat)
    requires FieldMax(max, bits)
    ensures -127 <= Unscale(v, max) * 255 - v * max <= 127
  {
    hide BitAnd;
    if max != 255 {
      MulMono(0, v, max);
      MulMono(v, 255, max);
      Rounded(v * max, max);
      MaskKeeps((v * max + 127) / 255, max, bits);
    }
  }

  /** `p / 255` to the nearest whole number, for a product of a byte and `max`. */
  lemma Rounded(p: nat, max: nat)
    requires p <= 255 * max
    ensures 0 <= (p + 127) / 255 <= max && -127 <= (p + 127) / 255 * 255 - p <= 127
  {
  }

  /** A field value as a byte: the nearest one. */
  lemma ScaleIsNearest(u: nat, max: u16, bits: nat)
    requires FieldMax(max, bits) && u <= max
    ensures -(max / 2) <= Scale(u, max) * max - u * 255 <= max / 2
  {
    MaskKeeps(u, max, bits);
    DivMod(u * 255 + max / 2, max);
  }

  /** Whatever the maximum, a pixel's masked bits become the nearest byte; a channel without any is black. */
  lemma ScaleIsNearestByte(raw: nat, max: u16)
    ensures max == 0 ==> Scale(raw, max) == 0
    ensures max > 0 ==> -(max / 2) <= Scale(raw, max) * max - BitAnd(raw, max) * 255 <= max / 2
  {
    if max > 0 { DivMod(BitAnd(raw, max) * 255 + max / 2, max); }
  }

  /** There is one multiple of `max` that close. */
  lemma NearestIsUnique(x: int, y: int, max: int, gap: int)
    requires (x - y) * max == gap && -max < gap < max
    ensures x == y
  {
    if x > y { MulMono(1, x - y, max); } else if x < y { MulMono(x - y, -1, max); }
  }

  /** Narrow channels: every field value survives being scaled to a byte and back. */
  lemma UnscaleScale(r: nat, max: u16, bits: nat)
    requires FieldMax(max, bits) && max <= 255 && r <= max
    ensures Unscale(Scale(r, max), max) == r
  {
    var s := Scale(r, max);
    ScaleIsNearest(r, max, bits);
    UnscaleIsNearest(s, max, bits);
    NearestIsUnique(Unscale(s, max), r, 255, (Unscale(s, max) - r) * 255);
  }

  /** Wide channels: every byte survives being widened to the field and back. */
  lemma ScaleUnscale(v: byte, max: u16, bits: nat)
    requires FieldMax(max, bits) && max >= 255
    ensures Scale(Unscale(v, max), max) == v
  {
    hide Scale, Unscale;
    var u := Unscale(v, max);
    UnscaleIsNearest(v, max, bits);
    ScaleIsNearest(u, max, bits);
    ThereAndBack(v, u, Scale(u, max), max);
  }

  lemma ThereAndBack(v: int, u: int, s: int, max: int)
    requires -127 <= u * 255 - v * max <= 127 && -(max / 2) <= s * max - u * 255 <= max / 2 && max >= 255
    ensures s == v
  {
    var p, q := s * max, v * max;
    assert (s - v) * max == p - q;
    NearestIsUnique(s, v, max, p - q);
  }

  /** Narrow channels lose at most half a step of the field plus half a byte. */
  lemma ScaleUnscaleError(v: byte, max: u16, bits: nat)
    requires FieldMax(max, bits) && max < 255
    ensures -(254 + max) <= 2 * ((Scale(Unscale(v, max), max) - v) * max) <= 254 + max
  {
    var u := Unscale(v, max);
    UnscaleIsNearest(v, max, bits);
    ScaleIsNearest(u, max, bits);
    AddErrors(v, u, Scale(u, max), max);
  }

  lemma AddErrors(v: int, u: int, s: int, max: int)
    requires -127 <= u * 255 - v * max <= 127 && -(max / 2) <= s * max - u * 255 <= max / 2
    ensures -(254 + max) <= 2 * ((s - v) * max) <= 254 + max
  {
    var p, q := s * max, v * max;
    assert (s - v) * max == p - q;
  }

  // ---------------------------------------------------------------- one pixel

  /** Three fields of `rb`, `gb`, `bb` bits that do not overlap and fit in the wire's bits. */
  predicate DisjointFields(fmt: Format, rb: nat, gb: nat, bb: nat) {
    && FieldMax(fmt.redMax, rb) && FieldMax(fmt.greenMax, gb) && FieldMax(fmt.blueMax, bb)
    && fmt.redShift + rb <= fmt.bitsPerPixel
    && fmt.greenShift + gb <= fmt.bitsPerPixel
    && fmt.blueShift + bb <= fmt.bitsPerPixel
    && Apart(fmt.redShift, rb, fmt.greenShift, gb)
    && Apart(fmt.redShift, rb, fmt.blueShift, bb)
    && Apart(fmt.greenShift, gb, fmt.blueShift, bb)
  }

  predicate Apart(s: nat, bits: nat, t: nat, width: nat) {
    s + bits <= t || t + width <= s
  }

  /** A field placed at its shift loses no bit that stays below bit 32. */
  lemma ShlExact(u: u32, s: nat, bits: nat, top: nat)
    requires u < Pow2(bits) && s + bits <= top <= 32
    ensures Shl(u, s) == u * Pow2(s) < Pow2(top)
  {
    ShiftedBound(u, s, bits, top);
    assert Pow2(top) <= 0x1_0000_0000 by { Pow2Mono(top, 32); Pow2Table(); }
    var v := u * Pow2(s);
    assert v % 0x1_0000_0000 == v;
  }

  lemma ShiftedBound(u: nat, s: nat, bits: nat, top: nat)
    requires u < Pow2(bits) && s + bits <= top
    ensures 0 <= u * Pow2(s) < Pow2(top)
  {
    var p := Pow2(s);
    Pow2Add(bits, s);
    Pow2Mono(s + bits, top);
    MulMono(u + 1, Pow2(bits), p);
    MulMono(0, u, p);
    assert (u + 1) * p == u * p + p;
  }

  lemma ShrOfShifted(u: nat, s: nat)
    ensures Shr(u * Pow2(s), s) == u
  {
    ShrIsDiv(u * Pow2(s), s);
    DivModUnique(u * Pow2(s), Pow2(s), u, 0);
  }

  /** Seen through another field's shift and mask, a disjoint field is zero. */
  lemma OtherFieldIsZero(u: nat, t: nat, width: nat, s: nat, bits: nat)
    requires u < Pow2(width) && Apart(s, bits, t, width)
    ensures Shr(u * Pow2(t), s) % Pow2(bits) == 0
  {
    hide Pow2, Shr;
    if s + bits <= t {
      var gap := t - s - bits;
      var w := u * Pow2(gap);
      Pow2Add(gap, bits + s);
      Pow2Add(bits, s);
      RegroupProduct(u, Pow2(gap), Pow2(bits), Pow2(s));
      ShrOfShifted(w * Pow2(bits), s);
      DivModUnique(w * Pow2(bits), Pow2(bits), w, 0);
    } else {
      ShiftedBound(u, t, width, s);
      ShrIsDiv(u * Pow2(t), s);
      DivModUnique(u * Pow2(t), Pow2(s), 0, u * Pow2(t));
      DivModUnique(0, Pow2(bits), 0, 0);
    }
  }

  lemma RegroupProduct(a: int, b: int, c: int, d: int)
    ensures a * (b * (c * d)) == ((a * b) * c) * d
  {
    var bc := b * c;
    assert b * (c * d) == bc * d;
    assert a * (bc * d) == (a * bc) * d;
    assert a * bc == (a * b) * c;
  }

  /** One field of three, read out of their union. */
  lemma FieldOfUnion(own: nat, s: nat, bits: nat, p: nat, q: nat)
    requires own < Pow2(bits)
    requires Shr(p, s) % Pow2(bits) == 0 && Shr(q, s) % Pow2(bits) == 0
    ensures Shr(BitOr(BitOr(own * Pow2(s), p), q), s) % Pow2(bits) == own
    ensures Shr(BitOr(BitOr(p, own * Pow2(s)), q), s) % Pow2(bits) == own
    ensures Shr(BitOr(BitOr(p, q), own * Pow2(s)), s) % Pow2(bits) == own
  {
    var o := own * Pow2(s);
    ShrOfShifted(own, s);
    OrShr(o, p, s); OrShr(p, o, s); OrShr(p, q, s);
    OrShr(BitOr(o, p), q, s); OrShr(BitOr(p, o), q, s); OrShr(BitOr(p, q), o, s);
    var a, b := Shr(p, s), Shr(q, s);
    OrMod(own, a, bits); OrMod(a, own, bits); OrMod(a, b, bits);
    OrMod(BitOr(own, a), b, bits); OrMod(BitOr(a, own), b, bits); OrMod(BitOr(a, b), own, bits);
    DivModUnique(own, Pow2(bits), 0, own);
  }

  lemma ScaleReadsField(raw: nat, u: nat, max: u16, bits: nat)
    requires FieldMax(max, bits) && raw % Pow2(bits) == u
    ensures Scale(raw, max) == Scale(u, max)
  {
    hide BitAnd, Pow2;
    MaskKeeps(raw, max, bits);
    MaskKeeps(u, max, bits);
    DivMod(raw, Pow2(bits));
    DivModUnique(u, Pow2(bits), 0, u);
  }

  lemma WireKeeps(fmt: Format, pixel: nat)
    requires pixel < Pow2(fmt.bitsPerPixel)
    ensures Unwire(fmt, Wire(fmt, pixel)) == pixel
  {
    UnwireWire(fmt, pixel);
    var n := fmt.BytesPerPixel();
    Pow256Pow2(n);
    Pow2Mono(fmt.bitsPerPixel, 8 * n);
    DivModUnique(pixel, Pow256(n), 0, pixel);
  }

  lemma {:induction false} Pow256Pow2(n: nat)
    ensures Pow256(n) == Pow2(8 * n)
  {
    if n > 0 {
      Pow256Pow2(n - 1);
      Pow2Table();
      Pow2Add(8, 8 * (n - 1));
    }
  }

  /** A whole pixel sent in a format with disjoint fields comes back channel by channel. */
  lemma PixelRoundTrip(fmt: Format, c: Rgba, rb: nat, gb: nat, bb: nat)
    requires DisjointFields(fmt, rb, gb, bb)
    ensures Meaning(fmt, FromRgba(fmt, c))
         == Rgba(Scale(Unscale(c.r, fmt.redMax), fmt.redMax),
                 Scale(Unscale(c.g, fmt.greenMax), fmt.greenMax),
                 Scale(Unscale(c.b, fmt.blueMax), fmt.blueMax), 255)
  {
    hide BitOr, Shr, Shl, Unscale, Scale;
    var ur, ug, ub := Unscale(c.r, fmt.redMax), Unscale(c.g, fmt.greenMax), Unscale(c.b, fmt.blueMax);
    var bpp := fmt.bitsPerPixel;
    ShlExact(ur, fmt.redShift, rb, bpp);
    ShlExact(ug, fmt.greenShift, gb, bpp);
    ShlExact(ub, fmt.blueShift, bb, bpp);
    var r, g, b := ur * Pow2(fmt.redShift), ug * Pow2(fmt.greenShift), ub * Pow2(fmt.blueShift);
    var v := BitOr(BitOr(r, g), b);
    assert FromRgba(fmt, c) == v;
    OrBound(r, g, bpp);
    OrBound(BitOr(r, g), b, bpp);
    WireKeeps(fmt, v);
    OtherFieldIsZero(ug, fmt.greenShift, gb, fmt.redShift, rb);
    OtherFieldIsZero(ub, fmt.blueShift, bb, fmt.redShift, rb);
    FieldOfUnion(ur, fmt.redShift, rb, g, b);
    ScaleReadsField(Shr(v, fmt.redShift), ur, fmt.redMax, rb);
    OtherFieldIsZero(ur, fmt.redShift, rb, fmt.greenShift, gb);
    OtherFieldIsZero(ub, fmt.blueShift, bb, fmt.greenShift, gb);
    FieldOfUnion(ug, fmt.greenShift, gb, r, b);
    ScaleReadsField(Shr(v, fmt.greenShift), ug, fmt.greenMax, gb);
    OtherFieldIsZero(ur, fmt.redShift, rb, fmt.blueShift, bb);
    OtherFieldIsZero(ug, fmt.greenShift, gb, fmt.blueShift, bb);
    FieldOfUnion(ub, fmt.blueShift, bb, r, g);
    ScaleReadsField(Shr(v, fmt.blueShift), ub, fmt.blueMax, bb);
  }

  /** The negotiated format carries every colour exactly. */
  lemma NegotiatedIsExact(c: Rgba)
    ensures Meaning(RGBX_32, FromRgba(RGBX_32, c)) == Rgba(c.r, c.g, c.b, 255)
  {
    Pow2Table();
    PixelRoundTrip(RGBX_32, c, 8, 8, 8);
    ScaleUnscale(c.r, 255, 8);
    ScaleUnscale(c.g, 255, 8);
    ScaleUnscale(c.b, 255, 8);
  }

  // ---------------------------------------------------------------- CPIXELs

  /** The pixel value a CPIXEL reads back as. */
  lemma CpixelValue(fmt: Format, pixel: u32)
    ensures var back := Unwire(fmt, Refill(fmt, Cpixel(fmt, pixel)));
      if fmt.CpixelBytes() == fmt.BytesPerPixel() then back == Unwire(fmt, Wire(fmt, pixel))
      else if fmt.CpixelDropsHighByte() then back == pixel % 0x100_0000
      else back == pixel - pixel % 256
  {
    if fmt.CpixelBytes() == fmt.BytesPerPixel() {
      assert Cpixel(fmt, pixel) == Wire(fmt, pixel);
    } else {
      FourBytes(pixel);
      var b0, b1, b2, b3 := pixel % 256, pixel / 256 % 256, pixel / 256 / 256 % 256, pixel / 256 / 256 / 256 % 256;
      RefillThree(fmt, pixel, b0, b1, b2, b3);
      var full := Refill(fmt, Cpixel(fmt, pixel));
      BytesOf(pixel, b0, b1, b2, b3);
      if fmt.CpixelDropsHighByte() {
        FromFourBe(0, b2, b1, b0);
        FromFourLe(b0, b1, b2, 0);
        assert Unwire(fmt, full) == b0 + b1 * 0x100 + b2 * 0x1_0000;
      } else {
        FromFourBe(b3, b2, b1, 0);
        FromFourLe(0, b1, b2, b3);
        assert Unwire(fmt, full) == b1 * 0x100 + b2 * 0x1_0000 + b3 * 0x100_0000;
      }
    }
  }

  lemma BytesOf(v: u32, b0: byte, b1: byte, b2: byte, b3: byte)
    requires b0 == v % 256 && b1 == v / 256 % 256 && b2 == v / 256 / 256 % 256 && b3 == v / 256 / 256 / 256 % 256
    ensures v % 0x100_0000 == b0 + b1 * 0x100 + b2 * 0x1_0000
    ensures v - v % 256 == b1 * 0x100 + b2 * 0x1_0000 + b3 * 0x100_0000
  {
    var q1 := v / 256;
    var q2 := q1 / 256;
    var q3 := q2 / 256;
    assert v == b0 + 256 * q1 && q1 == b1 + 256 * q2 && q2 == b2 + 256 * q3 && q3 == b3;
    DivModUnique(v, 0x100_0000, b3, b0 + b1 * 0x100 + b2 * 0x1_0000);
  }

  lemma RefillThree(fmt: Format, pixel: u32, b0: byte, b1: byte, b2: byte, b3: byte)
    requires fmt.CpixelBytes() != fmt.BytesPerPixel()
    requires Le(pixel, 4) == [b0, b1, b2, b3] && Be(pixel, 4) == [b3, b2, b1, b0]
    ensures Refill(fmt, Cpixel(fmt, pixel))
         == if fmt.CpixelDropsHighByte()
            then (if fmt.bigEndian then [0, b2, b1, b0] else [b0, b1, b2, 0])
            else (if fmt.bigEndian then [b3, b2, b1, 0] else [0, b1, b2, b3])
  {
  }

  lemma FourBytes(v: u32)
    ensures Le(v, 4) == [v % 256, v / 256 % 256, v / 256 / 256 % 256, v / 256 / 256 / 256 % 256]
    ensures Be(v, 4) == [v / 256 / 256 / 256 % 256, v / 256 / 256 % 256, v / 256 % 256, v % 256]
  {
    var v1 := v / 256;
    var v2 := v1 / 256;
    var v3 := v2 / 256;
    assert Le(v3, 1) == [v3 % 256] && Be(v3, 1) == [v3 % 256] by {
      assert Le(v3 / 256, 0) == [] && Be(v3 / 256, 0) == [];
    }
    assert Le(v2, 2) == [v2 % 256] + Le(v3, 1) && Be(v2, 2) == Be(v3, 1) + [v2 % 256];
    assert Le(v1, 3) == [v1 % 256] + Le(v2, 2) && Be(v1, 3) == Be(v2, 2) + [v1 % 256];
    assert Le(v, 4) == [v % 256] + Le(v1, 3) && Be(v, 4) == Be(v1, 3) + [v % 256];
  }

  lemma FromFourBe(a: byte, b: byte, c: byte, d: byte)
    ensures FromBe([a, b, c, d]) == a * 0x100_0000 + b * 0x1_0000 + c * 0x100 + d
  {
    assert FromBe([a]) == a by { assert [a][..0] == []; assert FromBe([]) == 0; }
    assert FromBe([a, b]) == a * 256 + b by { assert [a, b][..1] == [a]; }
    assert FromBe([a, b, c]) == (a * 256 + b) * 256 + c by { assert [a, b, c][..2] == [a, b]; }
    assert [a, b, c, d][..3] == [a, b, c];
  }

  lemma FromFourLe(a: byte, b: byte, c: byte, d: byte)
    ensures FromLe([a, b, c, d]) == a + b * 0x100 + c * 0x1_0000 + d * 0x100_0000
  {
    assert FromLe([d]) == d by { assert [d][1..] == []; assert FromLe([]) == 0; }
    assert FromLe([c, d]) == c + 256 * d by { assert [c, d][1..] == [d]; }
    assert FromLe([b, c, d]) == b + 256 * (c + 256 * d) by { assert [b, c, d][1..] == [c, d]; }
    assert [a, b, c, d][1..] == [b, c, d];
  }

  lemma LowByteOfShifted(u: u32, s: nat)
    requires 8 <= s
    ensures Shl(u, s) % 256 == 0
  {
    hide Pow2;
    var p := Pow2(s - 8);
    assert Pow2(s) == 256 * p by { Pow2Add(8, s - 8); Pow2Table(); }
    TimesByte(u, p);
  }

  lemma TimesByte(u: nat, p: nat)
    ensures (u * (256 * p)) % 0x1_0000_0000 % 256 == 0
  {
    var w := u * p;
    assert u * (256 * p) == 256 * w;
    ModBase(256 * w, 0x100_0000);
  }

  lemma ShlFits(u: u32, s: nat, max: u16)
    requires u <= max && max * Pow2(s) < 0x100_0000
    ensures Shl(u, s) < Pow2(24)
  {
    var p := Pow2(s);
    MulMono(u, max, p);
    MulMono(0, u, p);
    assert u * p < 0x100_0000;
    Pow2Table();
  }

  /** When the fields fit, the dropped byte of every colour's pixel is zero. */
  lemma DroppedByteIsZero(fmt: Format, c: Rgba)
    requires CpixelFits(fmt) && fmt.CpixelBytes() != fmt.BytesPerPixel()
    ensures var v := FromRgba(fmt, c);
            if fmt.CpixelDropsHighByte() then v < 0x100_0000 else v % 256 == 0
  {
    Pow2Table();
    var ur, ug, ub := Unscale(c.r, fmt.redMax), Unscale(c.g, fmt.greenMax), Unscale(c.b, fmt.blueMax);
    var r, g, b := Shl(ur, fmt.redShift), Shl(ug, fmt.greenShift), Shl(ub, fmt.blueShift);
    if fmt.CpixelDropsHighByte() {
      ShlFits(ur, fmt.redShift, fmt.redMax);
      ShlFits(ug, fmt.greenShift, fmt.greenMax);
      ShlFits(ub, fmt.blueShift, fmt.blueMax);
      OrBound(r, g, 24);
      OrBound(BitOr(r, g), b, 24);
    } else {
      LowByteOfShifted(ur, fmt.redShift);
      LowByteOfShifted(ug, fmt.greenShift);
      LowByteOfShifted(ub, fmt.blueShift);
      OrMod(r, g, 8);
      OrMod(BitOr(r, g), b, 8);
    }
  }

  /** When the fields fit, a CPIXEL and the whole pixel mean the same colour. */
  lemma CpixelSurvives(fmt: Format, c: Rgba)
    requires CpixelFits(fmt)
    ensures Survives(fmt, FromRgba(fmt, c))
  {
    var v := FromRgba(fmt, c);
    if fmt.CpixelBytes() != fmt.BytesPerPixel() { DroppedByteIsZero(fmt, c); }
    SameValue(fmt, v);
  }

  lemma SameValue(fmt: Format, v: u32)
    requires fmt.CpixelBytes() == fmt.BytesPerPixel()
             || (if fmt.CpixelDropsHighByte() then v < 0x100_0000 else v % 256 == 0)
    ensures Unwire(fmt, Refill(fmt, Cpixel(fmt, v))) == Unwire(fmt, Wire(fmt, v))
  {
    hide Cpixel, Refill, Wire, Unwire, Pow256;
    CpixelValue(fmt, v);
    if fmt.CpixelBytes() != fmt.BytesPerPixel() {
      UnwireWire(fmt, v);
      Pow256Table();
      assert fmt.BytesPerPixel() == 4;
    }
  }

  // ---------------------------------------------------------------- exactly when CPIXELs are lossless

  /** Three `2^k - 1` maxima whose fields stay inside the 32 bits of a pixel; they may overlap. */
  predicate FieldsInPixel(fmt: Format, rb: nat, gb: nat, bb: nat) {
    && FieldMax(fmt.redMax, rb) && FieldMax(fmt.greenMax, gb) && FieldMax(fmt.blueMax, bb)
    && fmt.redShift + rb <= 32 && fmt.greenShift + gb <= 32 && fmt.blueShift + bb <= 32
  }

  lemma FieldFits(max: u16, s: nat, bits: nat)
    requires FieldMax(max, bits)
    ensures max * Pow2(s) < 0x100_0000 <==> s + bits <= 24
  {
    Pow2Add(bits, s);
    OneLess(Pow2(bits), Pow2(s));
    assert Pow2(24) == 0x100_0000 by { Pow2Table(); }
    if s + bits <= 24 {
      Pow2Mono(s + bits, 24);
    } else {
      Pow2Mono(24, s + bits - 1);
      Pow2Mono(s, s + bits - 1);
    }
  }

  lemma OneLess(m: int, p: int)
    ensures (m - 1) * p == m * p - p
  {
  }

  /** White fills every field. */
  lemma WhiteField(max: u16, bits: nat)
    requires FieldMax(max, bits)
    ensures Unscale(255, max) == max && Scale(max, max) == 255
  {
    UnscaleIsNearest(255, max, bits);
    ScaleIsNearest(max, max, bits);
    NearestIsUnique(Scale(max, max), 255, max, (Scale(max, max) - 255) * max);
  }

  /** A filled field stays filled whatever else is or-ed into the pixel. */
  lemma FilledField(p: nat, q: nat, bits: nat)
    ensures BitOr(Pow2(bits) - 1, p) % Pow2(bits) == Pow2(bits) - 1
    ensures BitOr(p, Pow2(bits) - 1) % Pow2(bits) == Pow2(bits) - 1
    ensures BitOr(BitOr(p, q), Pow2(bits) - 1) % Pow2(bits) == Pow2(bits) - 1
    ensures q % Pow2(bits) == Pow2(bits) - 1
        ==> BitOr(q, p) % Pow2(bits) == Pow2(bits) - 1 && BitOr(p, q) % Pow2(bits) == Pow2(bits) - 1
  {
    hide BitOr, Pow2;
    var m := Pow2(bits);
    DivModUnique(m - 1, m, 0, m - 1);
    OrMod(m - 1, p, bits);
    OrMod(p, m - 1, bits);
    OrMod(BitOr(p, q), m - 1, bits);
    OrMod(q, p, bits);
    OrMod(p, q, bits);
    OrBound(m - 1, p % m, bits);
    OrBound(p % m, m - 1, bits);
    OrBound(BitOr(p, q) % m, m - 1, bits);
    OrBound(q % m, p % m, bits);
    OrBound(p % m, q % m, bits);
  }

  lemma WhitePixel(fmt: Format, rb: nat, gb: nat, bb: nat)
    requires FieldsInPixel(fmt, rb, gb, bb)
    ensures var v := FromRgba(fmt, Rgba(255, 255, 255, 255));
      && Shr(v, fmt.redShift) % Pow2(rb) == fmt.redMax
      && Shr(v, fmt.greenShift) % Pow2(gb) == fmt.greenMax
      && Shr(v, fmt.blueShift) % Pow2(bb) == fmt.blueMax
  {
    hide BitOr, Shr, Shl, Unscale;
    WhiteField(fmt.redMax, rb);
    WhiteField(fmt.greenMax, gb);
    WhiteField(fmt.blueMax, bb);
    ShlExact(fmt.redMax, fmt.redShift, rb, 32);
    ShlExact(fmt.greenMax, fmt.greenShift, gb, 32);
    ShlExact(fmt.blueMax, fmt.blueShift, bb, 32);
    var r, g, b := Shl(fmt.redMax, fmt.redShift), Shl(fmt.greenMax, fmt.greenShift), Shl(fmt.blueMax, fmt.blueShift);
    ShrOfShifted(fmt.redMax, fmt.redShift);
    ShrOfShifted(fmt.greenMax, fmt.greenShift);
    ShrOfShifted(fmt.blueMax, fmt.blueShift);
    var rs, gs, bs := fmt.redShift, fmt.greenShift, fmt.blueShift;
    OrShr(r, g, rs); OrShr(BitOr(r, g), b, rs);
    FilledField(Shr(g, rs), 0, rb);
    FilledField(Shr(b, rs), BitOr(fmt.redMax, Shr(g, rs)), rb);
    OrShr(r, g, gs); OrShr(BitOr(r, g), b, gs);
    FilledField(Shr(r, gs), 0, gb);
    FilledField(Shr(b, gs), BitOr(Shr(r, gs), fmt.greenMax), gb);
    OrShr(r, g, bs); OrShr(BitOr(r, g), b, bs);
    FilledField(Shr(r, bs), Shr(g, bs), bb);
  }

  lemma ShrFits(x: nat, s: nat, top: nat)
    requires s <= top && x < Pow2(top)
    ensures Shr(x, s) < Pow2(top - s)
  {
    Pow2Add(top - s, s);
    ShrIsDiv(x, s);
    DivMod(x, Pow2(s));
    if Shr(x, s) >= Pow2(top - s) { MulMono(Pow2(top - s), Shr(x, s), Pow2(s)); }
  }

  /** A filled field that sticks out past bit 23 reads back darker once the high byte is gone. */
  lemma StickingOutBreaks(v: u32, s: nat, max: u16, bits: nat)
    requires FieldMax(max, bits) && s <= 23 && s + bits > 24
    requires Shr(v, s) % Pow2(bits) == max
    ensures Scale(Shr(v % 0x100_0000, s), max) != Scale(Shr(v, s), max)
  {
    hide Shr, Scale, BitAnd;
    ScaleReadsField(Shr(v, s), max, max, bits);
    WhiteField(max, bits);
    var f := Shr(v % 0x100_0000, s);
    assert Pow2(24) == 0x100_0000 by { Pow2Table(); }
    ShrFits(v % 0x100_0000, s, 24);
    Pow2Mono(24 - s, bits - 1);
    assert max == 2 * Pow2(bits - 1) - 1 && 2 * f <= max;
    ScaleIsNearest(f, max, bits);
    HalfIsDarker(Scale(f, max), f, max);
  }

  lemma HalfIsDarker(c: int, f: int, max: int)
    requires 0 < max && 2 * f <= max && c * max - f * 255 <= max / 2
    ensures c != 255
  {
  }

  /** The 3-byte CPIXEL is lossless for every colour exactly when the fields fit in the bytes it
      keeps. The code chooses the 3-byte form from the shifts alone, so it is not always lossless. */
  lemma CpixelLosslessIff(fmt: Format, rb: nat, gb: nat, bb: nat)
    requires FieldsInPixel(fmt, rb, gb, bb)
    ensures CpixelFits(fmt) <==> (forall c :: Survives(fmt, FromRgba(fmt, c)))
  {
    if CpixelFits(fmt) {
      forall c ensures Survives(fmt, FromRgba(fmt, c)) { CpixelSurvives(fmt, c); }
    } else {
      WhiteBreaks(fmt, rb, gb, bb);
    }
  }

  lemma WhiteBreaks(fmt: Format, rb: nat, gb: nat, bb: nat)
    requires FieldsInPixel(fmt, rb, gb, bb) && !CpixelFits(fmt)
    ensures !Survives(fmt, FromRgba(fmt, Rgba(255, 255, 255, 255)))
  {
    FieldFits(fmt.redMax, fmt.redShift, rb);
    FieldFits(fmt.greenMax, fmt.greenShift, gb);
    FieldFits(fmt.blueMax, fmt.blueShift, bb);
    WhitePixel(fmt, rb, gb, bb);
    HighByteMatters(fmt, FromRgba(fmt, Rgba(255, 255, 255, 255)), rb, gb, bb);
  }

  lemma ThreeByteValues(fmt: Format, v: u32)
    requires fmt.CpixelBytes() != fmt.BytesPerPixel() && fmt.CpixelDropsHighByte()
    ensures FromCpixel(fmt, Cpixel(fmt, v)) == ToRgba(fmt, v % 0x100_0000)
    ensures Meaning(fmt, v) == ToRgba(fmt, v)
  {
    hide ToRgba, Cpixel, Refill, Wire, Unwire, Pow256;
    CpixelValue(fmt, v);
    UnwireWire(fmt, v);
    Pow256Table();
    assert fmt.BytesPerPixel() == 4;
  }

  lemma HighByteMatters(fmt: Format, v: u32, rb: nat, gb: nat, bb: nat)
    requires FieldsInPixel(fmt, rb, gb, bb)
    requires fmt.CpixelBytes() != fmt.BytesPerPixel() && fmt.CpixelDropsHighByte()
    requires fmt.redShift + rb > 24 || fmt.greenShift + gb > 24 || fmt.blueShift + bb > 24
    requires Shr(v, fmt.redShift) % Pow2(rb) == fmt.redMax
    requires Shr(v, fmt.greenShift) % Pow2(gb) == fmt.greenMax
    requires Shr(v, fmt.blueShift) % Pow2(bb) == fmt.blueMax
    ensures !Survives(fmt, v)
  {
    ThreeByteValues(fmt, v);
    if fmt.redShift + rb > 24 {
      StickingOutBreaks(v, fmt.redShift, fmt.redMax, rb);
    } else if fmt.greenShift + gb > 24 {
      StickingOutBreaks(v, fmt.greenShift, fmt.greenMax, gb);
    } else {
      StickingOutBreaks(v, fmt.blueShift, fmt.blueMax, bb);
    }
  }

  /** Such a format: red is eight bits from bit 20. The code sends it as 3 bytes and white turns dark. */
  lemma CpixelCounterexample()
    ensures var fmt := PixelFormat(32, 24, false, true, 255, 255, 255, 20, 8, 0);
      fmt.CpixelBytes() == 3 && exists c :: !Survives(fmt, FromRgba(fmt, c))
  {
    var fmt := PixelFormat(32, 24, false, true, 255, 255, 255, 20, 8, 0);
    Pow2Table();
    FieldFits(255, 20, 8);
    CpixelLosslessIff(fmt, 8, 8, 8);
  }
}
