/** The RFB pixel format: channel scaling, pixels on the wire, and ZRLE's compressed pixels. */
module PixelFormats {
  import opened Bytes

  datatype Rgba = Rgba(r: byte, g: byte, b: byte, a: byte)

  const BLACK: Rgba := Rgba(0, 0, 0, 255)

  predicate SameRgb(p: Rgba, q: Rgba) {
    p.r == q.r && p.g == q.g && p.b == q.b
  }

  datatype PixelFormat = PixelFormat(
    bitsPerPixel: byte, depth: byte, bigEndian: bool, trueColour: bool,
    redMax: u16, greenMax: u16, blueMax: u16,
    redShift: byte, greenShift: byte, blueShift: byte)
  {
    /** Shifts a 32-bit value can be shifted by, and at most four bytes a pixel. */
    predicate Usable() {
      redShift < 32 && greenShift < 32 && blueShift < 32 && bitsPerPixel <= 32
    }

    function BytesPerPixel(): nat {
      (bitsPerPixel + 7) / 8
    }

    function MaxShift(): nat {
      Max(Max(redShift, greenShift), blueShift)
    }

    function MinShift(): nat {
      Min(Min(redShift, greenShift), blueShift)
    }

    function CpixelBytes(): nat {
      if bitsPerPixel == 32 && depth <= 24 && trueColour && (MaxShift() <= 23 || MinShift() >= 8) then 3
      else BytesPerPixel()
    }

    predicate CpixelDropsHighByte() {
      MaxShift() <= 23
    }

    /** How many of a pixel's wire bytes come before the ones its CPIXEL keeps. */
    function CpixelOffset(): (off: nat) {
      if CpixelBytes() == BytesPerPixel() then 0
      else if bigEndian == CpixelDropsHighByte() then 1 else 0
    }
  }

  /** The format the client asks every server for. */
  const RGBX_32: PixelFormat :=
    PixelFormat(32, 24, false, true, 255, 255, 255, 0, 8, 16)

  type Format = f: PixelFormat | f.Usable() witness RGBX_32

  // ---------------------------------------------------------------- channels

  function Scale(raw: nat, max: u16): byte {
    if max == 0 then 0
    else
      var v := BitAnd(raw, max);
      if max == 255 then v
      else
        ScaleBound(v, max);
        (v * 255 + max / 2) / max
  }

  function Unscale(v: byte, max: u16): (u: u32)
    ensures u <= max
  {
    if max == 0 then 0
    else if max == 255 then v
    else BitAnd((v * max + 127) / 255, max)
  }

  lemma ScaleBound(v: nat, max: nat)
    requires 0 < max && v <= max
    ensures 0 <= (v * 255 + max / 2) / max <= 255
  {
    MulMono(v, max, 255);
    DivMod(v * 255 + max / 2, max);
    var q := (v * 255 + max / 2) / max;
    if q >= 256 { MulMono(256, q, max); }
    if q < 0 { MulMono(q, -1, max); }
  }

  // ---------------------------------------------------------------- pixels

  function ToRgba(fmt: Format, pixel: nat): (c: Rgba)
    ensures c.a == 255
  {
    Rgba(Scale(Shr(pixel, fmt.redShift), fmt.redMax),
         Scale(Shr(pixel, fmt.greenShift), fmt.greenMax),
         Scale(Shr(pixel, fmt.blueShift), fmt.blueMax),
         255)
  }

  function FromRgba(fmt: Format, c: Rgba): u32 {
    var r := Shl(Unscale(c.r, fmt.redMax), fmt.redShift);
    var g := Shl(Unscale(c.g, fmt.greenMax), fmt.greenShift);
    var b := Shl(Unscale(c.b, fmt.blueMax), fmt.blueShift);
    Pow2Table();
    OrBound(r, g, 32);
    OrBound(BitOr(r, g), b, 32);
    BitOr(BitOr(r, g), b)
  }

  /** A pixel value's wire bytes. */
  function Wire(fmt: Format, pixel: nat): (w: seq<byte>)
    ensures |w| == fmt.BytesPerPixel()
  {
    if fmt.bigEndian then Be(pixel, fmt.BytesPerPixel()) else Le(pixel, fmt.BytesPerPixel())
  }

  /** The number wire bytes stand for. */
  function Unwire(fmt: PixelFormat, w: seq<byte>): nat {
    if fmt.bigEndian then FromBe(w) else FromLe(w)
  }

  /** What a pixel value means to a client that reads it back whole. */
  function Meaning(fmt: Format, pixel: nat): (c: Rgba)
    ensures c.a == 255
  {
    ToRgba(fmt, Unwire(fmt, Wire(fmt, pixel)))
  }

  /** The CPIXEL bytes of a pixel value. */
  function Cpixel(fmt: Format, pixel: nat): (w: seq<byte>)
    ensures |w| == fmt.CpixelBytes()
  {
    Wire(fmt, pixel)[fmt.CpixelOffset()..fmt.CpixelOffset() + fmt.CpixelBytes()]
  }

  /** The full wire bytes a CPIXEL stands for: the dropped byte comes back as zero. */
  function Refill(fmt: Format, w: seq<byte>): (full: seq<byte>)
    requires |w| == fmt.CpixelBytes()
    ensures |full| == fmt.BytesPerPixel()
  {
    if fmt.CpixelBytes() == fmt.BytesPerPixel() then w
    else if fmt.CpixelOffset() == 0 then w + [0]
    else [0] + w
  }

  function FromCpixel(fmt: Format, w: seq<byte>): (c: Rgba)
    requires |w| == fmt.CpixelBytes()
    ensures c.a == 255
  {
    ToRgba(fmt, Unwire(fmt, Refill(fmt, w)))
  }

  /** A pixel value survives the trip through its CPIXEL. */
  predicate Survives(fmt: Format, pixel: nat) {
    FromCpixel(fmt, Cpixel(fmt, pixel)) == Meaning(fmt, pixel)
  }

  /** The three fields fit in the bytes the CPIXEL keeps. The code tests only the shifts. */
  predicate CpixelFits(fmt: Format) {
    fmt.CpixelBytes() == fmt.BytesPerPixel()
    || !fmt.CpixelDropsHighByte()
    || (fmt.redMax * Pow2(fmt.redShift) < 0x100_0000
        && fmt.greenMax * Pow2(fmt.greenShift) < 0x100_0000
        && fmt.blueMax * Pow2(fmt.blueShift) < 0x100_0000)
  }

  // ---------------------------------------------------------------- the loops that move pixels

  /** At most four bytes of a pixel move, however many the format says it has. */
  function WireBytes(fmt: PixelFormat): nat {
    Min(fmt.BytesPerPixel(), 4)
  }

  /** `PixelFormat::write_pixel`: push the wire bytes one shift at a time. */
  method WritePixel(fmt: PixelFormat, pixel: u32, out: seq<byte>) returns (r: seq<byte>)
    ensures r == out + (if fmt.bigEndian then Be(pixel, WireBytes(fmt)) else Le(pixel, WireBytes(fmt)))
    ensures fmt.Usable() ==> r == out + Wire(fmt, pixel)
  {
    var n := Min(fmt.BytesPerPixel(), 4);
    r := out;
    if fmt.bigEndian {
      var i := n;
      while i > 0
        invariant 0 <= i <= n
        invariant r + Be(pixel, i) == out + Be(pixel, n)
      {
        i := i - 1;
        BeHead(pixel, i);
        r := r + [Shr(pixel, 8 * i) % 256];
      }
    } else {
      var i := 0;
      while i < n
        invariant 0 <= i <= n
        invariant r + Le(Shr(pixel, 8 * i), n - i) == out + Le(pixel, n)
      {
        ghost var rest := Le(Shr(pixel, 8 * i), n - i);
        ShrStep(pixel, i);
        assert rest == [Shr(pixel, 8 * i) % 256] + Le(Shr(pixel, 8 * (i + 1)), n - i - 1);
        r := r + [Shr(pixel, 8 * i) % 256];
        i := i + 1;
      }
    }
  }

  lemma ShrByte(x: nat)
    ensures Shr(x, 8) == x / 256
  {
    ShrIsDiv(x, 8);
    Pow2Table();
  }

  lemma {:induction false} ShrAdd(x: nat, a: nat, b: nat)
    ensures Shr(x, a + b) == Shr(Shr(x, a), b)
    decreases a
  {
    if a > 0 { ShrAdd(x / 2, a - 1, b); }
  }

  lemma ShrStep(x: nat, i: nat)
    ensures Shr(x, 8 * (i + 1)) == Shr(x, 8 * i) / 256
  {
    ShrAdd(x, 8 * i, 8);
    ShrByte(Shr(x, 8 * i));
  }

  lemma {:induction false} BeHead(x: nat, i: nat)
    ensures Be(x, i + 1) == [Shr(x, 8 * i) % 256] + Be(x, i)
    decreases i
  {
    if i > 0 {
      BeHead(x / 256, i - 1);
      ShrAdd(x, 8, 8 * (i - 1));
      ShrByte(x);
    }
  }

  /** `PixelFormat::read_pixel`: as many leading bytes as the format and the slice have. */
  method ReadPixel(fmt: PixelFormat, wire: seq<byte>) returns (v: u32)
    ensures v == Unwire(fmt, wire[..Min(WireBytes(fmt), |wire|)])
    ensures fmt.Usable() ==> v == Unwire(fmt, wire[..Min(fmt.BytesPerPixel(), |wire|)])
  {
    var n := Min(Min(fmt.BytesPerPixel(), 4), |wire|);
    v := 0;
    if fmt.bigEndian {
      var i := 0;
      while i < n
        invariant 0 <= i <= n
        invariant v == FromBe(wire[..i])
      {
        assert wire[..i + 1][..i] == wire[..i];
        OrByte(v, wire[i]);
        FourBytesFit(wire[..i + 1]);
        v := BitOr(v * 256, wire[i]);
        i := i + 1;
      }
    } else {
      var i := n;
      while i > 0
        invariant 0 <= i <= n
        invariant v == FromLe(wire[i..n])
      {
        i := i - 1;
        assert wire[i..n][1..] == wire[i + 1..n];
        OrByte(v, wire[i]);
        FourBytesFit(wire[i..n]);
        v := BitOr(v * 256, wire[i]);
      }
    }
  }

  lemma FourBytesFit(b: seq<byte>)
    requires |b| <= 4
    ensures FromBe(b) < 0x1_0000_0000 && FromLe(b) < 0x1_0000_0000
  {
    hide FromBe, FromLe, Pow256;
    FromBeBound(b);
    FromLeBound(b);
    Pow256Table();
  }

  lemma OrByte(v: nat, b: byte)
    ensures BitOr(v * 256, b) == v * 256 + b
  {
    Pow2Table();
    OrDisjoint(v, 8, b);
  }

  /** Reading back what was written loses only what did not fit in the bytes. */
  lemma UnwireWire(fmt: Format, pixel: nat)
    ensures Unwire(fmt, Wire(fmt, pixel)) == pixel % Pow256(fmt.BytesPerPixel())
  {
    FromBeBe(pixel, fmt.BytesPerPixel());
    FromLeLe(pixel, fmt.BytesPerPixel());
  }

  // ---------------------------------------------------------------- the 16-byte block

  function EncodeFormat(f: PixelFormat): (b: seq<byte>)
    ensures |b| == 16
  {
    [f.bitsPerPixel, f.depth, if f.bigEndian then 1 else 0, if f.trueColour then 1 else 0]
    + Be(f.redMax, 2) + Be(f.greenMax, 2) + Be(f.blueMax, 2)
    + [f.redShift, f.greenShift, f.blueShift, 0, 0, 0]
  }

  function U16At(b: seq<byte>, i: nat): u16
    requires i + 2 <= |b|
  {
    FromBeBound(b[i..i + 2]);
    Pow256Table();
    FromBe(b[i..i + 2])
  }

  function DecodeFormat(b: seq<byte>): PixelFormat
    requires |b| == 16
  {
    PixelFormat(b[0], b[1], b[2] != 0, b[3] != 0,
                U16At(b, 4), U16At(b, 6), U16At(b, 8), b[10], b[11], b[12])
  }

  lemma U16AtBe(b: seq<byte>, i: nat, v: u16)
    requires i + 2 <= |b| && b[i..i + 2] == Be(v, 2)
    ensures U16At(b, i) == v
  {
    FromBeBe(v, 2);
    Pow256Table();
  }

  /** Every format survives the block, colour-map and unusable ones included. */
  lemma FormatRoundTrip(f: PixelFormat)
    ensures DecodeFormat(EncodeFormat(f)) == f
  {
    var b := EncodeFormat(f);
    U16AtBe(b, 4, f.redMax);
    U16AtBe(b, 6, f.greenMax);
    U16AtBe(b, 8, f.blueMax);
  }
}
