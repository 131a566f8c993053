/** The bytes themselves, as RFC 6143 numbers them: what each client message, each server message and a
    pixel of the negotiated format are on the wire. */
module WireFormat {
  import opened Bytes
  import opened PixelFormats
  import opened PixelLaws
  import opened Latin1
  import opened Zlib
  import M = ClientMessages
  import S = ServerWrites
  import E = ZrleEncode

  function Two(v: u16): seq<byte> {
    [v / 256, v % 256]
  }

  function Four(v: u32): seq<byte> {
    [v / 0x100_0000, v / 0x1_0000 % 256, v / 256 % 256, v % 256]
  }

  function Bit(b: bool): byte {
    if b then 1 else 0
  }

  /** Fields are sent most significant byte first. */
  lemma BigEndian()
    ensures forall v: u16 :: Be(v, 2) == Two(v)
    ensures forall v: u32 :: Be(v, 4) == Four(v)
  {
    forall v: u16 ensures Be(v, 2) == Two(v) { BeIsTwo(v); }
    forall v: u32 ensures Be(v, 4) == Four(v) { BeIsFour(v); }
  }

  lemma BeTwo(v: nat)
    ensures Be(v, 2) == [v / 256 % 256, v % 256]
  {
    assert Be(v / 256, 1) == [] + [v / 256 % 256];
  }

  lemma BeFour(v: nat)
    requires v < 0x1_0000_0000
    ensures Be(v, 4) == [v / 0x100_0000, v / 0x1_0000 % 256, v / 256 % 256, v % 256]
  {
    FourBytes(v);
    assert v / 256 / 256 == v / 0x1_0000 && v / 256 / 256 / 256 == v / 0x100_0000 < 256;
  }

  // ---------------------------------------------------------------- what the client sends

  /** Section 7.5: each client message, byte by byte. */
  lemma ClientBytes(x: u16, y: u16, w: u16, h: u16, keysym: u32, flag: bool, buttons: byte)
    ensures M.Encode(M.UpdateRequest(flag, x, y, w, h)) == [3, Bit(flag)] + Two(x) + Two(y) + Two(w) + Two(h)
    ensures M.Encode(M.Key(keysym, flag)) == [4, Bit(flag), 0, 0] + Four(keysym)
    ensures M.Encode(M.Pointer(x, y, buttons)) == [5, buttons] + Two(x) + Two(y)
  {
    hide Be, Two, Four;
    BeIsTwo(x);
    BeIsTwo(y);
    BeIsTwo(w);
    BeIsTwo(h);
    BeIsFour(keysym);
    Flattened(3, Bit(flag), Two(x), Two(y), Two(w), Two(h));
    Flattened(5, buttons, Two(x), Two(y), [], []);
    assert [4] + ([Bit(flag)] + ([0, 0] + Four(keysym))) == [4, Bit(flag), 0, 0] + Four(keysym);
  }

  lemma Flattened(t: byte, b: byte, x: seq<byte>, y: seq<byte>, w: seq<byte>, h: seq<byte>)
    ensures [t] + ([b] + (x + (y + (w + h)))) == [t, b] + x + y + w + h
    ensures [t] + ([b] + (x + y)) == [t, b] + x + y
  {
  }

  lemma FormatBytes(f: PixelFormat)
    ensures M.Encode(M.SetPixelFormat(f))
         == [0, 0, 0, 0, f.bitsPerPixel, f.depth, Bit(f.bigEndian), Bit(f.trueColour)]
            + Two(f.redMax) + Two(f.greenMax) + Two(f.blueMax) + [f.redShift, f.greenShift, f.blueShift, 0, 0, 0]
  {
    hide Be, Two;
    BigEndian();
  }

  /** A list of encodings after its count, each in two's complement. */
  lemma EncodingsBytes(list: seq<M.i32>, i: nat)
    requires i < |list| < 0x1_0000
    ensures var b := M.Encode(M.SetEncodings(list)); var v: int := list[i];
      && |b| == 4 + 4 * |list| && b[..4] == [2, 0] + Two(|list|)
      && b[4 + 4 * i..8 + 4 * i] == Four(if v < 0 then v + 0x1_0000_0000 else v)
  {
    hide Two, Four, M.Encode, M.ListBytes, M.I32Bytes;
    CountedList(list);
    ListBytesAt(list, i);
    TwosComplement(list[i]);
    AfterFour([2, 0] + Two(|list|), M.ListBytes(list), 4 * i);
  }

  lemma CountedList(list: seq<M.i32>)
    requires |list| < 0x1_0000
    ensures |Two(|list|)| == 2 && M.Encode(M.SetEncodings(list)) == [2, 0] + Two(|list|) + M.ListBytes(list)
  {
    hide Be, Two, M.ListBytes;
    BeIsTwo(|list|);
    assert |list| % 0x1_0000 == |list|;
    assert [2] + ([0] + (Two(|list|) + M.ListBytes(list))) == [2, 0] + Two(|list|) + M.ListBytes(list);
  }

  lemma BeIsTwo(v: u16)
    ensures Be(v, 2) == Two(v) && |Two(v)| == 2
  {
    BeTwo(v);
  }

  lemma BeIsFour(v: u32)
    ensures Be(v, 4) == Four(v) && |Four(v)| == 4
  {
    BeFour(v);
  }

  lemma AfterFour(head: seq<byte>, tail: seq<byte>, at: nat)
    requires |head| == 4 && at + 4 <= |tail|
    ensures (head + tail)[..4] == head && (head + tail)[at + 4..at + 8] == tail[at..at + 4]
  {
  }

  lemma TwosComplement(v: M.i32)
    ensures M.I32Bytes(v) == Four(if v < 0 then v + 0x1_0000_0000 else v)
  {
    hide Be, Four;
    var u: u32 := if v < 0 then v + 0x1_0000_0000 else v;
    assert v % 0x1_0000_0000 == u;
    BeIsFour(u);
  }

  lemma {:induction false} ListBytesAt(list: seq<M.i32>, i: nat)
    requires i < |list|
    ensures M.ListBytes(list)[4 * i..4 * i + 4] == M.I32Bytes(list[i])
  {
    var first, rest := M.I32Bytes(list[0]), M.ListBytes(list[1..]);
    assert M.ListBytes(list) == first + rest;
    if i == 0 {
      assert (first + rest)[..4] == first;
    } else {
      ListBytesAt(list[1..], i - 1);
      hide M.ListBytes, M.I32Bytes;
      AfterFour(first, rest, 4 * (i - 1));
    }
  }

  lemma CutTextBytes(text: string)
    requires |ToLatin1(text)| < 0x1_0000_0000
    ensures M.Encode(M.CutText(text)) == [6, 0, 0, 0] + Four(|ToLatin1(text)|) + ToLatin1(text)
  {
    hide Be, Four, ToLatin1;
    BigEndian();
  }

  // ---------------------------------------------------------------- the negotiated format

  /** The format asked for, and a pixel of it: red, green, blue and a byte of nothing, which is the byte its
      CPIXEL leaves out. */
  lemma NegotiatedBytes(c: Rgba)
    ensures M.Encode(M.SetPixelFormat(RGBX_32))
         == [0, 0, 0, 0, 32, 24, 0, 1, 0, 255, 0, 255, 0, 255, 0, 8, 16, 0, 0, 0]
    ensures Wire(RGBX_32, FromRgba(RGBX_32, c)) == [c.r, c.g, c.b, 0]
    ensures Cpixel(RGBX_32, FromRgba(RGBX_32, c)) == [c.r, c.g, c.b]
  {
    FormatBytes(RGBX_32);
    RgbxValue(c);
    var v := c.r + 256 * (c.g + 256 * c.b);
    hide FromRgba;
    assert v / 256 == c.g + 256 * c.b && v / 256 / 256 == c.b && v / 256 / 256 / 256 == 0;
    assert Le(v / 256 / 256 / 256, 1) == [0] + [];
    assert Le(v / 256 / 256, 2) == [c.b] + Le(v / 256 / 256 / 256, 1);
    assert Le(v / 256, 3) == [c.g] + Le(v / 256 / 256, 2);
    assert Le(v, 4) == [c.r] + Le(v / 256, 3);
    assert Wire(RGBX_32, v) == [c.r, c.g, c.b, 0];
  }

  lemma RgbxValue(c: Rgba)
    ensures FromRgba(RGBX_32, c) == c.r + 256 * (c.g + 256 * c.b)
  {
    hide BitOr;
    Pow2Table();
    var r: nat, g: nat, b: nat := c.r, c.g, c.b;
    assert Shl(c.r, 0) == r && Shl(c.g, 8) == g * 256 && Shl(c.b, 16) == b * 0x1_0000;
    OrSwap(r, g * 256);
    OrDisjoint(g, 8, r);
    OrSwap(g * 256 + r, b * 0x1_0000);
    OrDisjoint(b, 16, g * 256 + r);
  }

  lemma {:induction false} OrSwap(a: nat, b: nat)
    ensures BitOr(a, b) == BitOr(b, a)
    decreases a + b
  {
    if a > 0 && b > 0 { OrSwap(a / 2, b / 2); }
  }

  // ---------------------------------------------------------------- CPIXELs as the standard has them

  /** Section 7.7.5: three bytes will do, because every bit of every intensity is among the low three bytes, or
      among the high three. */
  predicate LowThree(fmt: Format, rb: nat, gb: nat, bb: nat) {
    fmt.redShift + rb <= 24 && fmt.greenShift + gb <= 24 && fmt.blueShift + bb <= 24
  }

  predicate HighThree(fmt: Format) {
    fmt.redShift >= 8 && fmt.greenShift >= 8 && fmt.blueShift >= 8
  }

  predicate Compressible(fmt: Format, rb: nat, gb: nat, bb: nat) {
    fmt.trueColour && fmt.bitsPerPixel == 32 && fmt.depth <= 24 && (LowThree(fmt, rb, gb, bb) || HighThree(fmt))
  }

  function InOrder(fmt: Format, high: byte, mid: byte, low: byte): seq<byte> {
    if fmt.bigEndian then [high, mid, low] else [low, mid, high]
  }

  /** The standard lets `w` be the pixel's CPIXEL: its low or its high three bytes, whichever holds the
      intensities, and otherwise the whole pixel. */
  predicate Allowed(fmt: Format, rb: nat, gb: nat, bb: nat, pixel: u32, w: seq<byte>) {
    var (b3, b2, b1, b0) := (pixel / 0x100_0000, pixel / 0x1_0000 % 256, pixel / 256 % 256, pixel % 256);
    if !Compressible(fmt, rb, gb, bb) then w == Wire(fmt, pixel)
    else
      || (LowThree(fmt, rb, gb, bb) && w == InOrder(fmt, b2, b1, b0))
      || (HighThree(fmt) && w == InOrder(fmt, b3, b2, b1))
  }

  lemma LeFour(v: nat)
    requires v < 0x1_0000_0000
    ensures Le(v, 4) == [v % 256, v / 256 % 256, v / 0x1_0000 % 256, v / 0x100_0000]
  {
    FourBytes(v);
    assert v / 256 / 256 == v / 0x1_0000 && v / 256 / 256 / 256 == v / 0x100_0000 < 256;
  }

  /** The three bytes the code keeps. */
  lemma KeptBytes(fmt: Format, pixel: u32)
    requires fmt.CpixelBytes() != fmt.BytesPerPixel()
    ensures var (b3, b2, b1, b0) := (pixel / 0x100_0000, pixel / 0x1_0000 % 256, pixel / 256 % 256, pixel % 256);
      Cpixel(fmt, pixel)
      == if fmt.CpixelDropsHighByte() then InOrder(fmt, b2, b1, b0) else InOrder(fmt, b3, b2, b1)
  {
    hide Be, Le;
    BeFour(pixel);
    LeFour(pixel);
    assert fmt.BytesPerPixel() == 4 && fmt.CpixelBytes() == 3;
    var w := Wire(fmt, pixel);
    assert w[0..3] == [w[0], w[1], w[2]] && w[1..4] == [w[1], w[2], w[3]];
  }

  /** The code's CPIXEL is one the standard allows, for every pixel, exactly when the fields fit in the bytes it
      keeps: testing the shifts alone compresses formats the standard leaves whole. */
  lemma CpixelIsStandardIff(fmt: Format, rb: nat, gb: nat, bb: nat)
    requires FieldsInPixel(fmt, rb, gb, bb)
    ensures CpixelFits(fmt) <==> forall pixel: u32 :: Allowed(fmt, rb, gb, bb, pixel, Cpixel(fmt, pixel))
  {
    FieldFits(fmt.redMax, fmt.redShift, rb);
    FieldFits(fmt.greenMax, fmt.greenShift, gb);
    FieldFits(fmt.blueMax, fmt.blueShift, bb);
    assert fmt.CpixelBytes() != fmt.BytesPerPixel() ==>
        (CpixelFits(fmt) <==> !fmt.CpixelDropsHighByte() || LowThree(fmt, rb, gb, bb));
    hide Cpixel, Pow2, Wire;
    if fmt.CpixelBytes() == fmt.BytesPerPixel() {
      assert !Compressible(fmt, rb, gb, bb);
      forall pixel: u32 ensures Cpixel(fmt, pixel) == Wire(fmt, pixel) { KeptWhole(fmt, pixel); }
    } else {
      hide CpixelFits, FieldsInPixel;
      forall pixel: u32 ensures CpixelFits(fmt) ==> Allowed(fmt, rb, gb, bb, pixel, Cpixel(fmt, pixel)) {
        KeptBytes(fmt, pixel);
      }
      KeptBytes(fmt, 0x100_0000);
      WireLength(fmt, 0x100_0000);
      assert CpixelFits(fmt) <==> Allowed(fmt, rb, gb, bb, 0x100_0000, Cpixel(fmt, 0x100_0000));
    }
  }

  lemma KeptWhole(fmt: Format, pixel: u32)
    requires fmt.CpixelBytes() == fmt.BytesPerPixel()
    ensures Cpixel(fmt, pixel) == Wire(fmt, pixel)
  {
    assert Wire(fmt, pixel)[0..|Wire(fmt, pixel)|] == Wire(fmt, pixel);
  }

  lemma WireLength(fmt: Format, pixel: u32)
    requires fmt.CpixelBytes() != fmt.BytesPerPixel()
    ensures |Wire(fmt, pixel)| == 4
  {
  }

  // ---------------------------------------------------------------- what the server sends

  function Rect(x: u16, y: u16, w: u16, h: u16, encoding: seq<byte>): seq<byte> {
    Two(x) + Two(y) + Two(w) + Two(h) + encoding
  }

  lemma RectBytes(x: u16, y: u16, w: u16, h: u16)
    ensures S.UpdateHeader(1) == [0, 0, 0, 1]
    ensures S.RectHeader(x, y, w, h, S.C.ENC_RAW) == Rect(x, y, w, h, [0, 0, 0, 0])
    ensures S.RectHeader(x, y, w, h, S.C.ENC_COPY_RECT) == Rect(x, y, w, h, [0, 0, 0, 1])
    ensures S.RectHeader(x, y, w, h, S.C.ENC_ZRLE) == Rect(x, y, w, h, [0, 0, 0, 16])
    ensures S.RectHeader(x, y, w, h, S.C.ENC_DESKTOP_SIZE) == Rect(x, y, w, h, [0xff, 0xff, 0xff, 0x21])
  {
    hide Be, Two;
    BigEndian();
    assert Two(1) == [0, 1] by { BeTwo(1); }
    assert Four(0) == [0, 0, 0, 0] && Four(1) == [0, 0, 0, 1] && Four(16) == [0, 0, 0, 16];
    assert Four(0xffff_ff21) == [0xff, 0xff, 0xff, 0x21];
    assert -223 % 0x1_0000_0000 == 0xffff_ff21;
  }

  /** Sections 7.6 and 7.7: what each thing a server does puts on the wire, in terms of what it was asked. */
  lemma ServerBytes(z: Codec, cfg: S.Config, s: S.Server, a: S.Action)
    requires s.screen.Valid() && (a.SetScreen? ==> a.screen.Valid())
    ensures var b := S.Act(z, cfg, s, a).1;
      match a
      case Bell => b == [2]
      case CutText(text) =>
        |ToLatin1(text)| < 0x1_0000_0000 ==> b == [3, 0, 0, 0] + Four(|ToLatin1(text)|) + ToLatin1(text)
      case Resize(w, h) => b == [0, 0, 0, 1] + Rect(0, 0, w, h, [0xff, 0xff, 0xff, 0x21])
      case CopyRect(sx, sy, dx, dy, w, h) =>
        b == [0, 0, 0, 1] + Rect(dx, dy, w, h, [0, 0, 0, 1]) + Two(sx) + Two(sy)
      case UpdateRequest => IsScreen(z, cfg, s, b)
      case SetScreen(screen) => IsScreen(z, cfg, s.(screen := screen), b)
      case _ => b == []
  {
    hide S.UpdateHeader, S.RectHeader, Be, Two, Four, ToLatin1, S.ScreenUpdate, IsScreen;
    BigEndian();
    match a
    case Resize(w, h) => RectBytes(0, 0, w, h);
    case CopyRect(_, _, dx, dy, w, h) => RectBytes(dx, dy, w, h);
    case UpdateRequest => ScreenBytes(z, cfg, s);
    case SetScreen(screen) => ScreenBytes(z, cfg, s.(screen := screen));
    case _ =>
  }

  /** The whole screen as one rect: in ZRLE when the server was built for it, or was built to negotiate and the
      client's list names ZRLE before Raw; otherwise raw. */
  predicate IsScreen(z: Codec, cfg: S.Config, s: S.Server, b: seq<byte>)
    requires s.screen.Valid()
  {
    var (w, h) := (s.screen.width, s.screen.height);
    if cfg.encoding.Zrle? || (cfg.encoding.Negotiated? && ZrleFirst(s.advertised)) then
      var slice := z.deflate(s.plains, E.RectTiles(s.screen, 0, 0, w, h, cfg.tiling, s.fmt));
      |slice| < 0x1_0000_0000 ==> b == [0, 0, 0, 1] + Rect(0, 0, w, h, [0, 0, 0, 16]) + Four(|slice|) + slice
    else b == [0, 0, 0, 1] + Rect(0, 0, w, h, [0, 0, 0, 0]) + E.Wires(s.fmt, E.PixelValues(s.screen, 0, 0, w, h, s.fmt))
  }

  /** ZRLE, which is 16, stands in the list with no Raw, which is 0, before it. */
  predicate ZrleFirst(list: seq<int>) {
    exists i :: 0 <= i < |list| && list[i] == 16 && 0 !in list[..i]
  }

  lemma {:induction false} FirstUsableIff(list: seq<int>)
    ensures S.FirstUsable(list) == if ZrleFirst(list) then 16 else 0
  {
    if |list| > 0 {
      FirstUsableIff(list[1..]);
      if ZrleFirst(list[1..]) && list[0] != 0 {
        var i :| 0 <= i < |list[1..]| && list[1..][i] == 16 && 0 !in list[1..][..i];
        assert list[..i + 1] == [list[0]] + list[1..][..i] && list[i + 1] == 16;
      }
      if ZrleFirst(list) && list[0] != 16 {
        var i :| 0 <= i < |list| && list[i] == 16 && 0 !in list[..i];
        assert list[..i] == [list[0]] + list[1..][..i - 1] && list[1..][i - 1] == 16;
      }
      if list[0] == 16 { assert list[..0] == []; }
      if list[0] == 0 {
        forall i | 0 <= i < |list| && list[i] == 16 ensures 0 in list[..i] { assert list[..i][0] == 0; }
      }
    }
  }

  lemma ScreenBytes(z: Codec, cfg: S.Config, s: S.Server)
    requires s.screen.Valid()
    ensures IsScreen(z, cfg, s, S.ScreenUpdate(z, cfg, s).1)
  {
    hide S.UpdateHeader, S.RectHeader, Be, Two, Four, E.RectTiles, E.Wires, E.PixelValues, ZrleFirst, S.FirstUsable;
    BigEndian();
    FirstUsableIff(s.advertised);
    RectBytes(0, 0, s.screen.width, s.screen.height);
  }
}
