/** The raw path, the law that ZRLE means the same, and what any bytes at all can decode to. */
module RawRects {
  import opened Bytes
  import opened PixelFormats
  import opened PixelLaws
  import opened Grid
  import opened Pictures
  import opened Reads
  import E = ZrleEncode
  import opened ZrleDecode
  import opened ZrleTiles
  import opened ZrleRects

  /** The `k`-th pixel of raw rect bytes. */
  function RawCell(fmt: Format, data: seq<byte>, k: nat): (c: Rgba)
    requires 0 <= k * fmt.BytesPerPixel() <= |data| - fmt.BytesPerPixel()
    ensures c.a == 255
  {
    var at := k * fmt.BytesPerPixel();
    ToRgba(fmt, Unwire(fmt, data[at..at + fmt.BytesPerPixel()]))
  }

  lemma RawInside(n: nat, k: nat, bpp: nat, len: nat)
    requires k < n && n * bpp <= len
    ensures 0 <= k * bpp <= len - bpp
  {
    MulMono(k + 1, n, bpp);
    MulMono(0, k, bpp);
  }

  /** The first `n` pixels of raw rect bytes. */
  function RawCells(fmt: Format, data: seq<byte>, n: nat): (px: seq<Rgba>)
    requires n * fmt.BytesPerPixel() <= |data|
    ensures |px| == n && Opaque(px)
  {
    seq(n, k requires 0 <= k < n => RawInside(n, k, fmt.BytesPerPixel(), |data|); RawCell(fmt, data, k))
  }

  lemma {:induction false} WiresAt(fmt: Format, px: seq<u32>, k: nat)
    requires k < |px|
    ensures 0 <= k * fmt.BytesPerPixel() <= |E.Wires(fmt, px)| - fmt.BytesPerPixel()
    ensures E.Wires(fmt, px)[k * fmt.BytesPerPixel()..k * fmt.BytesPerPixel() + fmt.BytesPerPixel()] == Wire(fmt, px[k])
    decreases |px|
  {
    hide Wire;
    var n := fmt.BytesPerPixel();
    RawInside(|px|, k, n, |px| * n);
    var last := |px| - 1;
    var head := E.Wires(fmt, px[..last]);
    assert E.Wires(fmt, px) == head + Wire(fmt, px[last]);
    assert |head| == last * n;
    if k < last {
      WiresAt(fmt, px[..last], k);
      assert E.Wires(fmt, px)[k * n..k * n + n] == head[k * n..k * n + n];
    }
  }

  /** The raw rect decodes to the rect's pixels. */
  lemma RawRoundTrip(pic: Picture, x: nat, y: nat, w: nat, h: nat, fmt: Format)
    requires pic.Valid()
    ensures var raw := E.Wires(fmt, E.PixelValues(pic, x, y, w, h, fmt));
            && |raw| == (w * h) * fmt.BytesPerPixel()
            && w * h >= 0 && RawCells(fmt, raw, w * h) == RectShown(pic, x, y, w, h, fmt)
  {
    hide Wire, E.Wires, E.PixelValues, Unwire, ToRgba;
    MulMono(0, h, w);
    var px := E.PixelValues(pic, x, y, w, h, fmt);
    var raw := E.Wires(fmt, px);
    forall k | 0 <= k < |px| ensures RawCells(fmt, raw, |px|)[k] == Meaning(fmt, px[k]) {
      WiresAt(fmt, px, k);
    }
    assert RawCells(fmt, raw, |px|) == Meanings(fmt, px);
  }

  /** The compressed path equals the raw path, whatever tiling the server spends, and the decoder
      stops exactly where the rect does. */
  lemma ZrleEqualsRaw(pic: Picture, x: nat, y: nat, w: nat, h: nat, tiling: E.Tiling, fmt: Format, rest: seq<byte>)
    requires pic.Valid() && CpixelFits(fmt) && x + w <= 0x1_0000 && y + h <= 0x1_0000
    ensures var raw := E.Wires(fmt, E.PixelValues(pic, x, y, w, h, fmt));
            && 0 <= w * h && (w * h) * fmt.BytesPerPixel() == |raw|
            && ReadTiles(fmt, E.RectTiles(pic, x, y, w, h, tiling, fmt) + rest, w, h)
               == Got(RawCells(fmt, raw, w * h), rest)
  {
    hide E.Wires, E.PixelValues, E.RectTiles, ReadTiles, RectShown, RawCells, CpixelFits;
    RectRoundTrip(pic, x, y, w, h, tiling, fmt, rest);
    RawRoundTrip(pic, x, y, w, h, fmt);
  }

  // ---------------------------------------------------------------- exactly when

  /** Both paths give the same pixels and the decoder stops at the rect's last byte. */
  predicate PathsAgree(pic: Picture, x: nat, y: nat, w: nat, h: nat, tiling: E.Tiling, fmt: Format, rest: seq<byte>)
    requires pic.Valid()
  {
    var raw := E.Wires(fmt, E.PixelValues(pic, x, y, w, h, fmt));
    && 0 <= w * h && (w * h) * fmt.BytesPerPixel() <= |raw|
    && ReadTiles(fmt, E.RectTiles(pic, x, y, w, h, tiling, fmt) + rest, w, h) == Got(RawCells(fmt, raw, w * h), rest)
  }

  /** A one-pixel screen sent as a raw tile decodes to what its CPIXEL means. */
  lemma OnePixelTiles(fmt: Format, c: Rgba)
    ensures var pic := Solid(1, 1, c); var v := FromRgba(fmt, c);
            ReadTiles(fmt, E.RectTiles(pic, 0, 0, 1, 1, E.Raw, fmt) + [], 1, 1)
                == Got([FromCpixel(fmt, Cpixel(fmt, v))], [])
  {
    hide FromCpixel, Cpixel, FromRgba, E.TileAt, Place;
    var pic, v := Solid(1, 1, c), FromRgba(fmt, c);
    var tile := E.TileAt(pic, E.Raw, fmt, 0, 0, 1, 1);
    OnePixelTile(fmt, c);
    assert E.TilesFrom(E.Coder(pic, E.Raw, fmt), 0, 1, 1, 0, 1) == [];
    assert E.TilesFrom(E.Coder(pic, E.Raw, fmt), 0, 1, 1, 1, 0) == [];
    assert E.RectTiles(pic, 0, 0, 1, 1, E.Raw, fmt) + [] == tile;
    var shown := [FromCpixel(fmt, Cpixel(fmt, v))];
    OnePixelPlaced(shown);
    assert ReadTile(fmt, tile, 1, 1) == Got(shown, []);
    var out := Place(Fill(CLEAR, 1), 1, 1, 0, 0, shown, 1, 1);
    assert ReadTilesFrom(fmt, [], 1, 1, 0, TILE, out) == Got(out, []);
    assert ReadTilesFrom(fmt, [], 1, 1, TILE, 0, out) == Got(out, []);
  }

  lemma OnePixelPlaced(px: seq<Rgba>)
    requires |px| == 1
    ensures Place(Fill(CLEAR, 1), 1, 1, 0, 0, px, 1, 1) == px
  {
    PlaceAt(Fill(CLEAR, 1), 1, 1, 0, 0, px, 1, 1, 0, 0);
  }

  lemma OnePixelTile(fmt: Format, c: Rgba)
    ensures var pic := Solid(1, 1, c); var v := FromRgba(fmt, c);
            ReadTile(fmt, E.TileAt(pic, E.Raw, fmt, 0, 0, 1, 1), 1, 1) == Got([FromCpixel(fmt, Cpixel(fmt, v))], [])
  {
    hide FromCpixel, FromRgba, Cpixel;
    var pic, v := Solid(1, 1, c), FromRgba(fmt, c);
    E.PixelValueAt(pic, 0, 0, 1, 1, fmt, 0, 0);
    assert E.PixelValues(pic, 0, 0, 1, 1, fmt) == [v];
    var body := Cpixel(fmt, v);
    assert E.Cpixels(fmt, [v][..0]) == [];
    assert E.Cpixels(fmt, [v]) == body;
    assert E.TileAt(pic, E.Raw, fmt, 0, 0, 1, 1) == [0] + body;
    TakeFront([0], body, Protocol);
    assert body + [] == body;
    TakeFront(body, [], Protocol);
    assert ReadCpixel(fmt, body) == Got(FromCpixel(fmt, body), []);
    var none: seq<Rgba> := [];
    assert none + [FromCpixel(fmt, body)] == [FromCpixel(fmt, body)];
    assert ReadCpixels(fmt, [], 0, [FromCpixel(fmt, body)]) == Got([FromCpixel(fmt, body)], []);
    assert ReadCpixels(fmt, body, 1, none) == Got([FromCpixel(fmt, body)], []);
    assert TakeTile([0] + body, 1) == Got([0], body);
  }

  /** Over formats whose fields lie in a 32-bit pixel, the compressed path equals the raw path for every
      picture, rect, tiling and following bytes exactly when the three fields fit in the bytes the
      CPIXEL keeps. */
  lemma ZrleEqualsRawIff(fmt: Format, rb: nat, gb: nat, bb: nat)
    requires FieldsInPixel(fmt, rb, gb, bb)
    ensures CpixelFits(fmt) <==>
      forall pic: Picture, x: nat, y: nat, w: nat, h: nat, tiling: E.Tiling, rest: seq<byte> |
        pic.Valid() && x + w <= 0x1_0000 && y + h <= 0x1_0000 :: PathsAgree(pic, x, y, w, h, tiling, fmt, rest)
  {
    hide PathsAgree, CpixelFits;
    if CpixelFits(fmt) {
      forall pic: Picture, x: nat, y: nat, w: nat, h: nat, tiling: E.Tiling, rest: seq<byte> |
        pic.Valid() && x + w <= 0x1_0000 && y + h <= 0x1_0000
        ensures PathsAgree(pic, x, y, w, h, tiling, fmt, rest)
      {
        PathsDoAgree(pic, x, y, w, h, tiling, fmt, rest);
      }
    } else {
      WhiteDisagrees(fmt, rb, gb, bb);
    }
  }

  lemma PathsDoAgree(pic: Picture, x: nat, y: nat, w: nat, h: nat, tiling: E.Tiling, fmt: Format, rest: seq<byte>)
    requires pic.Valid() && CpixelFits(fmt) && x + w <= 0x1_0000 && y + h <= 0x1_0000
    ensures PathsAgree(pic, x, y, w, h, tiling, fmt, rest)
  {
    hide E.Wires, E.PixelValues, E.RectTiles, ReadTiles, RawCells, CpixelFits;
    ZrleEqualsRaw(pic, x, y, w, h, tiling, fmt, rest);
  }

  /** A white pixel already gives a field that does not fit away. */
  lemma WhiteDisagrees(fmt: Format, rb: nat, gb: nat, bb: nat)
    requires FieldsInPixel(fmt, rb, gb, bb) && !CpixelFits(fmt)
    ensures !PathsAgree(Solid(1, 1, Rgba(255, 255, 255, 255)), 0, 0, 1, 1, E.Raw, fmt, [])
  {
    hide E.Wires, E.PixelValues, E.RectTiles, ReadTiles, RawCells, CpixelFits, FromCpixel, Cpixel, FromRgba, Meaning;
    var white := Rgba(255, 255, 255, 255);
    var pic := Solid(1, 1, white);
    WhiteBreaks(fmt, rb, gb, bb);
    OnePixelTiles(fmt, white);
    RawRoundTrip(pic, 0, 0, 1, 1, fmt);
    RectShownAt(pic, 0, 0, 1, 1, fmt, 0, 0);
  }

  // ---------------------------------------------------------------- any bytes at all

  ghost predicate DoneIsOpaque(out: seq<Rgba>, w: nat, h: nat, tx: nat, ty: nat)
    requires |out| == w * h
  {
    forall px: nat, py: nat | px < w && py < h && Done(px, py, tx, ty) :: At(out, w, h, px, py).a == 255
  }

  lemma OpaqueNext(out: seq<Rgba>, tile: seq<Rgba>, w: nat, h: nat, tx: nat, ty: nat, tw: nat, th: nat)
    requires |out| == w * h && tx < w && ty < h && tw == TileW(w, tx) && th == TileW(h, ty)
    requires |tile| == tw * th && Opaque(tile) && DoneIsOpaque(out, w, h, tx, ty)
    ensures th * tw <= |tile|
    ensures DoneIsOpaque(Place(out, w, h, tx, ty, tile, tw, th), w, h, tx + TILE, ty)
  {
    hide Place, At;
    var next := Place(out, w, h, tx, ty, tile, tw, th);
    forall px: nat, py: nat | px < w && py < h && Done(px, py, tx + TILE, ty)
      ensures At(next, w, h, px, py).a == 255
    {
      PlaceAt(out, w, h, tx, ty, tile, tw, th, px, py);
    }
  }

  lemma {:induction false} TilesOpaque(fmt: Format, data: seq<byte>, w: nat, h: nat, tx: nat, ty: nat, out: seq<Rgba>)
    requires |out| == w * h && DoneIsOpaque(out, w, h, tx, ty)
    ensures ReadTilesFrom(fmt, data, w, h, tx, ty, out).Got?
        ==> Opaque(ReadTilesFrom(fmt, data, w, h, tx, ty, out).value)
    decreases if ty < h then h - ty else 0, if tx < w then w - tx else 0
  {
    hide ReadTile, Place, At;
    if ty >= h {
      forall k | 0 <= k < |out| ensures out[k].a == 255 {
        CellOf(w, h, k);
        CellAt(out, w, h, k);
        assert Done(k % w, k / w, tx, ty);
      }
    } else if tx >= w {
      TilesOpaque(fmt, data, w, h, 0, ty + TILE, out);
    } else {
      var tw, th := TileW(w, tx), TileW(h, ty);
      match ReadTile(fmt, data, tw, th)
      case Bad(_) =>
      case Got(px, rest) =>
        OpaqueNext(out, px, w, h, tx, ty, tw, th);
        TilesOpaque(fmt, rest, w, h, tx + TILE, ty, Place(out, w, h, tx, ty, px, tw, th));
    }
  }

  lemma CellAt(out: seq<Rgba>, w: nat, h: nat, k: nat)
    requires |out| == w * h && k < |out|
    ensures w > 0 && 0 <= k % w < w && 0 <= k / w < h && At(out, w, h, k % w, k / w) == out[k]
  {
    CellOf(w, h, k);
  }

  /** Whatever the bytes and the size, the decoder answers with a protocol error or with exactly
      `w * h` opaque pixels: no hole is left between tiles. */
  lemma DecoderTotal(fmt: Format, data: seq<byte>, w: nat, h: nat)
    ensures match ReadTiles(fmt, data, w, h)
            case Got(px, _) => |px| == w * h && Opaque(px)
            case Bad(e) => e == Protocol
  {
    hide ReadTilesFrom, At;
    assert DoneIsOpaque(Fill(CLEAR, w * h), w, h, 0, 0);
    TilesOpaque(fmt, data, w, h, 0, 0, Fill(CLEAR, w * h));
  }
}
