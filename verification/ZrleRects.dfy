/** ZRLE preserves meaning: a rect's tile stream decodes to what the raw rect decodes to. */
module ZrleRects {
  import opened Bytes
  import opened PixelFormats
  import opened PixelLaws
  import opened Grid
  import opened Pictures
  import opened Reads
  import E = ZrleEncode
  import opened ZrleDecode
  import opened ZrleTiles

  /** What a client shows for a rect of a picture sent in a format. */
  function RectShown(pic: Picture, x: nat, y: nat, w: nat, h: nat, fmt: Format): (px: seq<Rgba>)
    requires pic.Valid()
    ensures |px| == w * h
  {
    Meanings(fmt, E.PixelValues(pic, x, y, w, h, fmt))
  }

  lemma RectShownAt(pic: Picture, x: nat, y: nat, w: nat, h: nat, fmt: Format, c: nat, r: nat)
    requires pic.Valid() && c < w && r < h
    ensures At(RectShown(pic, x, y, w, h, fmt), w, h, c, r) == Meaning(fmt, FromRgba(fmt, pic.Seen(x + c, y + r)))
  {
    hide Meaning, FromRgba, E.PixelValues;
    E.PixelValueAt(pic, x, y, w, h, fmt, c, r);
    IndexInside(w, h, c, r);
  }

  function TileW(w: nat, tx: nat): nat requires tx < w { Min(TILE, w - tx) }

  /** A tile of a rect shows the rect's own cells. */
  lemma TileIsRegion(pic: Picture, x: nat, y: nat, w: nat, h: nat, fmt: Format, tx: nat, ty: nat, tw: nat, th: nat)
    requires pic.Valid() && tx + tw <= w && ty + th <= h
    ensures RectShown(pic, x + tx, y + ty, tw, th, fmt) == Region(RectShown(pic, x, y, w, h, fmt), w, h, tx, ty, tw, th)
  {
    hide RectShown, Region, Meaning, FromRgba;
    var part, whole := RectShown(pic, x + tx, y + ty, tw, th, fmt), RectShown(pic, x, y, w, h, fmt);
    var cut := Region(whole, w, h, tx, ty, tw, th);
    assert |part| == tw * th && |cut| == tw * th;
    forall c, r | 0 <= c < tw && 0 <= r < th ensures At(part, tw, th, c, r) == At(cut, tw, th, c, r) {
      RectShownAt(pic, x + tx, y + ty, tw, th, fmt, c, r);
      RectShownAt(pic, x, y, w, h, fmt, tx + c, ty + r);
      RegionAt(whole, w, h, tx, ty, tw, th, c, r);
    }
    SameCells(part, cut, tw, th);
  }

  /** Every tile's code reads back as the tile's part of the target. */
  ghost predicate CodesRect(code: (nat, nat, nat, nat) -> seq<byte>, fmt: Format, target: seq<Rgba>, x0: nat,
      y0: nat, w: nat, h: nat)
    requires |target| == w * h
  {
    forall tx: nat, ty: nat, rest: seq<byte> | tx < w && ty < h ::
      ReadTile(fmt, code(x0 + tx, y0 + ty, TileW(w, tx), TileW(h, ty)) + rest, TileW(w, tx), TileW(h, ty))
      == Got(Region(target, w, h, tx, ty, TileW(w, tx), TileW(h, ty)), rest)
  }

  /** Cells the decoder has already filled when it stands at `(tx, ty)`. */
  predicate Done(px: nat, py: nat, tx: nat, ty: nat) {
    py < ty || (py < ty + TILE && px < tx)
  }

  ghost predicate Agrees(out: seq<Rgba>, target: seq<Rgba>, w: nat, h: nat, tx: nat, ty: nat)
    requires |out| == w * h && |target| == w * h
  {
    forall px: nat, py: nat | px < w && py < h
        && Done(px, py, tx, ty) :: At(out, w, h, px, py) == At(target, w, h, px, py)
  }

  /** Laying the next tile extends what agrees by exactly that tile. */
  lemma AgreesNext(out: seq<Rgba>, target: seq<Rgba>, w: nat, h: nat, tx: nat, ty: nat)
    requires |out| == w * h && |target| == w * h && tx < w && ty < h && Agrees(out, target, w, h, tx, ty)
    ensures TileW(h, ty) * TileW(w, tx) <= |Region(target, w, h, tx, ty, TileW(w, tx), TileW(h, ty))|
    ensures Agrees(Place(out, w, h, tx, ty, Region(target, w, h, tx, ty, TileW(w, tx), TileW(h, ty)), TileW(w, tx),
        TileW(h, ty)),
                   target, w, h, tx + TILE, ty)
  {
    hide Place, Region, At;
    var tw, th := TileW(w, tx), TileW(h, ty);
    var tile := Region(target, w, h, tx, ty, tw, th);
    assert |tile| == th * tw;
    var next := Place(out, w, h, tx, ty, tile, tw, th);
    forall px: nat, py: nat | px < w && py < h && Done(px, py, tx + TILE, ty)
      ensures At(next, w, h, px, py) == At(target, w, h, px, py)
    {
      PlaceAt(out, w, h, tx, ty, tile, tw, th, px, py);
      if tx <= px < tx + tw && ty <= py < ty + th {
        RegionAt(target, w, h, tx, ty, tw, th, px - tx, py - ty);
        TileCell(tile, tw, th, px - tx, py - ty);
      }
    }
  }

  lemma TileCell(tile: seq<Rgba>, tw: nat, th: nat, c: nat, r: nat)
    requires |tile| == tw * th && c < tw && r < th
    ensures 0 <= r * tw + c < |tile| && At(tile, tw, th, c, r) == tile[r * tw + c]
  {
    IndexInside(tw, th, c, r);
  }

  /** The decoder, standing where the encoder stands, rebuilds the rest of the rect. */
  lemma {:induction false} TilesRead(code: (nat, nat, nat, nat) -> seq<byte>, fmt: Format, target: seq<Rgba>,
      out: seq<Rgba>,
                                     x0: nat, y0: nat, w: nat, h: nat, tx: nat, ty: nat, rest: seq<byte>)
    requires |target| == w * h && |out| == w * h
    requires CodesRect(code, fmt, target, x0, y0, w, h) && Agrees(out, target, w, h, tx, ty)
    ensures ReadTilesFrom(fmt, E.TilesFrom(code, x0, x0 + w, y0 + h, x0 + Min(tx, w), y0 + Min(ty, h)) + rest, w, h,
        tx, ty, out)
         == Got(target, rest)
    decreases if ty < h then h - ty else 0, if tx < w then w - tx else 0
  {
    hide ReadTile, Place, Region, At;
    var data := E.TilesFrom(code, x0, x0 + w, y0 + h, x0 + Min(tx, w), y0 + Min(ty, h));
    if ty >= h {
      assert [] + rest == rest;
      SameCells(out, target, w, h) by {
        forall x, y | 0 <= x < w && 0 <= y < h ensures At(out, w, h, x, y) == At(target, w, h, x, y) {
          assert Done(x, y, tx, ty);
        }
      }
    } else if tx >= w {
      assert (y0 + ty) + Min(E.TILE, (y0 + h) - (y0 + ty)) == y0 + Min(ty + TILE, h);
      TilesRead(code, fmt, target, out, x0, y0, w, h, 0, ty + TILE, rest);
    } else {
      var tw, th := TileW(w, tx), TileW(h, ty);
      var piece := code(x0 + tx, y0 + ty, tw, th);
      var tail := E.TilesFrom(code, x0, x0 + w, y0 + h, x0 + tx + tw, y0 + ty);
      assert data == piece + tail;
      Regroup(piece, tail, rest);
      assert ReadTile(fmt, piece + (tail + rest), tw, th) == Got(Region(target, w, h, tx, ty, tw, th), tail + rest);
      AgreesNext(out, target, w, h, tx, ty);
      var next := Place(out, w, h, tx, ty, Region(target, w, h, tx, ty, tw, th), tw, th);
      assert x0 + tx + tw == x0 + Min(tx + TILE, w);
      TilesRead(code, fmt, target, next, x0, y0, w, h, tx + TILE, ty, rest);
    }
  }

  lemma ColoursSurvive(pic: Picture, x: nat, y: nat, w: nat, h: nat, fmt: Format)
    requires pic.Valid() && CpixelFits(fmt)
    ensures AllSurvive(fmt, E.PixelValues(pic, x, y, w, h, fmt))
  {
    hide Survives, CpixelFits, FromRgba;
    var px := E.PixelValues(pic, x, y, w, h, fmt);
    forall k | 0 <= k < |px| ensures Survives(fmt, px[k]) {
      CellOf(w, h, k);
      CpixelSurvives(fmt, pic.Seen(x + k % w, y + k / w));
    }
  }

  /** The server's tile coder codes the rect, as long as no coordinate is cut to 16 bits. */
  lemma CoderCodesRect(pic: Picture, x: nat, y: nat, w: nat, h: nat, tiling: E.Tiling, fmt: Format)
    requires pic.Valid() && CpixelFits(fmt) && x + w <= 0x1_0000 && y + h <= 0x1_0000
    ensures CodesRect(E.Coder(pic, tiling, fmt), fmt, RectShown(pic, x, y, w, h, fmt), x, y, w, h)
  {
    hide RectShown, Region, ReadTile, CpixelFits, E.TileAt;
    var target := RectShown(pic, x, y, w, h, fmt);
    var code := E.Coder(pic, tiling, fmt);
    forall tx: nat, ty: nat, rest: seq<byte> | tx < w && ty < h
      ensures ReadTile(fmt, code(x + tx, y + ty, TileW(w, tx), TileW(h, ty)) + rest, TileW(w, tx), TileW(h, ty))
           == Got(Region(target, w, h, tx, ty, TileW(w, tx), TileW(h, ty)), rest)
    {
      OneTile(pic, x, y, w, h, tiling, fmt, tx, ty, rest);
    }
  }

  lemma OneTile(pic: Picture, x: nat, y: nat, w: nat, h: nat, tiling: E.Tiling, fmt: Format, tx: nat, ty: nat,
      rest: seq<byte>)
    requires pic.Valid() && CpixelFits(fmt) && x + w <= 0x1_0000 && y + h <= 0x1_0000 && tx < w && ty < h
    ensures var tw, th := TileW(w, tx), TileW(h, ty);
            ReadTile(fmt, E.TileAt(pic, tiling, fmt, x + tx, y + ty, tw, th) + rest, tw, th)
            == Got(Region(RectShown(pic, x, y, w, h, fmt), w, h, tx, ty, tw, th), rest)
  {
    hide Region, ReadTile, CpixelFits, AllSurvive, E.TileBytes, E.PixelValues, Meanings;
    var tw, th := TileW(w, tx), TileW(h, ty);
    assert 0 < tw <= w - tx && 0 < th <= h - ty;
    hide TileW;
    MulMono(1, th, tw);
    ColoursSurvive(pic, x + tx, y + ty, tw, th, fmt);
    TileRoundTrip(fmt, tiling, E.PixelValues(pic, x + tx, y + ty, tw, th, fmt), tw, th, rest);
    TileIsRegion(pic, x, y, w, h, fmt, tx, ty, tw, th);
  }

  /** For every picture, rect, tiling and format whose CPIXELs fit, decoding the tile stream gives
      the rect's pixels and stops exactly at its last byte. */
  lemma RectRoundTrip(pic: Picture, x: nat, y: nat, w: nat, h: nat, tiling: E.Tiling, fmt: Format, rest: seq<byte>)
    requires pic.Valid() && CpixelFits(fmt) && x + w <= 0x1_0000 && y + h <= 0x1_0000
    ensures ReadTiles(fmt, E.RectTiles(pic, x, y, w, h, tiling, fmt) + rest, w, h)
         == Got(RectShown(pic, x, y, w, h, fmt), rest)
  {
    hide RectShown, CpixelFits, E.TilesFrom, ReadTilesFrom, CodesRect;
    CoderCodesRect(pic, x, y, w, h, tiling, fmt);
    var blank := Fill(CLEAR, w * h);
    assert Agrees(blank, RectShown(pic, x, y, w, h, fmt), w, h, 0, 0);
    TilesRead(E.Coder(pic, tiling, fmt), fmt, RectShown(pic, x, y, w, h, fmt), blank, x, y, w, h, 0, 0, rest);
  }
}
