/** Painting the client's framebuffer: pictures laid over it, and regions moved within it. */
module Framebuffers {
  import opened Bytes
  import opened PixelFormats
  import opened Grid
  import opened Pictures
  import opened Rasters
  import opened Reads
  import opened RawRects
  import opened ZrleDecoder

  // ---------------------------------------------------------------- what painting means

  predicate InBounds(p: Picture, x: u16, y: u16, w: u16, h: u16) {
    x + w <= p.width && y + h <= p.height
  }

  /** Lay `w * h` pixels over a picture; refuse a rect that does not fit or comes up short. */
  function Paint(p: Picture, x: u16, y: u16, w: u16, h: u16, px: seq<Rgba>): (r: Result<Picture>)
    requires p.Valid()
    ensures r.Ok? <==> InBounds(p, x, y, w, h) && |px| >= w * h
    ensures r.Ok? ==> r.value.Valid() && r.value.width == p.width && r.value.height == p.height
    ensures r.Err? ==> r.error == Protocol
  {
    if !InBounds(p, x, y, w, h) || |px| < w * h then Err(Protocol)
    else
      assert h * w <= |px|;
      Ok(p.(px := Place(p.px, p.width, p.height, x, y, px, w, h)))
  }

  function PaintRaw(p: Picture, x: u16, y: u16, w: u16, h: u16, fmt: Format, data: seq<byte>): (r: Result<Picture>)
    requires p.Valid()
    ensures r.Ok? ==> r.value.Valid() && r.value.width == p.width && r.value.height == p.height
  {
    MulMono(0, h, w);
    var n := w * h;
    if !InBounds(p, x, y, w, h) || |data| < n * fmt.BytesPerPixel() then Err(Protocol)
    else Paint(p, x, y, w, h, RawCells(fmt, data, n))
  }

  /** Move a region of a picture onto another part of itself. */
  function Move(p: Picture, x: u16, y: u16, w: u16, h: u16, srcX: u16, srcY: u16): (r: Result<Picture>)
    requires p.Valid()
    ensures r.Ok? <==> InBounds(p, x, y, w, h) && InBounds(p, srcX, srcY, w, h)
    ensures r.Ok? ==> r.value.Valid() && r.value.width == p.width && r.value.height == p.height
  {
    if !InBounds(p, x, y, w, h) || !InBounds(p, srcX, srcY, w, h) then Err(Protocol)
    else
      assert h * w == w * h;
      Paint(p, x, y, w, h, Region(p.px, p.width, p.height, srcX, srcY, w, h))
  }

  /** Every destination pixel of a move is the old source pixel, whichever way the two regions
      overlap; every other pixel is untouched. */
  lemma MoveIsSimultaneous(p: Picture, x: u16, y: u16, w: u16, h: u16, srcX: u16, srcY: u16, px: nat, py: nat)
    requires p.Valid() && InBounds(p, x, y, w, h) && InBounds(p, srcX, srcY, w, h) && px < p.width && py < p.height
    ensures Move(p, x, y, w, h, srcX, srcY).value.Pixel(px, py)
         == if x <= px < x + w && y <= py < y + h then p.Pixel(srcX + (px - x), srcY + (py - y)) else p.Pixel(px, py)
  {
    hide Place, Region;
    var cut := Region(p.px, p.width, p.height, srcX, srcY, w, h);
    Commute(w, h);
    assert Move(p, x, y, w, h, srcX, srcY).value.px == Place(p.px, p.width, p.height, x, y, cut, w, h);
    hide Move;
    PlaceAt(p.px, p.width, p.height, x, y, cut, w, h, px, py);
    if x <= px < x + w && y <= py < y + h {
      RegionAt(p.px, p.width, p.height, srcX, srcY, w, h, px - x, py - y);
      IndexInside(w, h, px - x, py - y);
    }
  }

  // ---------------------------------------------------------------- the loops

  method CheckBounds(fb: Raster, x: u16, y: u16, w: u16, h: u16) returns (failed: Option<Error>)
    requires fb.Valid()
    ensures failed == if InBounds(fb.Shown(), x, y, w, h) then None else Some(Protocol)
  {
    if x + w > fb.width || y + h > fb.height {
      return Some(Protocol);
    }
    failed := None;
  }

  /** `blit_rgba`, against `Paint`. */
  method BlitRgba(fb: Raster, x: u16, y: u16, w: u16, h: u16, rgba: seq<byte>) returns (failed: Option<Error>)
    requires fb.Valid() && |rgba| % 4 == 0
    modifies fb.rgba
    ensures fb.Valid() && fb.rgba == old(fb.rgba)
    ensures match Paint(old(fb.Shown()), x, y, w, h, Cells(rgba))
            case Ok(p) => failed == None && fb.Shown() == p
            case Err(e) => failed == Some(e) && fb.Shown() == old(fb.Shown())
  {
    failed := CheckBounds(fb, x, y, w, h);
    if failed.Some? {
      return;
    }
    MulMono(0, h, w);
    if |rgba| < w * h * 4 {
      return Some(Protocol);
    }
    assert h * w == w * h;
    PlaceBytes(fb.rgba, fb.width, fb.height, x, y, rgba, w, h);
  }

  lemma RawCellsAt(fmt: Format, data: seq<byte>, n: nat, k: nat)
    requires n * fmt.BytesPerPixel() <= |data| && k < n
    ensures 0 <= k * fmt.BytesPerPixel() <= |data| - fmt.BytesPerPixel()
    ensures RawCells(fmt, data, n)[k] == RawCell(fmt, data, k)
  {
    RawInside(n, k, fmt.BytesPerPixel(), |data|);
  }

  /** `blit_raw`, against `PaintRaw`. */
  method BlitRaw(fb: Raster, x: u16, y: u16, w: u16, h: u16, fmt: Format, data: seq<byte>)
      returns (failed: Option<Error>)
    requires fb.Valid()
    modifies fb.rgba
    ensures fb.Valid() && fb.rgba == old(fb.rgba)
    ensures match PaintRaw(old(fb.Shown()), x, y, w, h, fmt, data)
            case Ok(p) => failed == None && fb.Shown() == p
            case Err(e) => failed == Some(e) && fb.Shown() == old(fb.Shown())
  {
    failed := CheckBounds(fb, x, y, w, h);
    if failed.Some? {
      return;
    }
    var bpp := fmt.BytesPerPixel();
    MulMono(0, h, w);
    var rows: nat := h;
    assert rows * w == w * rows;
    if |data| < w * h * bpp {
      return Some(Protocol);
    }
    hide Cells, Place, RawCells;
    DrawRaw(fb.rgba, fb.width, fb.height, x, y, w, h, fmt, data);
  }

  /** The outer loop of `blit_raw`: one row of the rect after another. */
  method DrawRaw(out: array<byte>, width: nat, height: nat, x: nat, y: nat, w: nat, h: nat, fmt: Format,
      data: seq<byte>)
    requires width * height >= 0 && out.Length == 4 * (width * height) && x + w <= width && y + h <= height
    requires 0 <= w * h && w * h * fmt.BytesPerPixel() <= |data| && h * w == w * h
    modifies out
    ensures Cells(out[..]) == Place(old(Cells(out[..])), width, height, x, y, RawCells(fmt, data, w * h), w, h)
  {
    hide Cells, Place, Placed, Splice, RawCells;
    ghost var was := Cells(out[..]);
    ghost var px := RawCells(fmt, data, w * h);
    ghost var n := width * height;
    PlacedNone(was, width, height, x, y, px, w);
    PlacedAll(was, width, height, x, y, px, w, h);
    for row := 0 to h
      invariant out.Length == 4 * n
      invariant Cells(out[..]) == Placed(was, width, height, x, y, px, w, row)
    {
      RawRow(out, width, height, x, y + row, w, h, row, fmt, data, px);
      PlacedNext(was, width, height, x, y, px, w, row, h);
    }
  }

  /** The inner loop of `blit_raw`: one row of pixels, each to its own four bytes. */
  method RawRow(out: array<byte>, width: nat, height: nat, x: nat, at: nat, w: nat, h: nat, row: nat,
                fmt: Format, data: seq<byte>, ghost px: seq<Rgba>)
    requires width * height >= 0 && out.Length == 4 * (width * height) && x + w <= width && at < height && row < h
    requires 0 <= w * h && w * h * fmt.BytesPerPixel() <= |data| && px == RawCells(fmt, data, w * h)
    modifies out
    ensures 0 <= row * w && row * w + w <= |px| && 0 <= at * width + x && at * width + x + w <= width * height
    ensures Cells(out[..]) == Splice(old(Cells(out[..])), at * width + x, px[row * w..row * w + w])
  {
    hide RawCells, RawCell, Cells, Splice, ToRgba, Unwire;
    RunInside(width, height, x, at, w);
    RunInside(w, h, 0, row, w);
    var bpp := fmt.BytesPerPixel();
    var start, first := at * width + x, row * w;
    ghost var was := Cells(out[..]);
    ghost var cells := px[first..first + w];
    ghost var n := width * height;
    SpliceNone(was, start, cells);
    for col := 0 to w
      invariant out.Length == 4 * n
      invariant Cells(out[..]) == Splice(was, start, cells[..col])
    {
      RawCellsAt(fmt, data, w * h, first + col);
      var src := (first + col) * bpp;
      var v := ReadPixel(fmt, data[src..src + bpp]);
      assert data[src..src + bpp][..bpp] == data[src..src + bpp];
      var rgba := ToRgba(fmt, v);
      assert rgba == cells[col] by { RawCellIs(fmt, data, first + col); }
      SpliceNext(was, start, cells, col);
      CellsOne(rgba);
      CellsSplice(out[..], start + col, RgbaBytes(rgba));
      CopyFromSlice(out, 4 * (start + col), RgbaBytes(rgba));
    }
    assert cells[..w] == cells;
  }

  lemma RawCellIs(fmt: Format, data: seq<byte>, k: nat)
    requires 0 <= k * fmt.BytesPerPixel() <= |data| - fmt.BytesPerPixel()
    ensures RawCell(fmt, data, k)
         == ToRgba(fmt, Unwire(fmt, data[k * fmt.BytesPerPixel()..k * fmt.BytesPerPixel() + fmt.BytesPerPixel()]))
  {
  }

  /** `copy_rect`: copy the source out whole, then write it back. */
  method CopyRect(fb: Raster, x: u16, y: u16, w: u16, h: u16, srcX: u16, srcY: u16) returns (failed: Option<Error>)
    requires fb.Valid()
    modifies fb.rgba
    ensures fb.Valid() && fb.rgba == old(fb.rgba)
    ensures match Move(old(fb.Shown()), x, y, w, h, srcX, srcY)
            case Ok(p) => failed == None && fb.Shown() == p
            case Err(e) => failed == Some(e) && fb.Shown() == old(fb.Shown())
  {
    failed := CheckBounds(fb, x, y, w, h);
    if failed.Some? {
      return;
    }
    failed := CheckBounds(fb, srcX, srcY, w, h);
    if failed.Some? {
      return;
    }
    var scratch := CopyOut(fb, srcX, srcY, w, h);
    assert h * w == w * h;
    PlaceBytes(fb.rgba, fb.width, fb.height, x, y, scratch, w, h);
  }

  /** The first loop of `copy_rect`: a region's rows, end to end. */
  method CopyOut(fb: Raster, x: u16, y: u16, w: u16, h: u16) returns (scratch: seq<byte>)
    requires fb.Valid() && InBounds(fb.Shown(), x, y, w, h)
    ensures |scratch| % 4 == 0
    ensures Cells(scratch) == Region(fb.Shown().px, fb.width, fb.height, x, y, w, h)
  {
    hide Cells, Region;
    scratch := [];
    ghost var px := fb.Shown().px;
    var width: nat, height: nat, rh: nat := fb.width, fb.height, h;
    RegionNone(px, width, height, x, y, w);
    for row := 0 to rh
      invariant |scratch| % 4 == 0
      invariant Cells(scratch) == Region(px, width, height, x, y, w, row)
    {
      RegionNext(px, width, height, x, y, w, row);
      var from := (y + row) * width + x;
      CellsSlice(fb.rgba[..], from, from + w);
      ghost var piece := fb.rgba[..][4 * from..4 * (from + w)];
      assert fb.rgba[4 * from..4 * (from + w)] == piece;
      CellsAppend(scratch, piece);
      scratch := scratch + fb.rgba[4 * from..4 * (from + w)];
    }
  }

  lemma RegionNone(px: seq<Rgba>, w: nat, h: nat, x: nat, y: nat, tw: nat)
    requires |px| == w * h && x + tw <= w && y <= h
    ensures Region(px, w, h, x, y, tw, 0) == [] == Cells([])
  {
  }

  lemma RegionNext(px: seq<Rgba>, w: nat, h: nat, x: nat, y: nat, tw: nat, row: nat)
    requires |px| == w * h && x + tw <= w && y + row < h
    ensures 0 <= (y + row) * w + x && (y + row) * w + x + tw <= w * h
    ensures Region(px, w, h, x, y, tw, row + 1)
         == Region(px, w, h, x, y, tw, row) + px[(y + row) * w + x..(y + row) * w + x + tw]
  {
    RunInside(w, h, x, y + row, tw);
  }
}
