/** The loops of the server's encoders, each proved to write what `ZrleEncode` says. */
module ZrleEncoder {
  import opened Bytes
  import opened PixelFormats
  import opened Grid
  import opened Pictures
  import opened Rasters
  import opened ZrleEncode

  lemma NextCell(w: nat, h: nat, col: nat, row: nat)
    requires col < w && row < h
    ensures 0 <= row * w + col < w * h
    ensures (row * w + col) / w == row && (row * w + col) % w == col
  {
    IndexInside(w, h, col, row);
    DivModUnique(row * w + col, w, row, col);
  }

  lemma WiresNext(fmt: Format, px: seq<u32>, k: nat)
    requires k < |px|
    ensures Wires(fmt, px[..k + 1]) == Wires(fmt, px[..k]) + Wire(fmt, px[k])
  {
    assert px[..k + 1][..k] == px[..k];
  }

  lemma RawNext(pic: Picture, x: nat, y: nat, w: nat, h: nat, fmt: Format, col: nat, row: nat)
    requires pic.Valid() && col < w && row < h
    ensures var px := PixelValues(pic, x, y, w, h, fmt);
      && 0 <= row * w + col < |px|
      && px[row * w + col] == FromRgba(fmt, pic.Seen(x + col, y + row))
      && Wires(fmt, px[..row * w + col + 1])
         == Wires(fmt, px[..row * w + col]) + Wire(fmt, FromRgba(fmt, pic.Seen(x + col, y + row)))
  {
    hide Wires, Wire, FromRgba, PixelValues;
    NextCell(w, h, col, row);
    PixelValueAt(pic, x, y, w, h, fmt, col, row);
    WiresNext(fmt, PixelValues(pic, x, y, w, h, fmt), row * w + col);
  }

  /** `raw_rect`, against `Wires` of `PixelValues`. */
  method RawRect(screen: Raster, x: u16, y: u16, w: u16, h: u16, fmt: Format) returns (out: seq<byte>)
    requires screen.Valid()
    ensures out == Wires(fmt, PixelValues(screen.Shown(), x, y, w, h, fmt))
  {
    hide PixelValues, FromRgba, Wire;
    ghost var px := PixelValues(screen.Shown(), x, y, w, h, fmt);
    out := [];
    for row := 0 to h
      invariant 0 <= row * w <= |px| && out == Wires(fmt, px[..row * w])
    {
      MulMono(row + 1, h, w);
      for col := 0 to w
        invariant 0 <= row * w + col <= |px| && out == Wires(fmt, px[..row * w + col])
      {
        RawNext(screen.Shown(), x, y, w, h, fmt, col, row);
        var rgba := screen.Seen(x, col, y, row);
        out := WritePixel(fmt, FromRgba(fmt, rgba), out);
      }
      assert (row + 1) * w == row * w + w;
    }
    assert px[..h * w] == px;
  }

  /** `tile_pixels`: one tile's pixel values. */
  method TilePixels(screen: Raster, x: u16, y: u16, w: u16, h: u16, fmt: Format) returns (px: seq<u32>)
    requires screen.Valid()
    ensures px == PixelValues(screen.Shown(), x, y, w, h, fmt)
  {
    hide PixelValues, FromRgba, Wires;
    ghost var all := PixelValues(screen.Shown(), x, y, w, h, fmt);
    px := [];
    for row := 0 to h
      invariant 0 <= row * w <= |all| && px == all[..row * w]
    {
      MulMono(row + 1, h, w);
      for col := 0 to w
        invariant 0 <= row * w + col <= |all| && px == all[..row * w + col]
      {
        RawNext(screen.Shown(), x, y, w, h, fmt, col, row);
        var rgba := screen.Seen(x, col, y, row);
        px := px + [FromRgba(fmt, rgba)];
      }
      assert (row + 1) * w == row * w + w;
    }
  }

  /** `write_cpixel`, against `Cpixel`. */
  method WriteCpixel(fmt: Format, pixel: u32, out: seq<byte>) returns (r: seq<byte>)
    ensures r == out + Cpixel(fmt, pixel)
  {
    hide Be, Le, Wire;
    var wire := WritePixel(fmt, pixel, []);
    assert wire == Wire(fmt, pixel);
    var off := fmt.CpixelOffset();
    var n := Min(fmt.CpixelBytes(), |wire| - off);
    r := out + wire[off..off + n];
  }

  method WriteCpixels(fmt: Format, px: seq<u32>, out: seq<byte>) returns (r: seq<byte>)
    ensures r == out + Cpixels(fmt, px)
  {
    hide Cpixel;
    r := out;
    for i := 0 to |px|
      invariant r + Cpixels(fmt, px[i..]) == out + Cpixels(fmt, px)
    {
      assert px[i..][1..] == px[i + 1..];
      Regroup(r, Cpixel(fmt, px[i]), Cpixels(fmt, px[i + 1..]));
      r := WriteCpixel(fmt, px[i], r);
    }
  }

  /** `palette_of`: stop as soon as the palette is too big to be one. */
  method BuildPalette(px: seq<u32>) returns (palette: seq<u32>)
    ensures palette == PaletteOf(px)
  {
    palette := [];
    for i := 0 to |px|
      invariant palette == PaletteOf(px[..i]) && |palette| <= 128
    {
      assert px[..i + 1][..i] == px[..i];
      if px[i] !in palette {
        palette := palette + [px[i]];
        if |palette| > 128 {
          PaletteStuck(px, i + 1);
          return;
        }
      }
    }
    assert px[..|px|] == px;
  }

  lemma {:induction false} PaletteStuck(px: seq<u32>, i: nat)
    requires i <= |px| && |PaletteOf(px[..i])| > 128
    ensures PaletteOf(px) == PaletteOf(px[..i])
    decreases |px| - i
  {
    if i == |px| {
      assert px[..i] == px;
    } else {
      assert px[..i + 1][..i] == px[..i];
      PaletteStuck(px, i + 1);
    }
  }

  /** `runs_of`: lengthen the last run or start a new one. */
  lemma NoRuns()
    ensures RunsOf([]) == []
  {
  }

  lemma RunsNext(px: seq<u32>, i: nat)
    requires i < |px|
    ensures var runs := RunsOf(px[..i]); var last := |runs| - 1;
      RunsOf(px[..i + 1])
      == if |runs| > 0 && runs[last].value == px[i] then runs[..last] + [Run(px[i], runs[last].len + 1)]
         else runs + [Run(px[i], 1)]
  {
    assert px[..i + 1][..i] == px[..i];
  }

  method BuildRuns(px: seq<u32>) returns (runs: seq<Run>)
    ensures runs == RunsOf(px)
  {
    hide RunsOf;
    runs := [];
    assert RunsOf([]) == [] by { NoRuns(); }
    for i := 0 to |px|
      invariant runs == RunsOf(px[..i])
    {
      RunsNext(px, i);
      var last := |runs| - 1;
      if |runs| > 0 && runs[last].value == px[i] {
        runs := runs[..last] + [Run(px[i], runs[last].len + 1)];
      } else {
        runs := runs + [Run(px[i], 1)];
      }
    }
    assert px[..|px|] == px;
  }

  /** `iter().position()`. */
  method FindPosition(palette: seq<u32>, p: u32) returns (i: nat)
    requires p in palette
    ensures i < |palette| && i == Position(palette, p)
  {
    i := 0;
    while palette[i] != p
      invariant i < |palette| && p in palette[i..]
      invariant i + Position(palette[i..], p) == Position(palette, p)
      decreases |palette| - i
    {
      assert palette[i..][1..] == palette[i + 1..];
      i := i + 1;
    }
  }

  method WriteRunLength(len: nat, out: seq<byte>) returns (r: seq<byte>)
    requires len >= 1
    ensures r == out + LengthBytes(len - 1)
  {
    var n := len - 1;
    r := out;
    while n >= 255
      invariant n >= 0 && r + LengthBytes(n) == out + LengthBytes(len - 1)
    {
      r := r + [255];
      n := n - 255;
    }
    r := r + [n];
  }

  /** One row of packed indices, most significant bit first, padded with zeroes. */
  method WritePackedRow(row: seq<u32>, palette: seq<u32>, bits: nat, out: seq<byte>) returns (r: seq<byte>)
    requires forall i :: 0 <= i < |row| ==> row[i] in palette
    requires bits in {1, 2, 4} && |palette| <= Pow2(bits)
    ensures r == out + PackRow(row, palette, bits, 0, 0)
  {
    var acc: nat, used: nat := 0, 0;
    assert PackState(palette, bits, 0, 0) by { Pow2Table(); }
    assert row[0..] == row;
    hide Position, BitOr, Pow2, PackRow, PackState;
    r := out;
    for i := 0 to |row|
      invariant PackState(palette, bits, acc, used)
      invariant r + PackRow(row[i..], palette, bits, acc, used) == out + PackRow(row, palette, bits, 0, 0)
    {
      var idx := FindPosition(palette, row[i]);
      PackNext(row, palette, bits, acc, used, i, idx);
      acc := BitOr(acc * Pow2(bits), idx);
      used := used + bits;
      if used == 8 {
        Regroup(r, [acc], PackRow(row[i + 1..], palette, bits, 0, 0));
        r := r + [acc];
        acc := 0;
        used := 0;
      }
    }
    PackEnd(palette, bits, acc, used);
    assert row[|row|..] == [];
    if used > 0 {
      r := r + [acc * Pow2(8 - used)];
    }
  }

  lemma NoMoreRows(w: nat, palette: seq<u32>, bits: nat)
    requires w > 0 && bits in {1, 2, 4} && |palette| <= Pow2(bits)
    ensures PackRows([], w, palette, bits) == []
  {
  }

  lemma OneMoreRow(px: seq<u32>, at: nat, n: nat, w: nat, palette: seq<u32>, bits: nat)
    requires w > 0 && at < |px| && n == Min(w, |px| - at)
    requires (forall i :: 0 <= i < |px| ==> px[i] in palette) && PackState(palette, bits, 0, 0)
    ensures at + n <= |px|
    ensures PackRows(px[at..], w, palette, bits)
         == PackRow(px[at..at + n], palette, bits, 0, 0) + PackRows(px[at + n..], w, palette, bits)
  {
    hide PackRow;
    assert px[at..][..n] == px[at..at + n] && px[at..][n..] == px[at + n..];
  }

  method WritePacked(px: seq<u32>, w: nat, palette: seq<u32>, bits: nat, out: seq<byte>) returns (r: seq<byte>)
    requires w > 0
    requires forall i :: 0 <= i < |px| ==> px[i] in palette
    requires bits in {1, 2, 4} && |palette| <= Pow2(bits)
    ensures r == out + PackRows(px, w, palette, bits)
  {
    hide PackRow, PackRows;
    r := out;
    var at := 0;
    assert px[0..] == px && px[|px|..] == [];
    NoMoreRows(w, palette, bits);
    while at < |px|
      invariant 0 <= at <= |px|
      invariant r + PackRows(px[at..], w, palette, bits) == out + PackRows(px, w, palette, bits)
    {
      var n := Min(w, |px| - at);
      OneMoreRow(px, at, n, w, palette, bits);
      Regroup(r, PackRow(px[at..at + n], palette, bits, 0, 0), PackRows(px[at + n..], w, palette, bits));
      r := WritePackedRow(px[at..at + n], palette, bits, r);
      at := at + n;
    }
  }

  method WritePlainRuns(fmt: Format, runs: seq<Run>, out: seq<byte>) returns (r: seq<byte>)
    requires forall i :: 0 <= i < |runs| ==> runs[i].len >= 1
    ensures r == out + PlainRuns(fmt, runs)
  {
    hide Cpixel, LengthBytes;
    r := out;
    for i := 0 to |runs|
      invariant r + PlainRuns(fmt, runs[i..]) == out + PlainRuns(fmt, runs)
    {
      assert runs[i..][1..] == runs[i + 1..];
      ghost var a, b := Cpixel(fmt, runs[i].value), LengthBytes(runs[i].len - 1);
      Regroup(r, a + b, PlainRuns(fmt, runs[i + 1..]));
      Regroup(r, a, b);
      r := WriteCpixel(fmt, runs[i].value, r);
      r := WriteRunLength(runs[i].len, r);
    }
  }

  lemma PaletteRunsEnd(palette: seq<u32>)
    requires |palette| <= 128
    ensures PaletteRuns(palette, []) == []
  {
  }

  lemma PaletteRunsNext(palette: seq<u32>, runs: seq<Run>, i: nat)
    requires |palette| <= 128 && i < |runs|
    requires forall i :: 0 <= i < |runs| ==> runs[i].len >= 1 && runs[i].value in palette
    ensures PaletteRuns(palette, runs[i..]) == PaletteRun(palette, runs[i]) + PaletteRuns(palette, runs[i + 1..])
  {
    assert runs[i..][1..] == runs[i + 1..];
  }

  method WritePaletteRuns(palette: seq<u32>, runs: seq<Run>, out: seq<byte>) returns (r: seq<byte>)
    requires |palette| <= 128
    requires forall i :: 0 <= i < |runs| ==> runs[i].len >= 1 && runs[i].value in palette
    ensures r == out + PaletteRuns(palette, runs)
  {
    hide PaletteRuns;
    r := out;
    assert runs[0..] == runs && runs[|runs|..] == [];
    PaletteRunsEnd(palette);
    for i := 0 to |runs|
      invariant r + PaletteRuns(palette, runs[i..]) == out + PaletteRuns(palette, runs)
    {
      PaletteRunsNext(palette, runs, i);
      Regroup(r, PaletteRun(palette, runs[i]), PaletteRuns(palette, runs[i + 1..]));
      r := WritePaletteRun(palette, runs[i], r);
    }
  }

  method WritePaletteRun(palette: seq<u32>, run: Run, out: seq<byte>) returns (r: seq<byte>)
    requires |palette| <= 128 && run.len >= 1 && run.value in palette
    ensures r == out + PaletteRun(palette, run)
  {
    hide Position, LengthBytes;
    var idx := FindPosition(palette, run.value);
    if run.len == 1 {
      r := out + [idx];
    } else {
      r := WriteRunLength(run.len, out + [idx + 128]);
    }
  }

  /** A subencoding byte and the palette; `tail` is what the caller writes next. */
  method WriteWithPalette(fmt: Format, sub: byte, palette: seq<u32>, out: seq<byte>, ghost tail: seq<byte>)
      returns (r: seq<byte>)
    ensures r + tail == out + ([sub] + Cpixels(fmt, palette) + tail)
  {
    Regroup(out, [sub], Cpixels(fmt, palette));
    Regroup(out, [sub] + Cpixels(fmt, palette), tail);
    r := WriteCpixels(fmt, palette, out + [sub]);
  }

  /** `encode_tile`, against `TileBytes`. */
  method EncodeTile(px: seq<u32>, w: nat, tiling: Tiling, fmt: Format, out: seq<byte>) returns (r: seq<byte>)
    requires w > 0
    ensures r == out + TileBytes(px, w, tiling, fmt)
  {
    var palette := BuildPalette(px);
    var runs := BuildRuns(px);
    PaletteCovers(px);
    RunsCover(px);
    r := WriteTile(Chosen(tiling, |palette|, |runs|, |px|), px, w, palette, runs, fmt, out);
  }

  method WriteTile(chosen: Tiling, px: seq<u32>, w: nat, palette: seq<u32>, runs: seq<Run>, fmt: Format, out: seq<byte>)
    returns (r: seq<byte>)
    requires w > 0 && Describes(chosen, px, palette, runs)
    ensures r == out + TileBody(chosen, px, w, palette, runs, fmt)
  {
    hide Cpixel, Cpixels, PackRows, PlainRuns, PaletteRuns;
    match chosen {
      case Auto =>
        Regroup(out, [0], Cpixels(fmt, px));
        r := WriteCpixels(fmt, px, out + [0]);
      case Raw =>
        Regroup(out, [0], Cpixels(fmt, px));
        r := WriteCpixels(fmt, px, out + [0]);
      case Solid =>
        Regroup(out, [1], Cpixel(fmt, palette[0]));
        r := WriteCpixel(fmt, palette[0], out + [1]);
      case PackedPalette =>
        var bits := IndexBits(|palette|).value;
        r := WriteWithPalette(fmt, |palette|, palette, out, PackRows(px, w, palette, bits));
        r := WritePacked(px, w, palette, bits, r);
      case PlainRle =>
        Regroup(out, [128], PlainRuns(fmt, runs));
        r := WritePlainRuns(fmt, runs, out + [128]);
      case PaletteRle =>
        r := WriteWithPalette(fmt, 128 + |palette|, palette, out, PaletteRuns(palette, runs));
        r := WritePaletteRuns(palette, runs, r);
    }
  }

  /** `ZrleWriter::tiles`, against `RectTiles`. */
  method Tiles(screen: Raster, x: u16, y: u16, w: u16, h: u16, tiling: Tiling, fmt: Format) returns (out: seq<byte>)
    requires screen.Valid()
    ensures out == RectTiles(screen.Shown(), x, y, w, h, tiling, fmt)
  {
    hide TileBytes;
    ghost var pic := screen.Shown();
    ghost var code := Coder(pic, tiling, fmt);
    var x1, y1 := x + w, y + h;
    ghost var all := TilesOnto(code, x, x1, y1, x, y, []);
    var ty: nat := y;
    out := [];
    while ty < y1
      invariant y <= ty <= y1
      invariant TilesOnto(code, x, x1, y1, x, ty, out) == all
      decreases y1 - ty
    {
      var th := Min(TILE, y1 - ty);
      var tx: nat := x;
      while tx < x1
        invariant x <= tx <= x1
        invariant TilesOnto(code, x, x1, y1, tx, ty, out) == all
        decreases x1 - tx
      {
        var tw := Min(TILE, x1 - tx);
        var px := TilePixels(screen, tx % 0x1_0000, ty % 0x1_0000, tw, th, fmt);
        CoderAt(pic, tiling, fmt, tx, ty, tw, th);
        out := EncodeTile(px, tw, tiling, fmt, out);
        tx := tx + tw;
      }
      ty := ty + th;
    }
    OntoIsAppended(code, x, x1, y1, x, y, []);
  }

  /** The tile loop as it runs: the tiles from `(tx, ty)` on, after what is already out. */
  ghost function TilesOnto(code: (nat, nat, nat, nat) -> seq<byte>, x0: nat, x1: nat, y1: nat, tx: nat, ty: nat,
      out: seq<byte>): seq<byte>
    requires x0 <= tx <= x1 && ty <= y1
    decreases y1 - ty, x1 - tx
  {
    if ty >= y1 then out
    else if tx >= x1 then TilesOnto(code, x0, x1, y1, x0, ty + Min(TILE, y1 - ty), out)
    else
      var tw, th := Min(TILE, x1 - tx), Min(TILE, y1 - ty);
      TilesOnto(code, x0, x1, y1, tx + tw, ty, out + code(tx, ty, tw, th))
  }

  lemma {:induction false} OntoIsAppended(code: (nat, nat, nat, nat) -> seq<byte>, x0: nat, x1: nat, y1: nat,
      tx: nat, ty: nat, out: seq<byte>)
    requires x0 <= tx <= x1 && ty <= y1
    ensures TilesOnto(code, x0, x1, y1, tx, ty, out) == out + TilesFrom(code, x0, x1, y1, tx, ty)
    decreases y1 - ty, x1 - tx
  {
    if ty >= y1 {
    } else if tx >= x1 {
      OntoIsAppended(code, x0, x1, y1, x0, ty + Min(TILE, y1 - ty), out);
    } else {
      var tw, th := Min(TILE, x1 - tx), Min(TILE, y1 - ty);
      var piece := code(tx, ty, tw, th);
      OntoIsAppended(code, x0, x1, y1, tx + tw, ty, out + piece);
      Regroup(out, piece, TilesFrom(code, x0, x1, y1, tx + tw, ty));
    }
  }

  lemma CoderAt(pic: Picture, tiling: Tiling, fmt: Format, tx: nat, ty: nat, tw: nat, th: nat)
    requires pic.Valid() && tw > 0
    ensures Coder(pic, tiling, fmt)(tx, ty, tw, th)
         == TileBytes(PixelValues(pic, tx % 0x1_0000, ty % 0x1_0000, tw, th, fmt), tw, tiling, fmt)
  {
  }
}
