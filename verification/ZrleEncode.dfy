/** The server's half of the rect encodings: raw rects and ZRLE tiles. */
module ZrleEncode {
  import opened Bytes
  import opened PixelFormats
  import opened Grid
  import opened Pictures

  const TILE: nat := 64

  datatype Tiling = Auto | Raw | Solid | PackedPalette | PlainRle | PaletteRle

  datatype Run = Run(value: u32, len: nat)

  // ---------------------------------------------------------------- what a rect is made of

  /** The value of the `k`-th pixel of a `w`-wide rect at `(x, y)`. */
  function ValueAt(pic: Picture, x: nat, y: nat, w: nat, fmt: Format, k: nat): u32
    requires pic.Valid() && w > 0
  {
    DivMod(k, w);
    ShrBound(k, w);
    FromRgba(fmt, pic.Seen(x + k % w, y + k / w))
  }

  /** What a rect's pixels are as numbers in a format; `At` finds a place's number (`PixelValueAt`). */
  function PixelValues(pic: Picture, x: nat, y: nat, w: nat, h: nat, fmt: Format): (px: seq<u32>)
    requires pic.Valid()
    ensures |px| == w * h
  {
    MulMono(0, h, w);
    seq(w * h, k requires 0 <= k < w * h => CellOf(w, h, k); ValueAt(pic, x, y, w, fmt, k))
  }

  lemma PixelValueAt(pic: Picture, x: nat, y: nat, w: nat, h: nat, fmt: Format, c: nat, r: nat)
    requires pic.Valid() && c < w && r < h
    ensures At(PixelValues(pic, x, y, w, h, fmt), w, h, c, r) == FromRgba(fmt, pic.Seen(x + c, y + r))
  {
    hide FromRgba;
    IndexInside(w, h, c, r);
    var k := r * w + c;
    assert k / w == r && k % w == c by { DivModUnique(k, w, r, c); }
    assert PixelValues(pic, x, y, w, h, fmt)[k] == ValueAt(pic, x, y, w, fmt, k) by { hide ValueAt; }
  }

  /** Full pixels, one after another. */
  function Wires(fmt: Format, px: seq<u32>): (b: seq<byte>)
    ensures |b| == |px| * fmt.BytesPerPixel()
  {
    if |px| == 0 then [] else Wires(fmt, px[..|px| - 1]) + Wire(fmt, px[|px| - 1])
  }

  /** Compressed pixels, one after another. */
  function Cpixels(fmt: Format, px: seq<u32>): seq<byte> {
    if |px| == 0 then [] else Cpixel(fmt, px[0]) + Cpixels(fmt, px[1..])
  }

  /** The distinct values of a tile, each where it is first seen, while there are at most 129 of them
      (`ZrleForms.PaletteCounts`). */
  function PaletteOf(px: seq<u32>): (p: seq<u32>)
    ensures |p| <= 129
  {
    if |px| == 0 then []
    else
      var p := PaletteOf(px[..|px| - 1]);
      if |p| > 128 || px[|px| - 1] in p then p else p + [px[|px| - 1]]
  }

  /** Maximal stretches of equal values, row boundaries ignored (`ZrleTiles.RunsExpand`, `RunsDiffer`). */
  function RunsOf(px: seq<u32>): (runs: seq<Run>)
    ensures forall i :: 0 <= i < |runs| ==> runs[i].len >= 1
  {
    if |px| == 0 then []
    else
      var runs := RunsOf(px[..|px| - 1]);
      var p := px[|px| - 1];
      var last := |runs| - 1;
      if |runs| > 0 && runs[last].value == p then runs[..last] + [Run(p, runs[last].len + 1)]
      else runs + [Run(p, 1)]
  }

  function IndexBits(n: nat): (bits: Option<nat>)
    ensures bits.Some? ==> bits.value in {1, 2, 4} && 2 <= n <= Pow2(bits.value)
  {
    Pow2Table();
    if n == 2 then Some(1) else if 3 <= n <= 4 then Some(2) else if 5 <= n <= 16 then Some(4) else None
  }

  function Position(palette: seq<u32>, p: u32): (i: nat)
    requires p in palette
    ensures i < |palette| && palette[i] == p
  {
    if palette[0] == p then 0 else 1 + Position(palette[1..], p)
  }

  /** A run length less one: a byte 255 for every 255, then what is left. */
  function LengthBytes(n: nat): seq<byte> {
    if n >= 255 then [255] + LengthBytes(n - 255) else [n]
  }

  /** `used` bits of a byte under construction are taken, and hold `acc`. */
  predicate PackState(palette: seq<u32>, bits: nat, acc: nat, used: nat) {
    bits in {1, 2, 4} && |palette| <= Pow2(bits) && used < 8 && used % bits == 0 && acc < Pow2(used)
  }

  /** The packed indices of the rest of a row, `used` bits of `acc` being already taken. */
  function PackRow(row: seq<u32>, palette: seq<u32>, bits: nat, acc: nat, used: nat): seq<byte>
    requires forall i :: 0 <= i < |row| ==> row[i] in palette
    requires PackState(palette, bits, acc, used)
    decreases |row|
  {
    if |row| == 0 then (if used > 0 then PadBound(acc, used); [acc * Pow2(8 - used)] else [])
    else
      var next := acc * Pow2(bits) + Position(palette, row[0]);
      PackBound(acc, used, bits, Position(palette, row[0]));
      if used + bits == 8 then [next] + PackRow(row[1..], palette, bits, 0, 0)
      else PackRow(row[1..], palette, bits, next, used + bits)
  }

  lemma PadBound(acc: nat, used: nat)
    requires used <= 8 && acc < Pow2(used)
    ensures 0 <= acc * Pow2(8 - used) < 0x100
  {
    Pow2Add(used, 8 - used);
    Pow2Table();
    MulMono(acc + 1, Pow2(used), Pow2(8 - used));
    MulMono(0, acc, Pow2(8 - used));
    assert (acc + 1) * Pow2(8 - used) == acc * Pow2(8 - used) + Pow2(8 - used);
  }

  lemma PackBound(acc: nat, used: nat, bits: nat, idx: nat)
    requires bits in {1, 2, 4} && used < 8 && used % bits == 0 && acc < Pow2(used) && idx < Pow2(bits)
    ensures used + bits <= 8 && (used + bits) % bits == 0 && 0 <= acc * Pow2(bits) + idx < Pow2(used + bits) <= 0x100
    ensures Pow2(0) == 1
  {
    var m := Pow2(bits);
    Pow2Table();
    hide Pow2;
    Pow2Add(used, bits);
    Pow2Mono(used + bits, 8);
    MulMono(acc + 1, Pow2(used), m);
    MulMono(0, acc, m);
    assert (acc + 1) * m == acc * m + m;
  }

  lemma PackStep(row: seq<u32>, palette: seq<u32>, bits: nat, acc: nat, used: nat, idx: nat)
    requires |row| > 0 && forall i :: 0 <= i < |row| ==> row[i] in palette
    requires bits in {1, 2, 4} && |palette| <= Pow2(bits)
    requires used < 8 && used % bits == 0 && acc < Pow2(used) && idx == Position(palette, row[0])
    ensures used + bits <= 8 && (used + bits) % bits == 0 && 0 <= acc * Pow2(bits) + idx < Pow2(used + bits) <= 0x100
    ensures PackRow(row, palette, bits, acc, used)
         == (assert Pow2(0) == 1;
             if used + bits == 8 then [acc * Pow2(bits) + idx] + PackRow(row[1..], palette, bits, 0, 0)
             else PackRow(row[1..], palette, bits, acc * Pow2(bits) + idx, used + bits))
  {
    PackBound(acc, used, bits, idx);
  }

  /** Where packing goes after one more index. */
  predicate PackGoes(row: seq<u32>, palette: seq<u32>, bits: nat, acc: nat, used: nat, i: nat, next: nat)
    requires (forall i :: 0 <= i < |row| ==> row[i] in palette) && PackState(palette, bits, acc, used) && i < |row|
  {
    if used + bits == 8 then
      && next < 0x100 && PackState(palette, bits, 0, 0)
      && PackRow(row[i..], palette, bits, acc, used) == [next] + PackRow(row[i + 1..], palette, bits, 0, 0)
    else
      && PackState(palette, bits, next, used + bits)
      && PackRow(row[i..], palette, bits, acc, used) == PackRow(row[i + 1..], palette, bits, next, used + bits)
  }

  lemma PackNext(row: seq<u32>, palette: seq<u32>, bits: nat, acc: nat, used: nat, i: nat, idx: nat)
    requires (forall i :: 0 <= i < |row| ==> row[i] in palette) && PackState(palette, bits, acc, used)
    requires i < |row| && idx == Position(palette, row[i])
    ensures 0 <= acc * Pow2(bits) + idx == BitOr(acc * Pow2(bits), idx)
    ensures PackGoes(row, palette, bits, acc, used, i, BitOr(acc * Pow2(bits), idx))
  {
    hide Position, BitOr, Pow2;
    PackBound(acc, used, bits, idx);
    OrDisjoint(acc, bits, idx);
    PackStep(row[i..], palette, bits, acc, used, idx);
    assert row[i..][1..] == row[i + 1..];
  }

  lemma PackEnd(palette: seq<u32>, bits: nat, acc: nat, used: nat)
    requires PackState(palette, bits, acc, used)
    ensures 0 <= acc * Pow2(8 - used) < 0x100
    ensures PackRow([], palette, bits, acc, used) == if used > 0 then [acc * Pow2(8 - used)] else []
  {
    PadBound(acc, used);
  }

  /** A whole tile's packed indices: a `PackRow` from an empty byte for every `w` pixels. */
  function PackRows(px: seq<u32>, w: nat, palette: seq<u32>, bits: nat): seq<byte>
    requires w > 0
    requires forall i :: 0 <= i < |px| ==> px[i] in palette
    requires bits in {1, 2, 4} && |palette| <= Pow2(bits)
    decreases |px|
  {
    if |px| == 0 then []
    else
      var n := Min(w, |px|);
      PackRow(px[..n], palette, bits, 0, 0) + PackRows(px[n..], w, palette, bits)
  }

  function PlainRuns(fmt: Format, runs: seq<Run>): seq<byte>
    requires forall i :: 0 <= i < |runs| ==> runs[i].len >= 1
  {
    if |runs| == 0 then []
    else Cpixel(fmt, runs[0].value) + LengthBytes(runs[0].len - 1) + PlainRuns(fmt, runs[1..])
  }

  /** A palette index, with its top bit set and a run length after it unless the run is a single pixel. */
  function PaletteRun(palette: seq<u32>, run: Run): seq<byte>
    requires |palette| <= 128 && run.len >= 1 && run.value in palette
  {
    var idx := Position(palette, run.value);
    if run.len == 1 then [idx] else [idx + 128] + LengthBytes(run.len - 1)
  }

  function PaletteRuns(palette: seq<u32>, runs: seq<Run>): seq<byte>
    requires |palette| <= 128
    requires forall i :: 0 <= i < |runs| ==> runs[i].len >= 1 && runs[i].value in palette
  {
    if |runs| == 0 then [] else PaletteRun(palette, runs[0]) + PaletteRuns(palette, runs[1..])
  }

  function AutoTiling(palette: nat, runs: nat, pixels: nat): Tiling {
    if palette == 1 then Solid
    else if IndexBits(palette).Some? then PackedPalette
    else if palette <= 127 then PaletteRle
    else if runs * 2 < pixels then PlainRle
    else Raw
  }

  /** The form a tile is really sent in: what was asked for, or what `Auto` falls back to. */
  function Chosen(tiling: Tiling, palette: nat, runs: nat, pixels: nat): (c: Tiling)
    ensures c == Solid ==> palette == 1
    ensures c == PackedPalette ==> IndexBits(palette).Some?
    ensures c == PaletteRle ==> palette <= 127 && (palette == 0 || palette >= 2)
  {
    if tiling == Raw then Raw
    else if tiling == Solid && palette == 1 then Solid
    else if tiling == PackedPalette && IndexBits(palette).Some? then PackedPalette
    else if tiling == PlainRle then PlainRle
    else if tiling == PaletteRle && 2 <= palette <= 127 then PaletteRle
    else AutoTiling(palette, runs, pixels)
  }

  /** One tile: a subencoding byte and what it needs. */
  function TileBytes(px: seq<u32>, w: nat, tiling: Tiling, fmt: Format): seq<byte>
    requires w > 0
  {
    var palette := PaletteOf(px);
    var runs := RunsOf(px);
    PaletteCovers(px);
    RunsCover(px);
    TileBody(Chosen(tiling, |palette|, |runs|, |px|), px, w, palette, runs, fmt)
  }

  /** A palette and runs that describe the tile well enough to send it in the chosen form. */
  predicate Describes(chosen: Tiling, px: seq<u32>, palette: seq<u32>, runs: seq<Run>) {
    && (|palette| <= 128 ==> forall i :: 0 <= i < |px| ==> px[i] in palette)
    && (forall i :: 0 <= i < |runs| ==> runs[i].len >= 1 && runs[i].value in px)
    && (chosen == Solid ==> |palette| == 1)
    && (chosen == PackedPalette ==> IndexBits(|palette|).Some?)
    && (chosen == PaletteRle ==> |palette| <= 127)
  }

  function TileBody(chosen: Tiling, px: seq<u32>, w: nat, palette: seq<u32>, runs: seq<Run>, fmt: Format): seq<byte>
    requires w > 0 && Describes(chosen, px, palette, runs)
  {
    match chosen
    case Auto => [0] + Cpixels(fmt, px)
    case Raw => [0] + Cpixels(fmt, px)
    case Solid => [1] + Cpixel(fmt, palette[0])
    case PackedPalette =>
      [|palette|] + Cpixels(fmt, palette) + PackRows(px, w, palette, IndexBits(|palette|).value)
    case PlainRle => [128] + PlainRuns(fmt, runs)
    case PaletteRle => [128 + |palette|] + Cpixels(fmt, palette) + PaletteRuns(palette, runs)
  }

  /** A palette that was not given up on holds every colour of the tile, and nothing else. */
  lemma {:induction false} PaletteCovers(px: seq<u32>)
    ensures |PaletteOf(px)| <= 128 ==> forall i :: 0 <= i < |px| ==> px[i] in PaletteOf(px)
    ensures forall p :: p in PaletteOf(px) ==> p in px
    ensures |px| > 0 ==> |PaletteOf(px)| > 0
  {
    if |px| > 0 {
      var init := px[..|px| - 1];
      PaletteCovers(init);
      assert px == init + [px[|px| - 1]];
    }
  }

  lemma {:induction false} RunsCover(px: seq<u32>)
    ensures forall i :: 0 <= i < |RunsOf(px)| ==> RunsOf(px)[i].value in px
  {
    if |px| > 0 {
      var init := px[..|px| - 1];
      RunsCover(init);
      assert px == init + [px[|px| - 1]];
    }
  }

  /** The bytes of the tile at `(tx, ty)`. Coordinates are cut to 16 bits on their way to the screen. */
  function TileAt(pic: Picture, tiling: Tiling, fmt: Format, tx: nat, ty: nat, tw: nat, th: nat): seq<byte>
    requires pic.Valid()
  {
    if tw == 0 then []
    else TileBytes(PixelValues(pic, tx % 0x1_0000, ty % 0x1_0000, tw, th, fmt), tw, tiling, fmt)
  }

  /** How one picture's tiles are coded. */
  function Coder(pic: Picture, tiling: Tiling, fmt: Format): (nat, nat, nat, nat) -> seq<byte>
    requires pic.Valid()
  {
    (tx, ty, tw, th) => TileAt(pic, tiling, fmt, tx, ty, tw, th)
  }

  /** The codes of the tiles still to come when the walk stands at `(tx, ty)` of a rect ending at `(x1, y1)`. */
  function TilesFrom(code: (nat, nat, nat, nat) -> seq<byte>, x0: nat, x1: nat, y1: nat, tx: nat, ty: nat): seq<byte>
    requires x0 <= tx <= x1 && ty <= y1
    decreases y1 - ty, x1 - tx
  {
    if ty >= y1 then []
    else if tx >= x1 then TilesFrom(code, x0, x1, y1, x0, ty + Min(TILE, y1 - ty))
    else
      var tw, th := Min(TILE, x1 - tx), Min(TILE, y1 - ty);
      code(tx, ty, tw, th) + TilesFrom(code, x0, x1, y1, tx + tw, ty)
  }

  /** A whole rect's tile stream. */
  function RectTiles(pic: Picture, x: nat, y: nat, w: nat, h: nat, tiling: Tiling, fmt: Format): seq<byte>
    requires pic.Valid()
  {
    TilesFrom(Coder(pic, tiling, fmt), x, x + w, y + h, x, y)
  }
}
