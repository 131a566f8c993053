/** Which of the five tile forms a tile is sent in, in terms of how many colours it has. */
module ZrleForms {
  import opened Bytes
  import opened PixelFormats
  import opened ZrleEncode

  function Colours(px: seq<u32>): set<u32> {
    set p | p in px
  }

  predicate Distinct(s: seq<u32>) {
    forall i, j :: 0 <= i < j < |s| ==> s[i] != s[j]
  }

  lemma {:induction false} DistinctSize(s: seq<u32>)
    requires Distinct(s)
    ensures |Colours(s)| == |s|
  {
    if |s| > 0 {
      var init, last := s[..|s| - 1], s[|s| - 1];
      DistinctSize(init);
      assert s == init + [last];
      assert Colours(s) == Colours(init) + {last};
      assert last !in Colours(init);
    }
  }

  /** A palette names no colour twice, so it counts the tile's colours exactly until it gives up. */
  lemma {:induction false} PaletteCounts(px: seq<u32>)
    ensures Distinct(PaletteOf(px)) && Colours(PaletteOf(px)) <= Colours(px)
    ensures |PaletteOf(px)| <= 128 ==> |PaletteOf(px)| == |Colours(px)|
    ensures |PaletteOf(px)| > 128 ==> |Colours(px)| > 128
  {
    PaletteDistinct(px);
    PaletteCovers(px);
    DistinctSize(PaletteOf(px));
    if |PaletteOf(px)| <= 128 {
      assert Colours(PaletteOf(px)) == Colours(px);
    } else {
      SubsetSize(Colours(PaletteOf(px)), Colours(px));
    }
  }

  lemma {:induction false} PaletteDistinct(px: seq<u32>)
    ensures Distinct(PaletteOf(px))
  {
    if |px| > 0 { PaletteDistinct(px[..|px| - 1]); }
  }

  lemma {:induction false} SubsetSize(a: set<u32>, b: set<u32>)
    requires a <= b
    ensures |a| <= |b|
    decreases |a|
  {
    if a != {} {
      var x :| x in a;
      SubsetSize(a - {x}, b - {x});
    }
  }

  /** A form that was asked for is used exactly when the tile can express it; the packed and run
      palettes carry the tile's number of colours; anything else is what `Auto` sends. */
  lemma FormOnTheWire(px: seq<u32>, w: nat, tiling: Tiling, fmt: Format)
    requires w > 0 && |px| > 0
    ensures var n := |Colours(px)|; var bytes := TileBytes(px, w, tiling, fmt);
      && |bytes| > 0
      && if tiling == Raw then bytes[0] == 0
         else if tiling == Solid && n == 1 then bytes[0] == 1
         else if tiling == PackedPalette && 2 <= n <= 16 then bytes[0] == n
         else if tiling == PlainRle then bytes[0] == 128
         else if tiling == PaletteRle && 2 <= n <= 127 then bytes[0] == 128 + n
         else bytes == TileBytes(px, w, Auto, fmt)
  {
    hide PaletteOf, RunsOf, Cpixels, PackRows, PlainRuns, PaletteRuns, Cpixel, Colours;
    PaletteCounts(px);
    PaletteCovers(px);
    RunsCover(px);
  }

  /** Left to itself the encoder sends one colour as a solid tile, up to sixteen packed, up to 127 as
      palette runs, and more than that as plain runs only when they take fewer than half the pixels. */
  lemma AutoOnTheWire(px: seq<u32>, w: nat, fmt: Format)
    requires w > 0 && |px| > 0
    ensures var n := |Colours(px)|; var bytes := TileBytes(px, w, Auto, fmt);
      && |bytes| > 0
      && bytes[0] == if n == 1 then 1 else if n <= 16 then n else if n <= 127 then 128 + n
                     else if 2 * |RunsOf(px)| < |px| then 128 else 0
  {
    hide PaletteOf, RunsOf, Cpixels, PackRows, PlainRuns, PaletteRuns, Cpixel, Colours;
    PaletteCounts(px);
    PaletteCovers(px);
    RunsCover(px);
  }
}
