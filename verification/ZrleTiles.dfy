/** Decoding one encoded tile: every form gives back the tile's pixels and stops at its last byte. */
module ZrleTiles {
  import opened Bytes
  import opened PixelFormats
  import opened Pictures
  import opened Reads
  import opened ZrleEncode
  import opened ZrleDecode

  /** What the client shows for a list of pixel values. */
  function Meanings(fmt: Format, px: seq<u32>): (m: seq<Rgba>)
    ensures |m| == |px| && forall i :: 0 <= i < |px| ==> m[i] == Meaning(fmt, px[i])
  {
    seq(|px|, i requires 0 <= i < |px| => Meaning(fmt, px[i]))
  }

  predicate AllSurvive(fmt: Format, px: seq<u32>) {
    forall i :: 0 <= i < |px| ==> Survives(fmt, px[i])
  }

  // ---------------------------------------------------------------- CPIXELs

  lemma CpixelReads(fmt: Format, p: u32, rest: seq<byte>)
    requires Survives(fmt, p)
    ensures ReadCpixel(fmt, Cpixel(fmt, p) + rest) == Got(Meaning(fmt, p), rest)
  {
    hide Cpixel, Meaning, FromCpixel;
    TakeFront(Cpixel(fmt, p), rest, Protocol);
  }

  lemma {:induction false} CpixelsRead(fmt: Format, px: seq<u32>, rest: seq<byte>, acc: seq<Rgba>)
    requires AllSurvive(fmt, px)
    ensures ReadCpixels(fmt, Cpixels(fmt, px) + rest, |px|, acc) == Got(acc + Meanings(fmt, px), rest)
    decreases |px|
  {
    hide Cpixel, Meaning, FromCpixel, ReadCpixel;
    if |px| == 0 {
      assert Cpixels(fmt, px) + rest == rest;
      assert acc + Meanings(fmt, px) == acc;
    } else {
      var head, tail := Cpixel(fmt, px[0]), Cpixels(fmt, px[1..]);
      Regroup(head, tail, rest);
      CpixelReads(fmt, px[0], tail + rest);
      CpixelsRead(fmt, px[1..], rest, acc + [Meaning(fmt, px[0])]);
      assert (acc + [Meaning(fmt, px[0])]) + Meanings(fmt, px[1..]) == acc + Meanings(fmt, px);
    }
  }

  // ---------------------------------------------------------------- run lengths

  lemma {:induction false} LengthReads(n: nat, rest: seq<byte>, len: nat)
    ensures ReadRunLength(LengthBytes(n) + rest, len) == Got(len + n, rest)
    decreases n
  {
    if n >= 255 {
      Regroup([255], LengthBytes(n - 255), rest);
      LengthByte(255, LengthBytes(n - 255) + rest, len);
      LengthReads(n - 255, rest, len + 255);
    } else {
      LengthByte(n, rest, len);
    }
  }

  lemma LengthByte(b: byte, rest: seq<byte>, len: nat)
    ensures ReadRunLength([b] + rest, len) == if b != 255 then Got(len + b, rest) else ReadRunLength(rest, len + b)
  {
    TakeFront([b], rest, Protocol);
  }

  // ---------------------------------------------------------------- runs

  /** The pixels a list of runs stands for. */
  function Expand(runs: seq<Run>): seq<u32> {
    if |runs| == 0 then [] else Fill(runs[0].value, runs[0].len) + Expand(runs[1..])
  }

  lemma {:induction false} ExpandAppend(a: seq<Run>, r: Run)
    ensures Expand(a + [r]) == Expand(a) + Fill(r.value, r.len)
    decreases |a|
  {
    if |a| == 0 {
      assert a + [r] == [r] && [r][1..] == [];
      assert Expand([r]) == Fill(r.value, r.len) + Expand([]);
    } else {
      ExpandAppend(a[1..], r);
      assert (a + [r])[1..] == a[1..] + [r];
      Regroup(Fill(a[0].value, a[0].len), Expand(a[1..]), Fill(r.value, r.len));
    }
  }

  /** Run-length coding loses nothing. */
  lemma {:induction false} RunsExpand(px: seq<u32>)
    ensures Expand(RunsOf(px)) == px
  {
    hide Expand;
    if |px| == 0 {
      assert Expand([]) == [] by { ExpandNone(); }
    } else {
      var init, p := px[..|px| - 1], px[|px| - 1];
      RunsExpand(init);
      var runs := RunsOf(init);
      if |runs| > 0 && runs[|runs| - 1].value == p {
        LongerRun(runs[..|runs| - 1], p, runs[|runs| - 1].len);
        assert runs == runs[..|runs| - 1] + [runs[|runs| - 1]];
      } else {
        ExpandAppend(runs, Run(p, 1));
        assert Fill(p, 1) == [p];
      }
      assert px == init + [p];
    }
  }

  lemma ExpandNone()
    ensures Expand([]) == []
  {
  }

  /** Neighbouring runs differ, so no shorter list of runs stands for the tile. */
  lemma {:induction false} RunsDiffer(px: seq<u32>)
    ensures forall i :: 0 < i < |RunsOf(px)| ==> RunsOf(px)[i].value != RunsOf(px)[i - 1].value
  {
    if |px| > 0 {
      RunsDiffer(px[..|px| - 1]);
    }
  }

  lemma LongerRun(runs: seq<Run>, p: u32, n: nat)
    ensures Expand(runs + [Run(p, n + 1)]) == Expand(runs + [Run(p, n)]) + [p]
  {
    ExpandAppend(runs, Run(p, n));
    ExpandAppend(runs, Run(p, n + 1));
    assert Fill(p, n + 1) == Fill(p, n) + [p];
    Regroup(Expand(runs), Fill(p, n), [p]);
  }

  predicate ProperRuns(runs: seq<Run>) {
    forall i :: 0 <= i < |runs| ==> runs[i].len >= 1
  }

  lemma PushRunFits(fmt: Format, acc: seq<Rgba>, run: Run, tail: seq<u32>, count: nat)
    requires |acc| + |Fill(run.value, run.len) + tail| == count
    ensures PushRun(acc, Meaning(fmt, run.value), run.len, count) == Ok(acc + Meanings(fmt, Fill(run.value, run.len)))
    ensures (acc + Meanings(fmt, Fill(run.value, run.len))) + Meanings(fmt, tail)
         == acc + Meanings(fmt, Fill(run.value, run.len) + tail)
  {
    hide Meaning;
    assert Meanings(fmt, Fill(run.value, run.len)) == Fill(Meaning(fmt, run.value), run.len);
  }

  lemma {:induction false} PlainRunsRead(fmt: Format, runs: seq<Run>, rest: seq<byte>, acc: seq<Rgba>, count: nat)
    requires ProperRuns(runs) && |acc| + |Expand(runs)| == count
    requires forall i :: 0 <= i < |runs| ==> Survives(fmt, runs[i].value)
    ensures ReadPlainRuns(fmt, PlainRuns(fmt, runs) + rest, count, acc) == Got(acc + Meanings(fmt, Expand(runs)), rest)
    decreases |runs|
  {
    hide Cpixel, Meaning, FromCpixel, ReadCpixel, ReadRunLength, LengthBytes, PushRun;
    if |runs| == 0 {
      assert PlainRuns(fmt, runs) + rest == rest;
      assert acc + Meanings(fmt, Expand(runs)) == acc;
    } else {
      var run := runs[0];
      var colour, length, tail := Cpixel(fmt, run.value), LengthBytes(run.len - 1), PlainRuns(fmt, runs[1..]);
      Regroup(colour + length, tail, rest);
      Regroup(colour, length, tail + rest);
      CpixelReads(fmt, run.value, length + (tail + rest));
      LengthReads(run.len - 1, tail + rest, 1);
      PushRunFits(fmt, acc, run, Expand(runs[1..]), count);
      PlainRunsRead(fmt, runs[1..], rest, acc + Meanings(fmt, Fill(run.value, run.len)), count);
    }
  }

  /** One palette entry byte and its run length. */
  lemma EntryReads(idx: nat, len: nat, rest: seq<byte>)
    requires idx < 128 && len >= 1
    ensures ReadEntry((if len == 1 then [idx] else [idx + 128] + LengthBytes(len - 1)) + rest) == Got((idx, len), rest)
  {
    hide LengthBytes, ReadRunLength;
    if len == 1 {
      TakeFront([idx], rest, Protocol);
    } else {
      Regroup([idx + 128], LengthBytes(len - 1), rest);
      TakeFront([idx + 128], LengthBytes(len - 1) + rest, Protocol);
      LengthReads(len - 1, rest, 1);
    }
  }

  lemma {:induction false} PaletteRunsRead(fmt: Format, palette: seq<u32>, runs: seq<Run>, rest: seq<byte>,
      acc: seq<Rgba>, count: nat)
    requires |palette| <= 127 && ProperRuns(runs) && |acc| + |Expand(runs)| == count
    requires forall i :: 0 <= i < |runs| ==> runs[i].value in palette
    ensures ReadPaletteRuns(PaletteRuns(palette, runs) + rest, Meanings(fmt, palette), count, acc)
         == Got(acc + Meanings(fmt, Expand(runs)), rest)
    decreases |runs|
  {
    hide Meaning, ReadEntry, LengthBytes, PushRun, Position;
    if |runs| == 0 {
      assert PaletteRuns(palette, runs) + rest == rest;
      assert acc + Meanings(fmt, Expand(runs)) == acc;
    } else {
      var run := runs[0];
      var idx := Position(palette, run.value);
      var entry := if run.len == 1 then [idx] else [idx + 128] + LengthBytes(run.len - 1);
      Regroup(entry, PaletteRuns(palette, runs[1..]), rest);
      EntryReads(idx, run.len, PaletteRuns(palette, runs[1..]) + rest);
      PushRunFits(fmt, acc, run, Expand(runs[1..]), count);
      PaletteRunsRead(fmt, palette, runs[1..], rest, acc + Meanings(fmt, Fill(run.value, run.len)), count);
    }
  }

  // ---------------------------------------------------------------- packed indices

  lemma {:induction false} PackLength(row: seq<u32>, palette: seq<u32>, bits: nat, acc: nat, used: nat)
    requires (forall i :: 0 <= i < |row| ==> row[i] in palette) && PackState(palette, bits, acc, used)
    ensures |PackRow(row, palette, bits, acc, used)| == (used + |row| * bits + 7) / 8
    decreases |row|
  {
    hide Pow2, PackRow, Position;
    if |row| == 0 {
      PackEnd(palette, bits, acc, used);
    } else {
      var idx := Position(palette, row[0]);
      PackStep(row, palette, bits, acc, used, idx);
      assert Pow2(0) == 1 by { Pow2Table(); }
      if used + bits == 8 { PackLength(row[1..], palette, bits, 0, 0); }
      else { PackLength(row[1..], palette, bits, acc * Pow2(bits) + idx, used + bits); }
      assert |row| * bits == |row[1..]| * bits + bits;
    }
  }

  /** Shifting an accumulator up and an index in can be undone. */
  lemma ShiftedIn(acc: nat, idx: nat, m: nat)
    requires idx < m
    ensures (acc * m + idx) / m == acc && (acc * m + idx) % m == idx
  {
    DivModUnique(acc * m + idx, m, acc, idx);
  }

  /** Dropping the bits below the ones already used gives the accumulator back. */
  lemma {:induction false} PackTop(row: seq<u32>, palette: seq<u32>, bits: nat, acc: nat, used: nat)
    requires (forall i :: 0 <= i < |row| ==> row[i] in palette) && PackState(palette, bits, acc, used)
    requires used > 0
    ensures var raw := PackRow(row, palette, bits, acc, used);
            |raw| > 0 && raw[0] / Pow2(8 - used) == acc
    decreases |row|
  {
    hide Position, PackRow, Pow2;
    if |row| == 0 {
      PackEnd(palette, bits, acc, used);
      DivModUnique(acc * Pow2(8 - used), Pow2(8 - used), acc, 0);
    } else {
      var idx, m := Position(palette, row[0]), Pow2(bits);
      PackStep(row, palette, bits, acc, used, idx);
      var next := acc * m + idx;
      ShiftedIn(acc, idx, m);
      if used + bits == 8 {
        assert Pow2(0) == 1 by { Pow2Table(); }
      } else {
        PackTop(row[1..], palette, bits, next, used + bits);
        var low := Pow2(8 - used - bits);
        Pow2Add(8 - used - bits, bits);
        DivDiv(PackRow(row, palette, bits, acc, used)[0], low, m);
      }
    }
  }

  /** The field `bit` bits into a packed row lies inside one of its bytes and holds an index. */
  predicate Holds(raw: seq<byte>, bits: nat, bit: nat, idx: nat) {
    bits in {1, 2, 4} && bit / 8 < |raw| && bit % 8 + bits <= 8 && Field(raw, bits, bit) == idx
  }

  /** The field `bit` bits in, of a packed row that starts mid-byte, is the index put there. */
  lemma {:induction false} PackField(row: seq<u32>, palette: seq<u32>, bits: nat, acc: nat, used: nat, c: nat)
    requires (forall i :: 0 <= i < |row| ==> row[i] in palette) && PackState(palette, bits, acc, used)
    requires c < |row|
    ensures 0 <= c * bits
        && Holds(PackRow(row, palette, bits, acc, used), bits, used + c * bits, Position(palette, row[c]))
    decreases |row|
  {
    hide Position, Pow2, PackRow, Holds;
    var idx := Position(palette, row[0]);
    PackStep(row, palette, bits, acc, used, idx);
    if c == 0 {
      FirstField(row, palette, bits, acc, used);
    } else {
      OneField(c, bits);
      if used + bits == 8 {
        assert Pow2(0) == 1 by { Pow2Table(); }
        PackField(row[1..], palette, bits, 0, 0, c - 1);
        NextByte(PackRow(row, palette, bits, acc, used), PackRow(row[1..], palette, bits, 0, 0), bits,
                 (c - 1) * bits, Position(palette, row[c]));
      } else {
        PackField(row[1..], palette, bits, acc * Pow2(bits) + idx, used + bits, c - 1);
      }
    }
  }

  lemma OneField(c: nat, bits: nat)
    requires c > 0
    ensures 0 <= (c - 1) * bits && c * bits == (c - 1) * bits + bits
  {
    MulMono(0, c - 1, bits);
  }

  lemma NextByte(raw: seq<byte>, tail: seq<byte>, bits: nat, bit: nat, idx: nat)
    requires |raw| == |tail| + 1 && raw[1..] == tail && Holds(tail, bits, bit, idx)
    ensures Holds(raw, bits, bit + 8, idx)
  {
    assert (bit + 8) / 8 == bit / 8 + 1 && (bit + 8) % 8 == bit % 8;
    assert raw[bit / 8 + 1] == tail[bit / 8];
  }

  lemma FirstField(row: seq<u32>, palette: seq<u32>, bits: nat, acc: nat, used: nat)
    requires |row| > 0 && (forall i :: 0 <= i < |row| ==> row[i] in palette) && PackState(palette, bits, acc, used)
    ensures var raw := PackRow(row, palette, bits, acc, used);
            Holds(raw, bits, used, Position(palette, row[0]))
  {
    hide Position, Pow2, PackRow, Holds;
    var raw := PackRow(row, palette, bits, acc, used);
    var idx, m := Position(palette, row[0]), Pow2(bits);
    PackStep(row, palette, bits, acc, used, idx);
    var next := acc * m + idx;
    ShiftedIn(acc, idx, m);
    if used + bits < 8 {
      PackTop(row[1..], palette, bits, next, used + bits);
    } else {
      assert Pow2(0) == 1 by { Pow2Table(); }
      DivModUnique(next, 1, next, 0);
    }
    FieldIs(raw, bits, used, next);
  }

  lemma FieldIs(raw: seq<byte>, bits: nat, used: nat, next: nat)
    requires bits in {1, 2, 4} && used < 8 && used + bits <= 8 && |raw| > 0
    requires raw[0] / Pow2(8 - bits - used) == next
    ensures Holds(raw, bits, used, next % Pow2(bits))
  {
    hide Pow2, Shr;
    ShrIsDiv(raw[0], 8 - bits - used);
  }

  lemma {:induction false} RowUnpacks(fmt: Format, row: seq<u32>, palette: seq<u32>, bits: nat, col: nat,
      acc: seq<Rgba>)
    requires (forall i :: 0 <= i < |row| ==> row[i] in palette) && PackState(palette, bits, 0, 0) && col <= |row|
    ensures |PackRow(row, palette, bits, 0, 0)| == RowBytes(|row|, bits)
    ensures UnpackRow(PackRow(row, palette, bits, 0, 0), Meanings(fmt, palette), bits, |row|, col, acc)
         == Ok(acc + Meanings(fmt, row[col..]))
    decreases |row| - col
  {
    hide PackRow, Position, Field, Meaning;
    PackLength(row, palette, bits, 0, 0);
    if col == |row| {
      assert acc + Meanings(fmt, row[col..]) == acc;
    } else {
      PackField(row, palette, bits, 0, 0, col);
      var c := Meaning(fmt, row[col]);
      RowUnpacks(fmt, row, palette, bits, col + 1, acc + [c]);
      assert (acc + [c]) + Meanings(fmt, row[col + 1..]) == acc + Meanings(fmt, row[col..]);
    }
  }

  lemma {:induction false} RowsUnpack(fmt: Format, px: seq<u32>, w: nat, rows: nat, palette: seq<u32>, bits: nat,
                                      rest: seq<byte>, acc: seq<Rgba>)
    requires w > 0 && |px| == rows * w
    requires (forall i :: 0 <= i < |px| ==> px[i] in palette) && PackState(palette, bits, 0, 0)
    ensures UnpackRows(PackRows(px, w, palette, bits) + rest, Meanings(fmt, palette), bits, w, rows, acc)
         == Got(acc + Meanings(fmt, px), rest)
    decreases rows
  {
    hide PackRows, Meanings, Meaning, UnpackRows, PackState, Pow2;
    if rows == 0 {
      NoRowsUnpack(fmt, px, w, palette, bits, rest, acc);
    } else {
      RowsLeft(px, w, rows);
      var next := acc + Meanings(fmt, px[..w]);
      NextRowUnpacks(fmt, px, w, rows, palette, bits, rest, acc);
      RowsUnpack(fmt, px[w..], w, rows - 1, palette, bits, rest, next);
      MeaningsSplit(fmt, px, w);
      Regroup(acc, Meanings(fmt, px[..w]), Meanings(fmt, px[w..]));
    }
  }

  lemma NoRowsUnpack(fmt: Format, px: seq<u32>, w: nat, palette: seq<u32>, bits: nat, rest: seq<byte>, acc: seq<Rgba>)
    requires w > 0 && |px| == 0 && PackState(palette, bits, 0, 0)
    ensures UnpackRows(PackRows(px, w, palette, bits) + rest, Meanings(fmt, palette), bits, w, 0, acc)
         == Got(acc + Meanings(fmt, px), rest)
  {
    hide Meaning, Pow2;
    assert PackRows(px, w, palette, bits) == [];
    assert [] + rest == rest;
    assert acc + Meanings(fmt, px) == acc;
  }

  lemma RowsLeft(px: seq<u32>, w: nat, rows: nat)
    requires rows > 0 && |px| == rows * w
    ensures w <= |px| && |px[w..]| == (rows - 1) * w
  {
    MulMono(1, rows, w);
  }

  lemma MeaningsSplit(fmt: Format, px: seq<u32>, w: nat)
    requires w <= |px|
    ensures Meanings(fmt, px) == Meanings(fmt, px[..w]) + Meanings(fmt, px[w..])
  {
    hide Meaning;
  }

  /** The first row of several comes off the front. */
  lemma NextRowUnpacks(fmt: Format, px: seq<u32>, w: nat, rows: nat, palette: seq<u32>, bits: nat, rest: seq<byte>,
                       acc: seq<Rgba>)
    requires w > 0 && rows > 0 && |px| == rows * w >= w
    requires (forall i :: 0 <= i < |px| ==> px[i] in palette) && PackState(palette, bits, 0, 0)
    ensures UnpackRows(PackRows(px, w, palette, bits) + rest, Meanings(fmt, palette), bits, w, rows, acc)
         == UnpackRows(PackRows(px[w..], w, palette, bits) + rest, Meanings(fmt, palette), bits, w, rows - 1,
                       acc + Meanings(fmt, px[..w]))
  {
    hide PackRow, PackRows, Meanings, UnpackRow, RowBytes, Pow2;
    PackNextRow(px, w, rows, palette, bits);
    var head, tail := PackRow(px[..w], palette, bits, 0, 0), PackRows(px[w..], w, palette, bits);
    Regroup(head, tail, rest);
    RowUnpacks(fmt, px[..w], palette, bits, 0, acc);
    assert px[..w][0..] == px[..w];
    TakeFront(head, tail + rest, Protocol);
  }

  lemma PackNextRow(px: seq<u32>, w: nat, rows: nat, palette: seq<u32>, bits: nat)
    requires w > 0 && rows > 0 && |px| == rows * w
    requires (forall i :: 0 <= i < |px| ==> px[i] in palette) && PackState(palette, bits, 0, 0)
    ensures w <= |px| && |px[w..]| == (rows - 1) * w
    ensures PackRows(px, w, palette, bits)
        == PackRow(px[..w], palette, bits, 0, 0) + PackRows(px[w..], w, palette, bits)
  {
    RowsLeft(px, w, rows);
  }

  // ---------------------------------------------------------------- a whole tile

  /** Encoded with its form, a tile decodes to its pixels and leaves exactly what followed it. */
  lemma TileFormReads(fmt: Format, chosen: Tiling, px: seq<u32>, w: nat, h: nat, palette: seq<u32>, runs: seq<Run>,
      rest: seq<byte>)
    requires w > 0 && |px| == w * h > 0 && AllSurvive(fmt, px)
    requires Describes(chosen, px, palette, runs) && Expand(runs) == px
    requires forall p :: p in palette ==> p in px
    requires chosen == PaletteRle ==> |palette| >= 2
    ensures ReadTile(fmt, TileBody(chosen, px, w, palette, runs, fmt) + rest, w, h) == Got(Meanings(fmt, px), rest)
  {
    hide Cpixels, Cpixel, PackRows, PlainRuns, PaletteRuns, ReadTile, Meaning, Survives, Expand;
    forall i | 0 <= i < |palette| ensures Survives(fmt, palette[i]) { assert palette[i] in palette; }
    forall i | 0 <= i < |runs| ensures Survives(fmt, runs[i].value) { assert runs[i].value in px; }
    match chosen {
      case Auto => RawFormReads(fmt, px, w, h, rest);
      case Raw => RawFormReads(fmt, px, w, h, rest);
      case Solid =>
        assert palette[0] in palette;
        SolidFormReads(fmt, palette[0], px, w, h, rest) by {
          forall i | 0 <= i < |px| ensures px[i] == palette[0] { assert px[i] in palette; }
        }
      case PackedPalette => PackedFormReads(fmt, px, w, h, palette, rest);
      case PlainRle => PlainFormReads(fmt, px, w, h, runs, rest);
      case PaletteRle => PaletteFormReads(fmt, px, w, h, palette, runs, rest);
    }
  }

  lemma SolidFormReads(fmt: Format, p: u32, px: seq<u32>, w: nat, h: nat, rest: seq<byte>)
    requires |px| == w * h && Survives(fmt, p) && forall i :: 0 <= i < |px| ==> px[i] == p
    ensures ReadTile(fmt, [1] + Cpixel(fmt, p) + rest, w, h) == Got(Meanings(fmt, px), rest)
  {
    hide Cpixel, ReadCpixel, Meaning, Survives;
    Regroup([1], Cpixel(fmt, p), rest);
    TakeFront([1], Cpixel(fmt, p) + rest, Protocol);
    CpixelReads(fmt, p, rest);
    assert Meanings(fmt, px) == Fill(Meaning(fmt, p), |px|);
  }

  lemma PackedFormReads(fmt: Format, px: seq<u32>, w: nat, h: nat, palette: seq<u32>, rest: seq<byte>)
    requires w > 0 && |px| == w * h && AllSurvive(fmt, palette) && IndexBits(|palette|).Some?
    requires forall i :: 0 <= i < |px| ==> px[i] in palette
    ensures ReadTile(fmt,
        [|palette|] + Cpixels(fmt, palette) + PackRows(px, w, palette, IndexBits(|palette|).value) + rest, w, h)
         == Got(Meanings(fmt, px), rest)
  {
    hide Cpixels, ReadCpixels, PackRows, UnpackRows, Meaning, Survives;
    var none: seq<Rgba> := [];
    assert none + Meanings(fmt, px) == Meanings(fmt, px);
    var bits := IndexBits(|palette|).value;
    assert bits == PackedBits(|palette|);
    assert Pow2(0) == 1;
    PaletteHeads(fmt, |palette|, palette, PackRows(px, w, palette, bits), rest);
    assert |px| == h * w;
    RowsUnpack(fmt, px, w, h, palette, bits, rest, []);
  }

  lemma PlainFormReads(fmt: Format, px: seq<u32>, w: nat, h: nat, runs: seq<Run>, rest: seq<byte>)
    requires |px| == w * h && ProperRuns(runs) && Expand(runs) == px
    requires forall i :: 0 <= i < |runs| ==> Survives(fmt, runs[i].value)
    ensures ReadTile(fmt, [128] + PlainRuns(fmt, runs) + rest, w, h) == Got(Meanings(fmt, px), rest)
  {
    hide PlainRuns, ReadPlainRuns, Expand, Meaning, Survives;
    var none: seq<Rgba> := [];
    assert none + Meanings(fmt, px) == Meanings(fmt, px);
    Regroup([128], PlainRuns(fmt, runs), rest);
    TakeFront([128], PlainRuns(fmt, runs) + rest, Protocol);
    PlainRunsRead(fmt, runs, rest, [], |px|);
  }

  lemma PaletteFormReads(fmt: Format, px: seq<u32>, w: nat, h: nat, palette: seq<u32>, runs: seq<Run>, rest: seq<byte>)
    requires |px| == w * h && AllSurvive(fmt, palette) && ProperRuns(runs) && Expand(runs) == px
    requires 2 <= |palette| <= 127 && forall i :: 0 <= i < |runs| ==> runs[i].value in palette
    ensures ReadTile(fmt, [128 + |palette|] + Cpixels(fmt, palette) + PaletteRuns(palette, runs) + rest, w, h)
         == Got(Meanings(fmt, px), rest)
  {
    hide Cpixels, PaletteRuns, ReadPaletteRuns, Expand, Meaning, Meanings, Survives, ReadTile;
    PaletteFormOpens(fmt, |palette|, palette, PaletteRuns(palette, runs), w, h, rest);
    PaletteRunsRead(fmt, palette, runs, rest, [], |px|);
    NothingBefore(Meanings(fmt, px));
  }

  lemma NothingBefore<T>(s: seq<T>)
    ensures [] + s == s
  {
  }

  lemma PaletteFormOpens(fmt: Format, n: nat, palette: seq<u32>, body: seq<byte>, w: nat, h: nat, rest: seq<byte>)
    requires 2 <= n <= 127 && n == |palette| && AllSurvive(fmt, palette)
    ensures w * h >= 0
    ensures ReadTile(fmt, [128 + n] + Cpixels(fmt, palette) + body + rest, w, h)
         == ReadPaletteRuns(body + rest, Meanings(fmt, palette), w * h, [])
  {
    hide Cpixels, ReadCpixels, ReadPaletteRuns, Meaning, Meanings, Survives, ReadTile, Take;
    var sub: byte := 128 + n;
    PaletteHeads(fmt, sub, palette, body, rest);
    ReadTilePaletteRuns(fmt, [sub] + Cpixels(fmt, palette) + body + rest, sub, w, h,
        Cpixels(fmt, palette) + (body + rest));
  }

  lemma ReadTilePaletteRuns(fmt: Format, data: seq<byte>, sub: byte, w: nat, h: nat, body: seq<byte>)
    requires sub >= 130 && TakeTile(data, 1) == Got([sub], body) && ReadCpixels(fmt, body, sub - 128, []).Got?
    ensures var p := ReadCpixels(fmt, body, sub - 128, []);
            w * h >= 0 && ReadTile(fmt, data, w, h) == ReadPaletteRuns(p.rest, p.value, w * h, [])
  {
    hide ReadCpixels, ReadPaletteRuns, Take;
    MulMono(0, h, w);
  }

  lemma RawFormReads(fmt: Format, px: seq<u32>, w: nat, h: nat, rest: seq<byte>)
    requires |px| == w * h && AllSurvive(fmt, px)
    ensures ReadTile(fmt, [0] + Cpixels(fmt, px) + rest, w, h) == Got(Meanings(fmt, px), rest)
  {
    hide Cpixels, ReadCpixels, Meaning;
    var none: seq<Rgba> := [];
    assert none + Meanings(fmt, px) == Meanings(fmt, px);
    Regroup([0], Cpixels(fmt, px), rest);
    TakeFront([0], Cpixels(fmt, px) + rest, Protocol);
    CpixelsRead(fmt, px, rest, []);
  }

  /** The palette that opens two of the forms. */
  lemma PaletteHeads(fmt: Format, sub: byte, palette: seq<u32>, body: seq<byte>, rest: seq<byte>)
    requires AllSurvive(fmt, palette)
    ensures var data := [sub] + Cpixels(fmt, palette) + body + rest;
      && TakeTile(data, 1) == Got([sub], Cpixels(fmt, palette) + (body + rest))
      && ReadCpixels(fmt, Cpixels(fmt, palette) + (body + rest), |palette|, [])
          == Got(Meanings(fmt, palette), body + rest)
  {
    hide Cpixels, ReadCpixels, Meaning, FromCpixel, Cpixel;
    var cps := Cpixels(fmt, palette);
    Regroup([sub] + cps, body, rest);
    Regroup([sub], cps, body + rest);
    TakeFront([sub], cps + (body + rest), Protocol);
    CpixelsRead(fmt, palette, body + rest, []);
    var none: seq<Rgba> := [];
    assert none + Meanings(fmt, palette) == Meanings(fmt, palette);
  }

  /** A non-empty tile survives every tiling the server can be asked for, fallbacks included. */
  lemma TileRoundTrip(fmt: Format, tiling: Tiling, px: seq<u32>, w: nat, h: nat, rest: seq<byte>)
    requires w > 0 && |px| == w * h > 0 && AllSurvive(fmt, px)
    ensures ReadTile(fmt, TileBytes(px, w, tiling, fmt) + rest, w, h) == Got(Meanings(fmt, px), rest)
  {
    hide PaletteOf, RunsOf, TileBody, ReadTile, Expand, Meaning;
    PaletteCovers(px);
    RunsCover(px);
    RunsExpand(px);
    var palette, runs := PaletteOf(px), RunsOf(px);
    TileFormReads(fmt, Chosen(tiling, |palette|, |runs|, |px|), px, w, h, palette, runs, rest);
  }
}
