/** Exactly which bytes are a ZRLE tile, as section 7.7.6 of RFC 6143 describes them: the decoder accepts a
    string of bytes if and only if it is one of five kinds of tile, and then shows that tile's pixels and
    leaves what follows it. */
module ZrleGrammar {
  import opened Bytes
  import opened PixelFormats
  import opened Grid
  import opened Pictures
  import opened Reads
  import opened ZrleDecode

  /** A palette entry and how often it is repeated. One that is not flagged is a single pixel. */
  datatype Entry = Entry(index: nat, flagged: bool, len: nat)

  /** A run of one CPIXEL. */
  datatype Run = Run(cpixel: seq<byte>, len: nat)

  datatype Tile =
    | Colours(cpixels: seq<seq<byte>>)
    | OneColour(cpixel: seq<byte>)
    | Indexed(palette: seq<seq<byte>>, rows: seq<seq<byte>>)
    | Runs(runs: seq<Run>)
    | IndexedRuns(palette: seq<seq<byte>>, entries: seq<Entry>)

  // ---------------------------------------------------------------- the bytes

  /** A run length: its predecessor in whole 255s and a remainder below. */
  function Length(len: nat): seq<byte>
    requires len > 0
  {
    seq((len - 1) / 255, _ => 255) + [(len - 1) % 255]
  }

  function RunBytes(runs: seq<Run>): seq<byte>
    requires forall i :: 0 <= i < |runs| ==> runs[i].len > 0
  {
    if |runs| == 0 then [] else runs[0].cpixel + Length(runs[0].len) + RunBytes(runs[1..])
  }

  function EntryByte(e: Entry): seq<byte>
    requires e.index < 128 && e.len > 0
  {
    if e.flagged then [128 + e.index] + Length(e.len) else [e.index]
  }

  function EntryBytes(entries: seq<Entry>): seq<byte>
    requires forall i :: 0 <= i < |entries| ==> entries[i].index < 128 && entries[i].len > 0
  {
    if |entries| == 0 then [] else EntryByte(entries[0]) + EntryBytes(entries[1..])
  }

  /** A tile's bytes, after its kind. */
  function Wire(t: Tile): seq<byte>
    requires t.Indexed? ==> |t.palette| < 128
    requires t.IndexedRuns? ==> |t.palette| < 128
    requires t.IndexedRuns? ==> forall i :: 0 <= i < |t.entries| ==> t.entries[i].index < 128 && t.entries[i].len > 0
    requires t.Runs? ==> forall i :: 0 <= i < |t.runs| ==> t.runs[i].len > 0
  {
    match t
    case Colours(cpixels) => [0] + Concat(cpixels)
    case OneColour(cpixel) => [1] + cpixel
    case Indexed(palette, rows) => [|palette|] + (Concat(palette) + Concat(rows))
    case Runs(runs) => [128] + RunBytes(runs)
    case IndexedRuns(palette, entries) => [128 + |palette|] + (Concat(palette) + EntryBytes(entries))
  }

  // ---------------------------------------------------------------- what they show

  predicate AllCpixels(fmt: Format, cpixels: seq<seq<byte>>) {
    forall i :: 0 <= i < |cpixels| ==> |cpixels[i]| == fmt.CpixelBytes()
  }

  function Seen(fmt: Format, cpixels: seq<seq<byte>>): (px: seq<Rgba>)
    requires AllCpixels(fmt, cpixels)
    ensures |px| == |cpixels|
  {
    seq(|cpixels|, i requires 0 <= i < |cpixels| => FromCpixel(fmt, cpixels[i]))
  }

  /** One bit of a row, most significant first. */
  function BitOf(row: seq<byte>, j: nat): nat
    requires j / 8 < |row|
  {
    Shr(row[j / 8], 7 - j % 8) % 2
  }

  /** The number `n` bits of a row spell. */
  function Spelt(row: seq<byte>, j: nat, n: nat): nat
    requires j + n <= 8 * |row|
  {
    if n == 0 then 0 else 2 * Spelt(row, j, n - 1) + BitOf(row, j + n - 1)
  }

  /** How many bits an index into `n` colours takes. */
  function IndexBits(n: nat): nat {
    if n == 2 then 1 else if n <= 4 then 2 else 4
  }

  /** A row is long enough for `w` indices, no longer, and every index names a colour of the palette. */
  predicate ProperRow(row: seq<byte>, n: nat, w: nat) {
    |row| == (w * IndexBits(n) + 7) / 8 && forall c: nat :: c < w ==> IndexFits(row, n, w, c)
  }

  /** The bits of column `c` lie inside the row. */
  predicate BitsFit(w: nat, bits: nat, c: nat) {
    0 <= c * bits && c * bits + bits <= 8 * ((w * bits + 7) / 8)
  }

  /** What a row shows from column `c` on. */
  function RowFrom(palette: seq<Rgba>, row: seq<byte>, w: nat, c: nat): (px: seq<Rgba>)
    requires c <= w && |row| == (w * IndexBits(|palette|) + 7) / 8
    requires forall d: nat :: c <= d < w ==> IndexFits(row, |palette|, w, d)
    ensures |px| == w - c
    decreases w - c
  {
    if c == w then []
    else
      assert IndexFits(row, |palette|, w, c);
      [palette[Spelt(row, c * IndexBits(|palette|), IndexBits(|palette|))]] + RowFrom(palette, row, w, c + 1)
  }

  /** The index in column `c` of a row names one of `n` colours. */
  predicate IndexFits(row: seq<byte>, n: nat, w: nat, c: nat)
    requires |row| == (w * IndexBits(n) + 7) / 8
  {
    BitsFit(w, IndexBits(n), c) && Spelt(row, c * IndexBits(n), IndexBits(n)) < n
  }

  function RowSeen(palette: seq<Rgba>, row: seq<byte>, w: nat): (px: seq<Rgba>)
    requires ProperRow(row, |palette|, w)
    ensures |px| == w
  {
    RowFrom(palette, row, w, 0)
  }

  function RowsSeen(palette: seq<Rgba>, rows: seq<seq<byte>>, w: nat): seq<Rgba>
    requires forall i :: 0 <= i < |rows| ==> ProperRow(rows[i], |palette|, w)
  {
    if |rows| == 0 then [] else RowSeen(palette, rows[0], w) + RowsSeen(palette, rows[1..], w)
  }

  function RunsSeen(fmt: Format, runs: seq<Run>): seq<Rgba>
    requires forall i :: 0 <= i < |runs| ==> |runs[i].cpixel| == fmt.CpixelBytes()
  {
    if |runs| == 0 then [] else Fill(FromCpixel(fmt, runs[0].cpixel), runs[0].len) + RunsSeen(fmt, runs[1..])
  }

  function EntriesSeen(palette: seq<Rgba>, entries: seq<Entry>): seq<Rgba>
    requires forall i :: 0 <= i < |entries| ==> entries[i].index < |palette|
  {
    if |entries| == 0 then []
    else Fill(palette[entries[0].index], entries[0].len) + EntriesSeen(palette, entries[1..])
  }

  /** A tile of `w * h` pixels: whole CPIXELs everywhere; 2 to 16 colours to index by rows, 2 to 127 by runs;
      and runs that fill the tile exactly. */
  predicate Proper(fmt: Format, t: Tile, w: nat, h: nat) {
    match t
    case Colours(cpixels) => AllCpixels(fmt, cpixels) && |cpixels| == w * h
    case OneColour(cpixel) => |cpixel| == fmt.CpixelBytes()
    case Indexed(palette, rows) =>
      && AllCpixels(fmt, palette) && 2 <= |palette| <= 16 && |rows| == h
      && forall i :: 0 <= i < |rows| ==> ProperRow(rows[i], |palette|, w)
    case Runs(runs) => ProperRuns(fmt, runs) && |RunsSeen(fmt, runs)| == w * h
    case IndexedRuns(palette, entries) =>
      && AllCpixels(fmt, palette) && 2 <= |palette| <= 127 && ProperEntries(entries, |palette|)
      && |EntriesSeen(Seen(fmt, palette), entries)| == w * h
  }

  predicate ProperRuns(fmt: Format, runs: seq<Run>) {
    forall i :: 0 <= i < |runs| ==> |runs[i].cpixel| == fmt.CpixelBytes() && runs[i].len > 0
  }

  predicate ProperEntries(entries: seq<Entry>, n: nat) {
    forall i :: 0 <= i < |entries| ==>
      entries[i].index < n && entries[i].len > 0 && (!entries[i].flagged ==> entries[i].len == 1)
  }

  function Shown(fmt: Format, t: Tile, w: nat, h: nat): seq<Rgba>
    requires Proper(fmt, t, w, h)
  {
    match t
    case Colours(cpixels) => Seen(fmt, cpixels)
    case OneColour(cpixel) => MulMono(0, h, w); Fill(FromCpixel(fmt, cpixel), w * h)
    case Indexed(palette, rows) => RowsSeen(Seen(fmt, palette), rows, w)
    case Runs(runs) => RunsSeen(fmt, runs)
    case IndexedRuns(palette, entries) => EntriesSeen(Seen(fmt, palette), entries)
  }

  // ---------------------------------------------------------------- CPIXELs

  lemma {:induction false} CpixelsAre(fmt: Format, cpixels: seq<seq<byte>>, rest: seq<byte>, acc: seq<Rgba>)
    requires AllCpixels(fmt, cpixels)
    ensures ReadCpixels(fmt, Concat(cpixels) + rest, |cpixels|, acc) == Got(acc + Seen(fmt, cpixels), rest)
    decreases |cpixels|
  {
    hide FromCpixel;
    if |cpixels| == 0 {
      assert [] + rest == rest && acc + [] == acc;
    } else {
      var c, more := cpixels[0], cpixels[1..];
      Regroup(c, Concat(more), rest);
      TakeFront(c, Concat(more) + rest, Protocol);
      CpixelsAre(fmt, more, rest, acc + [FromCpixel(fmt, c)]);
      assert acc + [FromCpixel(fmt, c)] + Seen(fmt, more) == acc + Seen(fmt, cpixels);
    }
  }

  lemma {:induction false} CpixelsWere(fmt: Format, data: seq<byte>, n: nat, acc: seq<Rgba>)
    returns (cpixels: seq<seq<byte>>)
    requires ReadCpixels(fmt, data, n, acc).Got?
    ensures AllCpixels(fmt, cpixels) && |cpixels| == n
    ensures var r := ReadCpixels(fmt, data, n, acc);
      data == Concat(cpixels) + r.rest && r.value == acc + Seen(fmt, cpixels)
    decreases n
  {
    hide FromCpixel;
    if n == 0 {
      cpixels := [];
      assert [] + data == data && acc + [] == acc;
    } else {
      var c, left := data[..fmt.CpixelBytes()], data[fmt.CpixelBytes()..];
      var more := CpixelsWere(fmt, left, n - 1, acc + [FromCpixel(fmt, c)]);
      cpixels := [c] + more;
      assert cpixels[1..] == more && data == c + left;
      Regroup(c, Concat(more), ReadCpixels(fmt, data, n, acc).rest);
      assert acc + [FromCpixel(fmt, c)] + Seen(fmt, more) == acc + Seen(fmt, cpixels);
    }
  }

  // ---------------------------------------------------------------- run lengths

  lemma LengthNext(len: nat)
    requires len > 255
    ensures Length(len) == [255] + Length(len - 255)
  {
    assert (len - 1) / 255 == (len - 256) / 255 + 1 && (len - 1) % 255 == (len - 256) % 255;
  }

  lemma {:induction false} LengthIs(len: nat, rest: seq<byte>, acc: nat)
    requires len > 0
    ensures ReadRunLength(Length(len) + rest, acc) == Got(acc + len - 1, rest)
    decreases len
  {
    if len > 255 {
      LengthNext(len);
      Regroup([255], Length(len - 255), rest);
      TakeFront([255], Length(len - 255) + rest, Protocol);
      LengthIs(len - 255, rest, acc + 255);
    } else {
      assert Length(len) == [len - 1];
      TakeFront([len - 1], rest, Protocol);
    }
  }

  lemma {:induction false} LengthWas(data: seq<byte>, acc: nat)
    requires ReadRunLength(data, acc).Got?
    ensures var r := ReadRunLength(data, acc); data == Length(r.value - acc + 1) + r.rest
    decreases |data|
  {
    var r := ReadRunLength(data, acc);
    var b, left := data[0], data[1..];
    assert data == [b] + left && data[..1] == [b];
    if b == 255 {
      LengthWas(left, acc + 255);
      LengthNext(r.value - acc + 1);
      Regroup([255], Length(r.value - acc + 1 - 255), r.rest);
    } else {
      assert Length(b + 1) == [b];
    }
  }

  // ---------------------------------------------------------------- packed rows

  /** A field is what its bits spell. */
  lemma {:induction false} FieldSpelt(row: seq<byte>, j: nat, n: nat)
    requires j % 8 + n <= 8 && j / 8 < |row| && j + n <= 8 * |row| && n > 0
    ensures Spelt(row, j, n) == Shr(row[j / 8], 8 - n - j % 8) % Pow2(n)
    decreases n
  {
    hide Shr;
    var x := row[j / 8];
    var k, s := j + n - 1, 8 - n - j % 8;
    SameByte(j, n);
    assert BitOf(row, k) == Shr(x, s) % 2;
    hide BitOf;
    if n > 1 {
      FieldSpelt(row, j, n - 1);
      HalfShr(x, s);
      ModHalf(Shr(x, s), Pow2(n - 1));
    } else {
      Pow2Table();
    }
  }

  lemma SameByte(j: nat, n: nat)
    requires j % 8 + n <= 8 && n > 0
    ensures (j + n - 1) / 8 == j / 8 && (j + n - 1) % 8 == j % 8 + n - 1
  {
    DivModUnique(j + n - 1, 8, j / 8, j % 8 + n - 1);
  }

  lemma HalfShr(x: nat, s: nat)
    ensures Shr(x, s + 1) == Shr(x, s) / 2
  {
    ShrAdd(x, s, 1);
    assert Shr(Shr(x, s), 1) == Shr(Shr(x, s) / 2, 0);
  }

  lemma BitsInside(w: nat, bits: nat, c: nat)
    requires bits in {1, 2, 4} && c < w
    ensures BitsFit(w, bits, c) && (c * bits) % 8 + bits <= 8 && 0 <= c * bits / 8 < (w * bits + 7) / 8
  {
    FieldInside(w, bits, c);
    MulMono(c + 1, w, bits);
    MulMono(0, c, bits);
  }

  lemma RowLong(row: seq<byte>, n: nat, w: nat)
    requires 2 <= n <= 16
    ensures PackedBits(n) == IndexBits(n)
    ensures |row| == RowBytes(w, PackedBits(n)) <==> |row| == (w * IndexBits(n) + 7) / 8
  {
  }

  /** One more column of a row. */
  lemma NextColumn(palette: seq<Rgba>, row: seq<byte>, bits: nat, w: nat, c: nat, acc: seq<Rgba>)
    requires bits in {1, 2, 4} && |row| == RowBytes(w, bits) && c < w
    ensures BitsFit(w, bits, c)
    ensures var idx := Spelt(row, c * bits, bits);
      UnpackRow(row, palette, bits, w, c, acc)
      == if idx < |palette| then UnpackRow(row, palette, bits, w, c + 1, acc + [palette[idx]]) else Err(Protocol)
  {
    BitsInside(w, bits, c);
    var j := c * bits;
    FieldSpelt(row, j, bits);
    assert Field(row, bits, j) == Spelt(row, j, bits);
    hide Spelt, Field, Opaque, BitsFit;
  }

  lemma NoColumns(palette: seq<Rgba>, row: seq<byte>, bits: nat, w: nat, acc: seq<Rgba>)
    requires bits in {1, 2, 4} && |row| == RowBytes(w, bits)
    ensures UnpackRow(row, palette, bits, w, w, acc) == Ok(acc + [])
  {
    assert acc + [] == acc;
  }

  /** A row is unpacked exactly when it is proper, and to what it shows. */
  lemma {:induction false} RowIff(palette: seq<Rgba>, row: seq<byte>, w: nat, c: nat, acc: seq<Rgba>)
    requires 2 <= |palette| <= 16 && |row| == RowBytes(w, IndexBits(|palette|)) && c <= w
    ensures var r := UnpackRow(row, palette, IndexBits(|palette|), w, c, acc);
      if forall d: nat :: c <= d < w ==> IndexFits(row, |palette|, w, d) then r == Ok(acc + RowFrom(palette, row, w, c))
      else r == Err(Protocol)
    decreases w - c
  {
    var bits := IndexBits(|palette|);
    hide Spelt, Opaque, UnpackRow, BitsFit;
    if c == w {
      NoColumns(palette, row, bits, w, acc);
    } else {
      NextColumn(palette, row, bits, w, c, acc);
      var idx := Spelt(row, c * bits, bits);
      assert IndexFits(row, |palette|, w, c) <==> idx < |palette|;
      hide IndexFits;
      if idx < |palette| {
        RowIff(palette, row, w, c + 1, acc + [palette[idx]]);
        if forall d: nat :: c + 1 <= d < w ==> IndexFits(row, |palette|, w, d) {
          Regroup(acc, [palette[idx]], RowFrom(palette, row, w, c + 1));
        }
      }
    }
  }

  lemma WholeRow(palette: seq<Rgba>, row: seq<byte>, w: nat, acc: seq<Rgba>)
    requires 2 <= |palette| <= 16 && |row| == RowBytes(w, PackedBits(|palette|))
    ensures var r := UnpackRow(row, palette, PackedBits(|palette|), w, 0, acc);
      if ProperRow(row, |palette|, w) then r == Ok(acc + RowSeen(palette, row, w)) else r == Err(Protocol)
  {
    RowLong(row, |palette|, w);
    RowIff(palette, row, w, 0, acc);
    hide Spelt, UnpackRow, RowFrom;
  }

  lemma {:induction false} RowsAre(palette: seq<Rgba>, rows: seq<seq<byte>>, w: nat, rest: seq<byte>, acc: seq<Rgba>)
    requires 2 <= |palette| <= 16 && forall i :: 0 <= i < |rows| ==> ProperRow(rows[i], |palette|, w)
    ensures UnpackRows(Concat(rows) + rest, palette, PackedBits(|palette|), w, |rows|, acc)
         == Got(acc + RowsSeen(palette, rows, w), rest)
    decreases |rows|
  {
    hide UnpackRow, RowSeen, Opaque, ProperRow;
    if |rows| == 0 {
      assert [] + rest == rest && acc + [] == acc;
    } else {
      var row, more := rows[0], rows[1..];
      Regroup(row, Concat(more), rest);
      RowSize(row, |palette|, w);
      TakeFront(row, Concat(more) + rest, Protocol);
      WholeRow(palette, row, w, acc);
      RowsAre(palette, more, w, rest, acc + RowSeen(palette, row, w));
      Regroup(acc, RowSeen(palette, row, w), RowsSeen(palette, more, w));
    }
  }

  lemma RowSize(row: seq<byte>, n: nat, w: nat)
    requires 2 <= n <= 16 && ProperRow(row, n, w)
    ensures |row| == RowBytes(w, PackedBits(n))
  {
  }

  lemma {:induction false} RowsWere(palette: seq<Rgba>, data: seq<byte>, w: nat, h: nat, acc: seq<Rgba>)
    returns (rows: seq<seq<byte>>)
    requires 2 <= |palette| <= 16 && UnpackRows(data, palette, PackedBits(|palette|), w, h, acc).Got?
    ensures |rows| == h && forall i :: 0 <= i < |rows| ==> ProperRow(rows[i], |palette|, w)
    ensures var r := UnpackRows(data, palette, PackedBits(|palette|), w, h, acc);
      data == Concat(rows) + r.rest && r.value == acc + RowsSeen(palette, rows, w)
    decreases h
  {
    hide UnpackRow, RowSeen, Opaque, ProperRow, PackedBits, RowBytes;
    var bits := PackedBits(|palette|);
    var n := RowBytes(w, bits);
    if h == 0 {
      rows := [];
      assert [] + data == data && acc + [] == acc;
    } else {
      var row, left := data[..n], data[n..];
      WholeRow(palette, row, w, acc);
      var more := RowsWere(palette, left, w, h - 1, acc + RowSeen(palette, row, w));
      rows := [row] + more;
      assert rows[1..] == more && data == row + left;
      Regroup(row, Concat(more), UnpackRows(data, palette, bits, w, h, acc).rest);
      Regroup(acc, RowSeen(palette, row, w), RowsSeen(palette, more, w));
    }
  }

  // ---------------------------------------------------------------- runs

  lemma {:induction false} RunsAre(fmt: Format, runs: seq<Run>, rest: seq<byte>, count: nat, acc: seq<Rgba>)
    requires ProperRuns(fmt, runs) && |acc| + |RunsSeen(fmt, runs)| == count
    ensures ReadPlainRuns(fmt, RunBytes(runs) + rest, count, acc) == Got(acc + RunsSeen(fmt, runs), rest)
    decreases |runs|
  {
    hide FromCpixel, Length, ReadRunLength, Opaque;
    if |runs| == 0 {
      assert [] + rest == rest && acc + [] == acc;
    } else {
      var run, more := runs[0], runs[1..];
      var tail := RunBytes(more) + rest;
      assert RunBytes(runs) + rest == run.cpixel + (Length(run.len) + tail);
      TakeFront(run.cpixel, Length(run.len) + tail, Protocol);
      LengthIs(run.len, tail, 1);
      var px := Fill(FromCpixel(fmt, run.cpixel), run.len);
      RunsAre(fmt, more, rest, count, acc + px);
      Regroup(acc, px, RunsSeen(fmt, more));
    }
  }

  lemma {:induction false} RunsWere(fmt: Format, data: seq<byte>, count: nat, acc: seq<Rgba>) returns (runs: seq<Run>)
    requires ReadPlainRuns(fmt, data, count, acc).Got? && |acc| <= count
    ensures ProperRuns(fmt, runs)
    ensures var r := ReadPlainRuns(fmt, data, count, acc);
      data == RunBytes(runs) + r.rest && r.value == acc + RunsSeen(fmt, runs)
    decreases |data|
  {
    hide FromCpixel, Length, ReadRunLength, Opaque;
    if |acc| == count {
      runs := [];
      assert [] + data == data && acc + [] == acc;
    } else {
      var c, left := data[..fmt.CpixelBytes()], data[fmt.CpixelBytes()..];
      var r := ReadPlainRuns(fmt, data, count, acc);
      LengthWas(left, 1);
      var len, tail := ReadRunLength(left, 1).value, ReadRunLength(left, 1).rest;
      var px := Fill(FromCpixel(fmt, c), len);
      var more := RunsWere(fmt, tail, count, acc + px);
      runs := [Run(c, len)] + more;
      assert runs[1..] == more;
      assert data == c + Length(len) + RunBytes(more) + r.rest;
      Regroup(acc, px, RunsSeen(fmt, more));
    }
  }

  lemma EntryIs(e: Entry, rest: seq<byte>)
    requires e.index < 128 && e.len > 0 && (!e.flagged ==> e.len == 1)
    ensures ReadEntry(EntryByte(e) + rest) == Got((e.index, e.len), rest)
  {
    hide Length, ReadRunLength;
    if e.flagged {
      Regroup([128 + e.index], Length(e.len), rest);
      TakeFront([128 + e.index], Length(e.len) + rest, Protocol);
      LengthIs(e.len, rest, 1);
      assert (128 + e.index) % 128 == e.index;
    } else {
      TakeFront([e.index], rest, Protocol);
    }
  }

  lemma EntryWas(data: seq<byte>) returns (e: Entry)
    requires ReadEntry(data).Got?
    ensures e.index < 128 && e.len > 0 && (!e.flagged ==> e.len == 1)
    ensures var r := ReadEntry(data); data == EntryByte(e) + r.rest && r.value == (e.index, e.len)
  {
    hide Length, ReadRunLength;
    var b, left := data[0], data[1..];
    assert data == [b] + left && data[..1] == [b];
    if b < 128 {
      e := Entry(b, false, 1);
    } else {
      LengthWas(left, 1);
      e := Entry(b - 128, true, ReadRunLength(left, 1).value);
      assert b % 128 == b - 128;
      Regroup([b], Length(e.len), ReadEntry(data).rest);
    }
  }

  lemma {:induction false} EntriesAre(palette: seq<Rgba>, entries: seq<Entry>, rest: seq<byte>, count: nat,
                                          acc: seq<Rgba>)
    requires |palette| <= 127 && ProperEntries(entries, |palette|)
    requires |acc| + |EntriesSeen(palette, entries)| == count
    ensures ReadPaletteRuns(EntryBytes(entries) + rest, palette, count, acc)
         == Got(acc + EntriesSeen(palette, entries), rest)
    decreases |entries|
  {
    hide ReadEntry, EntryByte, Opaque;
    if |entries| == 0 {
      assert [] + rest == rest && acc + [] == acc;
    } else {
      var e, more := entries[0], entries[1..];
      Regroup(EntryByte(e), EntryBytes(more), rest);
      EntryIs(e, EntryBytes(more) + rest);
      var px := Fill(palette[e.index], e.len);
      EntriesAre(palette, more, rest, count, acc + px);
      Regroup(acc, px, EntriesSeen(palette, more));
    }
  }

  lemma {:induction false} EntriesWere(palette: seq<Rgba>, data: seq<byte>, count: nat, acc: seq<Rgba>)
    returns (entries: seq<Entry>)
    requires ReadPaletteRuns(data, palette, count, acc).Got? && |acc| <= count && |palette| <= 127
    ensures ProperEntries(entries, |palette|)
    ensures var r := ReadPaletteRuns(data, palette, count, acc);
      data == EntryBytes(entries) + r.rest && r.value == acc + EntriesSeen(palette, entries)
    decreases |data|
  {
    hide ReadEntry, EntryByte, Opaque;
    if |acc| == count {
      entries := [];
      assert [] + data == data && acc + [] == acc;
    } else {
      var r := ReadPaletteRuns(data, palette, count, acc);
      var e := EntryWas(data);
      var left := ReadEntry(data).rest;
      var px := Fill(palette[e.index], e.len);
      var more := EntriesWere(palette, left, count, acc + px);
      entries := [e] + more;
      assert entries[1..] == more;
      Regroup(EntryByte(e), EntryBytes(more), r.rest);
      Regroup(acc, px, EntriesSeen(palette, more));
    }
  }

  // ---------------------------------------------------------------- whole tiles

  /** `data` begins with this tile, which shows `px`, and goes on with `rest`. */
  ghost predicate IsTile(fmt: Format, data: seq<byte>, w: nat, h: nat, t: Tile, px: seq<Rgba>, rest: seq<byte>) {
    Proper(fmt, t, w, h) && data == Wire(t) + rest && px == Shown(fmt, t, w, h)
  }

  lemma Kind(sub: byte, body: seq<byte>)
    ensures TakeTile([sub] + body, 1) == Got([sub], body)
  {
    TakeFront([sub], body, Protocol);
  }

  lemma ColoursRead(fmt: Format, data: seq<byte>, w: nat, h: nat, t: Tile, px: seq<Rgba>, rest: seq<byte>)
    requires IsTile(fmt, data, w, h, t, px, rest) && t.Colours?
    ensures ReadTile(fmt, data, w, h) == Got(px, rest)
  {
    hide TakeTile, ReadCpixels, UnpackRows, ReadPlainRuns, ReadPaletteRuns;
    hide RowsSeen, RunsSeen, EntriesSeen, Seen, Concat;
    hide ProperRow, RunBytes, EntryBytes, FromCpixel, PackedBits;
    MulMono(0, h, w);
    var Colours(cpixels) := t;
    Regroup([0], Concat(cpixels), rest);
    Kind(0, Concat(cpixels) + rest);
    CpixelsAre(fmt, cpixels, rest, []);
    assert [] + Seen(fmt, cpixels) == Seen(fmt, cpixels);
  }

  lemma OneColourReads(fmt: Format, data: seq<byte>, w: nat, h: nat, t: Tile, px: seq<Rgba>, rest: seq<byte>)
    requires IsTile(fmt, data, w, h, t, px, rest) && t.OneColour?
    ensures ReadTile(fmt, data, w, h) == Got(px, rest)
  {
    hide TakeTile, ReadCpixels, UnpackRows, ReadPlainRuns, ReadPaletteRuns;
    hide RowsSeen, RunsSeen, EntriesSeen, Seen, Concat;
    hide ProperRow, RunBytes, EntryBytes, FromCpixel, PackedBits;
    MulMono(0, h, w);
    var OneColour(cpixel) := t;
    Regroup([1], cpixel, rest);
    Kind(1, cpixel + rest);
    OneCpixel(fmt, cpixel, rest);
  }

  lemma IndexedReads(fmt: Format, data: seq<byte>, w: nat, h: nat, t: Tile, px: seq<Rgba>, rest: seq<byte>)
    requires IsTile(fmt, data, w, h, t, px, rest) && t.Indexed?
    ensures ReadTile(fmt, data, w, h) == Got(px, rest)
  {
    hide TakeTile, ReadCpixels, UnpackRows, ReadPlainRuns, ReadPaletteRuns;
    hide RowsSeen, RunsSeen, EntriesSeen, Seen, Concat;
    hide ProperRow, RunBytes, EntryBytes, FromCpixel, PackedBits;
    MulMono(0, h, w);
    var Indexed(palette, rows) := t;
    var colours := Seen(fmt, palette);
    assert data == [|palette|] + (Concat(palette) + (Concat(rows) + rest));
    Kind(|palette|, Concat(palette) + (Concat(rows) + rest));
    CpixelsAre(fmt, palette, Concat(rows) + rest, []);
    assert [] + colours == colours;
    RowsAre(colours, rows, w, rest, []);
    assert [] + RowsSeen(colours, rows, w) == RowsSeen(colours, rows, w);
  }

  lemma RunsRead(fmt: Format, data: seq<byte>, w: nat, h: nat, t: Tile, px: seq<Rgba>, rest: seq<byte>)
    requires IsTile(fmt, data, w, h, t, px, rest) && t.Runs?
    ensures ReadTile(fmt, data, w, h) == Got(px, rest)
  {
    hide TakeTile, ReadCpixels, UnpackRows, ReadPlainRuns, ReadPaletteRuns;
    hide RowsSeen, RunsSeen, EntriesSeen, Seen, Concat;
    hide ProperRow, RunBytes, EntryBytes, FromCpixel, PackedBits;
    MulMono(0, h, w);
    var Runs(runs) := t;
    Regroup([128], RunBytes(runs), rest);
    Kind(128, RunBytes(runs) + rest);
    RunsAre(fmt, runs, rest, w * h, []);
    assert [] + RunsSeen(fmt, runs) == RunsSeen(fmt, runs);
  }

  lemma IndexedRunsRead(fmt: Format, data: seq<byte>, w: nat, h: nat, t: Tile, px: seq<Rgba>, rest: seq<byte>)
    requires IsTile(fmt, data, w, h, t, px, rest) && t.IndexedRuns?
    ensures ReadTile(fmt, data, w, h) == Got(px, rest)
  {
    hide TakeTile, ReadCpixels, UnpackRows, ReadPlainRuns, ReadPaletteRuns;
    hide RowsSeen, RunsSeen, EntriesSeen, Seen, Concat;
    hide ProperRow, RunBytes, EntryBytes, FromCpixel, PackedBits;
    MulMono(0, h, w);
    var IndexedRuns(palette, entries) := t;
    var colours := Seen(fmt, palette);
    assert data == [128 + |palette|] + (Concat(palette) + (EntryBytes(entries) + rest));
    Kind(128 + |palette|, Concat(palette) + (EntryBytes(entries) + rest));
    CpixelsAre(fmt, palette, EntryBytes(entries) + rest, []);
    assert [] + colours == colours;
    EntriesAre(colours, entries, rest, w * h, []);
    assert [] + EntriesSeen(colours, entries) == EntriesSeen(colours, entries);
  }

  lemma TileReads(fmt: Format, data: seq<byte>, w: nat, h: nat, t: Tile, px: seq<Rgba>, rest: seq<byte>)
    requires IsTile(fmt, data, w, h, t, px, rest)
    ensures ReadTile(fmt, data, w, h) == Got(px, rest)
  {
    hide ReadTile, IsTile;
    match t
    case Colours(_) => ColoursRead(fmt, data, w, h, t, px, rest);
    case OneColour(_) => OneColourReads(fmt, data, w, h, t, px, rest);
    case Indexed(_, _) => IndexedReads(fmt, data, w, h, t, px, rest);
    case Runs(_) => RunsRead(fmt, data, w, h, t, px, rest);
    case IndexedRuns(_, _) => IndexedRunsRead(fmt, data, w, h, t, px, rest);
  }

  lemma OneCpixel(fmt: Format, cpixel: seq<byte>, rest: seq<byte>)
    requires |cpixel| == fmt.CpixelBytes()
    ensures ReadCpixel(fmt, cpixel + rest) == Got(FromCpixel(fmt, cpixel), rest)
  {
    TakeFront(cpixel, rest, Protocol);
  }

  lemma PlainWas(fmt: Format, data: seq<byte>, w: nat, h: nat) returns (t: Tile)
    requires ReadTile(fmt, data, w, h).Got? && (data[0] <= 1 || data[0] == 128)
    ensures IsTile(fmt, data, w, h, t, ReadTile(fmt, data, w, h).value, ReadTile(fmt, data, w, h).rest)
  {
    hide ReadCpixels, UnpackRows, ReadPlainRuns, ReadPaletteRuns, RowsSeen, RunsSeen, EntriesSeen, Seen, Concat;
    hide ProperRow, RunBytes, EntryBytes, FromCpixel, PackedBits;
    MulMono(0, h, w);
    var r := ReadTile(fmt, data, w, h);
    var sub, body := data[0], data[1..];
    assert data[..1] == [sub] && data == [sub] + body;
    if sub == 0 {
      var cpixels := CpixelsWere(fmt, body, w * h, []);
      assert [] + Seen(fmt, cpixels) == Seen(fmt, cpixels);
      t := Colours(cpixels);
      Regroup([0], Concat(cpixels), r.rest);
    } else if sub == 1 {
      t := OneColour(body[..fmt.CpixelBytes()]);
      assert body == t.cpixel + r.rest;
    } else {
      var runs := RunsWere(fmt, body, w * h, []);
      assert [] + RunsSeen(fmt, runs) == RunsSeen(fmt, runs);
      t := Runs(runs);
      Regroup([128], RunBytes(runs), r.rest);
    }
  }

  lemma IndexedWas(fmt: Format, data: seq<byte>, w: nat, h: nat) returns (t: Tile)
    requires ReadTile(fmt, data, w, h).Got? && 2 <= data[0] <= 16
    ensures IsTile(fmt, data, w, h, t, ReadTile(fmt, data, w, h).value, ReadTile(fmt, data, w, h).rest)
  {
    hide ReadCpixels, UnpackRows, ReadPlainRuns, ReadPaletteRuns, RowsSeen, RunsSeen, EntriesSeen, Seen, Concat;
    hide ProperRow, RunBytes, EntryBytes, FromCpixel, PackedBits;
    MulMono(0, h, w);
    var r := ReadTile(fmt, data, w, h);
    var sub, body := data[0], data[1..];
    assert data[..1] == [sub] && data == [sub] + body;
    var palette := CpixelsWere(fmt, body, sub, []);
    var colours := Seen(fmt, palette);
    assert [] + colours == colours;
    var left := ReadCpixels(fmt, body, sub, []).rest;
    var rows := RowsWere(colours, left, w, h, []);
    assert [] + RowsSeen(colours, rows, w) == RowsSeen(colours, rows, w);
    t := Indexed(palette, rows);
    assert data == [sub] + (Concat(palette) + Concat(rows)) + r.rest;
  }

  lemma IndexedRunsWas(fmt: Format, data: seq<byte>, w: nat, h: nat) returns (t: Tile)
    requires ReadTile(fmt, data, w, h).Got? && data[0] >= 130
    ensures IsTile(fmt, data, w, h, t, ReadTile(fmt, data, w, h).value, ReadTile(fmt, data, w, h).rest)
  {
    hide ReadCpixels, UnpackRows, ReadPlainRuns, ReadPaletteRuns, RowsSeen, RunsSeen, EntriesSeen, Seen, Concat;
    hide ProperRow, RunBytes, EntryBytes, FromCpixel, PackedBits;
    MulMono(0, h, w);
    var r := ReadTile(fmt, data, w, h);
    var sub, body := data[0], data[1..];
    assert data[..1] == [sub] && data == [sub] + body;
    var palette := CpixelsWere(fmt, body, sub - 128, []);
    var colours := Seen(fmt, palette);
    assert [] + colours == colours;
    var left := ReadCpixels(fmt, body, sub - 128, []).rest;
    var entries := EntriesWere(colours, left, w * h, []);
    assert [] + EntriesSeen(colours, entries) == EntriesSeen(colours, entries);
    t := IndexedRuns(palette, entries);
    assert data == [sub] + (Concat(palette) + EntryBytes(entries)) + r.rest;
  }

  lemma TileWas(fmt: Format, data: seq<byte>, w: nat, h: nat) returns (t: Tile)
    requires ReadTile(fmt, data, w, h).Got?
    ensures IsTile(fmt, data, w, h, t, ReadTile(fmt, data, w, h).value, ReadTile(fmt, data, w, h).rest)
  {
    hide IsTile;
    assert data[..1] == [data[0]];
    if data[0] <= 1 || data[0] == 128 {
      t := PlainWas(fmt, data, w, h);
    } else if data[0] <= 16 {
      t := IndexedWas(fmt, data, w, h);
    } else {
      t := IndexedRunsWas(fmt, data, w, h);
    }
  }

  /** The decoder reads a tile off the front of a byte string, to these pixels and leaving these bytes, if and
      only if the string begins with the bytes of a proper tile that shows them: every other kind byte, every
      index outside its palette, every run past the end and every shortfall is refused. */
  lemma TileIff(fmt: Format, data: seq<byte>, w: nat, h: nat, px: seq<Rgba>, rest: seq<byte>)
    ensures ReadTile(fmt, data, w, h) == Got(px, rest) <==> exists t :: IsTile(fmt, data, w, h, t, px, rest)
  {
    hide ReadTile, IsTile;
    forall t | IsTile(fmt, data, w, h, t, px, rest) ensures ReadTile(fmt, data, w, h) == Got(px, rest) {
      TileReads(fmt, data, w, h, t, px, rest);
    }
    if ReadTile(fmt, data, w, h) == Got(px, rest) { var t := TileWas(fmt, data, w, h); }
  }
}
