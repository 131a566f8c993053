/** The loops of the ZRLE decoder, each proved to read what `ZrleDecode` says. */
module ZrleDecoder {
  import opened Bytes
  import opened PixelFormats
  import opened Grid
  import opened Pictures
  import opened Reads
  import opened ZrleDecode

  /** The bytes of a rect and how far into them the decoder is; `Rest` is what the specification still reads. */
  class Cursor {
    const data: seq<byte>
    var pos: nat

    ghost predicate Valid()
      reads this
    {
      pos <= |data|
    }

    ghost function Rest(): seq<byte>
      reads this
      requires Valid()
    {
      data[pos..]
    }

    constructor (data: seq<byte>)
      ensures Valid() && Rest() == data
    {
      this.data := data;
      pos := 0;
    }

    /** The next `n` bytes. Running off the end moves nothing. */
    method Take(n: nat) returns (r: Result<seq<byte>>)
      requires Valid()
      modifies this`pos
      ensures Valid()
      ensures match TakeTile(old(Rest()), n)
              case Got(b, rest) => r == Ok(b) && Rest() == rest
              case Bad(e) => r == Err(e) && Rest() == old(Rest())
    {
      var end := pos + n;
      if end > |data| {
        return Err(Protocol);
      }
      assert data[pos..end] == data[pos..][..n];
      r := Ok(data[pos..end]);
      pos := end;
    }

    method U8() returns (r: Result<byte>)
      requires Valid()
      modifies this`pos
      ensures Valid()
      ensures match TakeTile(old(Rest()), 1)
              case Got(b, rest) => r == Ok(b[0]) && Rest() == rest
              case Bad(e) => r == Err(e) && Rest() == old(Rest())
    {
      var b := Take(1);
      match b
      case Err(e) => r := Err(e);
      case Ok(bytes) => r := Ok(bytes[0]);
    }
  }

  /** A method's pixel bytes, and the bytes left after them, are what the specification reads. */
  ghost predicate Decoded(r: Result<seq<byte>>, left: seq<byte>, spec: Read<seq<Rgba>>) {
    match spec
    case Got(cells, rest) => r.Ok? && |r.value| % 4 == 0 && Cells(r.value) == cells && left == rest
    case Bad(e) => r == Err(e)
  }

  lemma DecodedBad(e: Error, left: seq<byte>)
    ensures Decoded(Err(e), left, Bad(e))
  {
  }

  lemma DecodedGot(px: seq<byte>, left: seq<byte>)
    requires |px| % 4 == 0
    ensures Decoded(Ok(px), left, Got(Cells(px), left))
  {
  }

  /** `read_cpixel`: refill the dropped byte with zero, then read the whole pixel. */
  method ReadOneCpixel(cur: Cursor, fmt: Format) returns (r: Result<Rgba>)
    requires cur.Valid()
    modifies cur`pos
    ensures cur.Valid()
    ensures match ReadCpixel(fmt, old(cur.Rest()))
            case Got(c, rest) => r == Ok(c) && cur.Rest() == rest
            case Bad(e) => r == Err(e)
  {
    var cb := fmt.CpixelBytes();
    var taken := cur.Take(cb);
    if taken.Err? {
      return Err(taken.error);
    }
    var bytes := taken.value;
    var bpp := fmt.BytesPerPixel();
    if cb == bpp {
      var v := ReadPixel(fmt, bytes);
      assert bytes[..bpp] == bytes;
      return Ok(ToRgba(fmt, v));
    }
    var wire := new byte[bpp](_ => 0);
    CopyFromSlice(wire, fmt.CpixelOffset(), bytes);
    assert wire[..] == Refill(fmt, bytes);
    var v := ReadPixel(fmt, wire[..]);
    assert wire[..][..bpp] == wire[..];
    r := Ok(ToRgba(fmt, v));
  }

  method ReadPalette(cur: Cursor, fmt: Format, n: nat) returns (r: Result<seq<Rgba>>)
    requires cur.Valid()
    modifies cur`pos
    ensures cur.Valid()
    ensures match ReadCpixels(fmt, old(cur.Rest()), n, [])
            case Got(p, rest) => r == Ok(p) && cur.Rest() == rest
            case Bad(e) => r == Err(e)
  {
    var palette: seq<Rgba> := [];
    for i := 0 to n
      invariant cur.Valid()
      invariant ReadCpixels(fmt, old(cur.Rest()), n, []) == ReadCpixels(fmt, cur.Rest(), n - i, palette)
    {
      var c := ReadOneCpixel(cur, fmt);
      if c.Err? {
        return Err(c.error);
      }
      palette := palette + [c.value];
    }
    r := Ok(palette);
  }

  method ReadLength(cur: Cursor) returns (r: Result<nat>)
    requires cur.Valid()
    modifies cur`pos
    ensures cur.Valid()
    ensures match ReadRunLength(old(cur.Rest()), 1)
            case Got(n, rest) => r == Ok(n) && cur.Rest() == rest
            case Bad(e) => r == Err(e)
  {
    var len: nat := 1;
    while true
      invariant cur.Valid()
      invariant ReadRunLength(old(cur.Rest()), 1) == ReadRunLength(cur.Rest(), len)
      decreases |cur.data| - cur.pos
    {
      ghost var before := cur.Rest();
      var b := cur.U8();
      if b.Err? {
        return Err(b.error);
      }
      assert |cur.Rest()| < |before|;
      len := len + b.value;
      if b.value != 255 {
        return Ok(len);
      }
    }
  }

  /** `push_run` on the byte buffer. */
  method PushRunBytes(px: seq<byte>, c: Rgba, run: nat, count: nat) returns (r: Result<seq<byte>>)
    requires |px| % 4 == 0
    ensures match PushRun(Cells(px), c, run, count)
            case Ok(cells) => r.Ok? && |r.value| % 4 == 0 && Cells(r.value) == cells
            case Err(e) => r == Err(e)
  {
    if |px| / 4 + run > count {
      return Err(Protocol);
    }
    var out := AppendRun(px, c, run);
    r := Ok(out);
  }

  /** One pixel appended to a growing byte buffer. */
  lemma Extended(px: seq<byte>, c: Rgba)
    requires |px| % 4 == 0
    ensures |px + RgbaBytes(c)| % 4 == 0 && Cells(px + RgbaBytes(c)) == Cells(px) + [c]
  {
    CellsAppend(px, RgbaBytes(c));
    CellsOne(c);
  }

  method DecodeRaw(cur: Cursor, fmt: Format, count: nat) returns (r: Result<seq<byte>>)
    requires cur.Valid()
    modifies cur`pos
    ensures cur.Valid()
    ensures Decoded(r, cur.Rest(), ReadCpixels(fmt, old(cur.Rest()), count, []))
  {
    var px: seq<byte> := [];
    assert Cells(px) == [];
    hide Cells, ReadCpixel, ReadCpixels, Opaque, Decoded;
    ghost var whole := ReadCpixels(fmt, cur.Rest(), count, []);
    for i := 0 to count
      invariant cur.Valid() && |px| % 4 == 0
      invariant whole == ReadCpixels(fmt, cur.Rest(), count - i, Cells(px))
    {
      ReadCpixelsNext(fmt, cur.Rest(), count - i, Cells(px));
      var more := DecodeOne(cur, fmt, px);
      if more.Err? {
        DecodedBad(more.error, cur.Rest());
        return more;
      }
      px := more.value;
    }
    ReadCpixelsEnd(fmt, cur.Rest(), Cells(px));
    DecodedGot(px, cur.Rest());
    r := Ok(px);
  }

  /** One more pixel on the end of the buffer. */
  method DecodeOne(cur: Cursor, fmt: Format, px: seq<byte>) returns (r: Result<seq<byte>>)
    requires cur.Valid() && |px| % 4 == 0
    modifies cur`pos
    ensures cur.Valid()
    ensures match ReadCpixel(fmt, old(cur.Rest()))
            case Got(c, rest) => r.Ok? && |r.value| % 4 == 0 && Cells(r.value) == Cells(px) + [c] && cur.Rest() == rest
            case Bad(e) => r == Err(e)
  {
    hide Cells, ReadCpixel;
    var c := ReadOneCpixel(cur, fmt);
    if c.Err? {
      return Err(c.error);
    }
    Extended(px, c.value);
    r := Ok(px + RgbaBytes(c.value));
  }

  lemma ReadCpixelsEnd(fmt: Format, data: seq<byte>, acc: seq<Rgba>)
    ensures ReadCpixels(fmt, data, 0, acc) == Got(acc, data)
  {
  }

  lemma ReadCpixelsNext(fmt: Format, data: seq<byte>, n: nat, acc: seq<Rgba>)
    requires n > 0
    ensures ReadCpixels(fmt, data, n, acc)
         == match ReadCpixel(fmt, data)
            case Bad(e) => Bad(e)
            case Got(c, rest) => ReadCpixels(fmt, rest, n - 1, acc + [c])
  {
  }

  method DecodeSolid(cur: Cursor, fmt: Format, count: nat) returns (r: Result<seq<byte>>)
    requires cur.Valid()
    modifies cur`pos
    ensures cur.Valid()
    ensures match ReadCpixel(fmt, old(cur.Rest()))
            case Got(c, rest) => Decoded(r, cur.Rest(), Got(Fill(c, count), rest))
            case Bad(e) => r == Err(e)
  {
    var c := ReadOneCpixel(cur, fmt);
    if c.Err? {
      return Err(c.error);
    }
    var px := AppendRun([], c.value, count);
    assert Cells([]) + Fill(c.value, count) == Fill(c.value, count);
    r := Ok(px);
  }

  /** `run` copies of one colour on the end of the buffer. */
  method AppendRun(px: seq<byte>, c: Rgba, run: nat) returns (out: seq<byte>)
    requires |px| % 4 == 0
    ensures |out| % 4 == 0 && Cells(out) == Cells(px) + Fill(c, run)
  {
    out := px;
    for i := 0 to run
      invariant |out| % 4 == 0 && Cells(out) == Cells(px) + Fill(c, i)
    {
      Extended(out, c);
      assert Fill(c, i + 1) == Fill(c, i) + [c];
      out := out + RgbaBytes(c);
    }
  }

  method DecodePackedRow(raw: seq<byte>, palette: seq<Rgba>, bits: nat, tw: nat, px: seq<byte>)
      returns (r: Result<seq<byte>>)
    requires bits in {1, 2, 4} && |raw| == RowBytes(tw, bits) && |px| % 4 == 0
    ensures match UnpackRow(raw, palette, bits, tw, 0, Cells(px))
            case Ok(cells) => r.Ok? && |r.value| % 4 == 0 && Cells(r.value) == cells
            case Err(e) => r == Err(e)
  {
    hide Cells, Opaque, Shr, Pow2;
    var out := px;
    ghost var whole := UnpackRow(raw, palette, bits, tw, 0, Cells(px));
    for col := 0 to tw
      invariant |out| % 4 == 0
      invariant whole == UnpackRow(raw, palette, bits, tw, col, Cells(out))
    {
      var bit := col * bits;
      FieldInside(tw, bits, col);
      var shift := 8 - bits - bit % 8;
      var idx := Shr(raw[bit / 8], shift) % Pow2(bits);
      if idx >= |palette| {
        return Err(Protocol);
      }
      Extended(out, palette[idx]);
      out := out + RgbaBytes(palette[idx]);
    }
    r := Ok(out);
  }

  /** The next packed row off the cursor. */
  method DecodeNextRow(cur: Cursor, palette: seq<Rgba>, bits: nat, tw: nat, px: seq<byte>)
      returns (r: Result<seq<byte>>)
    requires cur.Valid() && bits in {1, 2, 4} && |px| % 4 == 0
    modifies cur`pos
    ensures cur.Valid()
    ensures match TakeTile(old(cur.Rest()), RowBytes(tw, bits))
            case Bad(e) => r == Err(e)
            case Got(raw, rest) =>
              match UnpackRow(raw, palette, bits, tw, 0, Cells(px))
              case Err(e) => r == Err(e)
              case Ok(cells) => r.Ok? && |r.value| % 4 == 0 && Cells(r.value) == cells && cur.Rest() == rest
  {
    hide Cells, UnpackRow, RowBytes, Opaque;
    var raw := cur.Take(RowBytes(tw, bits));
    if raw.Err? {
      return Err(raw.error);
    }
    r := DecodePackedRow(raw.value, palette, bits, tw, px);
  }

  method DecodePacked(cur: Cursor, palette: seq<Rgba>, tw: nat, th: nat) returns (r: Result<seq<byte>>)
    requires cur.Valid()
    modifies cur`pos
    ensures cur.Valid()
    ensures Decoded(r, cur.Rest(), UnpackRows(old(cur.Rest()), palette, PackedBits(|palette|), tw, th, []))
  {
    var bits := PackedBits(|palette|);
    var px: seq<byte> := [];
    assert Cells(px) == [];
    hide Cells, UnpackRow, UnpackRows, RowBytes, Opaque, PackedBits, TakeTile, Decoded;
    ghost var whole := UnpackRows(cur.Rest(), palette, bits, tw, th, []);
    for row := 0 to th
      invariant cur.Valid() && |px| % 4 == 0
      invariant whole == UnpackRows(cur.Rest(), palette, bits, tw, th - row, Cells(px))
    {
      UnpackRowsNext(cur.Rest(), palette, bits, tw, th - row, Cells(px));
      var more := DecodeNextRow(cur, palette, bits, tw, px);
      if more.Err? {
        DecodedBad(more.error, cur.Rest());
        return more;
      }
      px := more.value;
    }
    UnpackRowsEnd(cur.Rest(), palette, bits, tw, Cells(px));
    DecodedGot(px, cur.Rest());
    r := Ok(px);
  }

  lemma UnpackRowsEnd(data: seq<byte>, palette: seq<Rgba>, bits: nat, tw: nat, acc: seq<Rgba>)
    requires bits in {1, 2, 4}
    ensures UnpackRows(data, palette, bits, tw, 0, acc) == Got(acc, data)
  {
  }

  lemma UnpackRowsNext(data: seq<byte>, palette: seq<Rgba>, bits: nat, tw: nat, rows: nat, acc: seq<Rgba>)
    requires bits in {1, 2, 4} && rows > 0
    ensures UnpackRows(data, palette, bits, tw, rows, acc)
         == match TakeTile(data, RowBytes(tw, bits))
            case Bad(e) => Bad(e)
            case Got(raw, rest) =>
              match UnpackRow(raw, palette, bits, tw, 0, acc)
              case Err(e) => Bad(e)
              case Ok(px) => UnpackRows(rest, palette, bits, tw, rows - 1, px)
  {
  }

  method DecodePlainRuns(cur: Cursor, fmt: Format, count: nat) returns (r: Result<seq<byte>>)
    requires cur.Valid()
    modifies cur`pos
    ensures cur.Valid()
    ensures Decoded(r, cur.Rest(), ReadPlainRuns(fmt, old(cur.Rest()), count, []))
  {
    var px: seq<byte> := [];
    assert Cells(px) == [];
    while |px| < count * 4
      invariant cur.Valid() && |px| % 4 == 0
      invariant ReadPlainRuns(fmt, old(cur.Rest()), count, []) == ReadPlainRuns(fmt, cur.Rest(), count, Cells(px))
      decreases |cur.data| - cur.pos
    {
      ghost var before := cur.Rest();
      var c := ReadOneCpixel(cur, fmt);
      if c.Err? {
        return Err(c.error);
      }
      var run := ReadLength(cur);
      if run.Err? {
        return Err(run.error);
      }
      assert |cur.Rest()| < |before|;
      var more := PushRunBytes(px, c.value, run.value, count);
      if more.Err? {
        return Err(more.error);
      }
      px := more.value;
    }
    r := Ok(px);
  }

  method DecodePaletteRuns(cur: Cursor, palette: seq<Rgba>, count: nat) returns (r: Result<seq<byte>>)
    requires cur.Valid()
    modifies cur`pos
    ensures cur.Valid()
    ensures Decoded(r, cur.Rest(), ReadPaletteRuns(old(cur.Rest()), palette, count, []))
  {
    var px: seq<byte> := [];
    assert Cells(px) == [];
    while |px| < count * 4
      invariant cur.Valid() && |px| % 4 == 0
      invariant ReadPaletteRuns(old(cur.Rest()), palette, count, [])
          == ReadPaletteRuns(cur.Rest(), palette, count, Cells(px))
      decreases |cur.data| - cur.pos
    {
      ghost var before := cur.Rest();
      var entry := ReadRunEntry(cur);
      if entry.Err? {
        return Err(entry.error);
      }
      assert |cur.Rest()| < |before|;
      var (idx, run) := entry.value;
      if idx >= |palette| {
        return Err(Protocol);
      }
      var more := PushRunBytes(px, palette[idx], run, count);
      if more.Err? {
        return Err(more.error);
      }
      px := more.value;
    }
    r := Ok(px);
  }

  method ReadRunEntry(cur: Cursor) returns (r: Result<(nat, nat)>)
    requires cur.Valid()
    modifies cur`pos
    ensures cur.Valid()
    ensures match ReadEntry(old(cur.Rest()))
            case Got(entry, rest) => r == Ok(entry) && cur.Rest() == rest
            case Bad(e) => r == Err(e)
  {
    var b := cur.U8();
    if b.Err? {
      return Err(b.error);
    }
    if b.value < 128 {
      return Ok((b.value, 1));
    }
    var n := ReadLength(cur);
    match n
    case Err(e) => r := Err(e);
    case Ok(run) => r := Ok((b.value % 128, run));
  }

  /** `decode_tile`, against `ReadTile`. */
  method DecodeTile(cur: Cursor, fmt: Format, tw: nat, th: nat) returns (r: Result<seq<byte>>)
    requires cur.Valid()
    modifies cur`pos
    ensures cur.Valid()
    ensures Decoded(r, cur.Rest(), ReadTile(fmt, old(cur.Rest()), tw, th))
  {
    var count := tw * th;
    MulMono(0, th, tw);
    var head := cur.U8();
    if head.Err? {
      return Err(head.error);
    }
    var sub := head.value;
    if sub == 0 {
      r := DecodeRaw(cur, fmt, count);
    } else if sub == 1 {
      r := DecodeSolid(cur, fmt, count);
    } else if sub <= 16 {
      var palette := ReadPalette(cur, fmt, sub);
      if palette.Err? {
        return Err(palette.error);
      }
      r := DecodePacked(cur, palette.value, tw, th);
    } else if sub == 128 {
      r := DecodePlainRuns(cur, fmt, count);
    } else if sub >= 130 {
      var palette := ReadPalette(cur, fmt, sub - 128);
      if palette.Err? {
        return Err(palette.error);
      }
      r := DecodePaletteRuns(cur, palette.value, count);
    } else {
      r := Err(Protocol);
    }
    // The runs can neither fall short nor overflow, so the length the source checks here is exact.
  }

  /** The body of the tile loop: decode one tile and copy its rows into the rect. */
  method DecodeTileInto(cur: Cursor, fmt: Format, out: array<byte>, w: nat, h: nat, tx: nat, ty: nat, tw: nat, th: nat)
    returns (failed: Option<Error>)
    requires cur.Valid()
    requires w * h >= 0 && out.Length == w * h * 4 && tx < w && ty < h
    requires tw == Min(TILE, w - tx) && th == Min(TILE, h - ty)
    modifies cur`pos, out
    ensures cur.Valid()
    ensures ReadTilesFrom(fmt, old(cur.Rest()), w, h, tx, ty, Cells(old(out[..])))
         == match failed
            case None => ReadTilesFrom(fmt, cur.Rest(), w, h, tx + TILE, ty, Cells(out[..]))
            case Some(e) => Bad(e)
  {
    var tile := DecodeTile(cur, fmt, tw, th);
    if tile.Err? {
      return Some(tile.error);
    }
    MulMono(0, th, tw);
    PlaceBytes(out, w, h, tx, ty, tile.value, tw, th);
    failed := None;
  }

  /** The inner loop: one band of tiles, left to right. */
  method DecodeBand(cur: Cursor, fmt: Format, out: array<byte>, w: nat, h: nat, ty: nat) returns (failed: Option<Error>)
    requires cur.Valid()
    requires w * h >= 0 && out.Length == w * h * 4 && ty < h
    modifies cur`pos, out
    ensures cur.Valid()
    ensures ReadTilesFrom(fmt, old(cur.Rest()), w, h, 0, ty, Cells(old(out[..])))
         == match failed
            case None => ReadTilesFrom(fmt, cur.Rest(), w, h, 0, ty + TILE, Cells(out[..]))
            case Some(e) => Bad(e)
  {
    hide ReadTilesFrom, Cells;
    ghost var spec := ReadTilesFrom(fmt, cur.Rest(), w, h, 0, ty, Cells(out[..]));
    var th := Min(TILE, h - ty);
    var tx: nat := 0;
    while tx < w
      invariant cur.Valid()
      invariant spec == ReadTilesFrom(fmt, cur.Rest(), w, h, tx, ty, Cells(out[..]))
      decreases w - tx
    {
      var tw := Min(TILE, w - tx);
      failed := DecodeTileInto(cur, fmt, out, w, h, tx, ty, tw, th);
      if failed.Some? {
        return;
      }
      tx := tx + TILE;
    }
    BandEnds(fmt, cur.Rest(), w, h, tx, ty, Cells(out[..]));
    failed := None;
  }

  lemma BandEnds(fmt: Format, data: seq<byte>, w: nat, h: nat, tx: nat, ty: nat, cells: seq<Rgba>)
    requires |cells| == w * h && w <= tx && ty < h
    ensures ReadTilesFrom(fmt, data, w, h, tx, ty, cells) == ReadTilesFrom(fmt, data, w, h, 0, ty + TILE, cells)
  {
    hide ReadTile, Place;
  }

  /** `decode_tiles`, against `ReadTiles`. */
  method DecodeTiles(data: seq<byte>, fmt: Format, w: u16, h: u16) returns (r: Result<seq<byte>>)
    ensures match ReadTiles(fmt, data, w, h)
            case Got(cells, _) => r.Ok? && |r.value| % 4 == 0 && Cells(r.value) == cells && |r.value| == 4 * (w * h)
            case Bad(e) => r == Err(e)
  {
    hide ReadTile, Place, Cells;
    var rw: nat, rh: nat := w, h;
    MulMono(0, rh, rw);
    var n: nat := rw * rh;
    var out := ClearBuffer(n);
    var cur := new Cursor(data);
    ghost var spec := ReadTiles(fmt, data, rw, rh);
    assert spec == ReadTilesFrom(fmt, cur.Rest(), rw, rh, 0, 0, Cells(out[..]));
    var ty: nat := 0;
    while ty < rh
      invariant cur.Valid() && out.Length == n * 4
      invariant spec == ReadTilesFrom(fmt, cur.Rest(), rw, rh, 0, ty, Cells(out[..]))
      decreases rh - ty
    {
      var failed := DecodeBand(cur, fmt, out, rw, rh, ty);
      if failed.Some? {
        return Err(failed.value);
      }
      ty := ty + TILE;
    }
    assert spec == Got(Cells(out[..]), cur.Rest());
    r := Ok(out[..]);
  }

  method ClearBuffer(n: nat) returns (out: array<byte>)
    ensures fresh(out) && out.Length == n * 4 && Cells(out[..]) == Fill(CLEAR, n)
  {
    out := new byte[n * 4](_ => 0);
  }

  /** Copy the first `rows` rows of a tile's bytes into a buffer's rows. */
  method PlaceBytes(out: array<byte>, w: nat, h: nat, x: nat, y: nat, tile: seq<byte>, tw: nat, rows: nat)
    requires w * h >= 0 && out.Length == w * h * 4 && x + tw <= w && y + rows <= h
    requires rows * tw >= 0 && rows * tw * 4 <= |tile| && |tile| % 4 == 0
    modifies out
    ensures Cells(out[..]) == Place(old(Cells(out[..])), w, h, x, y, Cells(tile), tw, rows)
  {
    hide Cells, Place, Splice;
    ghost var was := Cells(out[..]);
    ghost var n := w * h;
    PlaceNone(was, w, h, x, y, Cells(tile), tw);
    for row := 0 to rows
      invariant 0 <= row * tw <= rows * tw && out.Length == 4 * n
      invariant Cells(out[..]) == Place(was, w, h, x, y, Cells(tile), tw, row)
    {
      PlaceNext(was, w, h, x, y, Cells(tile), tw, row, rows);
      var at, from := (y + row) * w + x, row * tw;
      CellsSlice(tile, from, from + tw);
      CellsSplice(out[..], at, tile[4 * from..4 * (from + tw)]);
      CopyFromSlice(out, 4 * at, tile[4 * from..4 * (from + tw)]);
    }
  }
}
