/** The client's half of ZRLE: what a string of tile bytes means. */
module ZrleDecode {
  import opened Bytes
  import opened PixelFormats
  import opened Grid
  import opened Pictures
  import opened Reads

  const TILE: nat := 64

  /** Running off the end of the tile bytes is a protocol error. */
  function TakeTile(data: seq<byte>, n: nat): (r: Read<seq<byte>>)
    ensures r.Bad? ==> r.error == Protocol
    ensures r.Got? ==> |r.value| == n && r.value + r.rest == data
  {
    Take(data, n, Protocol)
  }

  function ReadCpixel(fmt: Format, data: seq<byte>): (r: Read<Rgba>)
    ensures r.Bad? ==> r.error == Protocol
    ensures r.Got? ==> r.value.a == 255 && |r.rest| <= |data|
  {
    match TakeTile(data, fmt.CpixelBytes())
    case Bad(e) => Bad(e)
    case Got(w, rest) => Got(FromCpixel(fmt, w), rest)
  }

  /** `n` CPIXELs after the ones already read. */
  function ReadCpixels(fmt: Format, data: seq<byte>, n: nat, acc: seq<Rgba>): (r: Read<seq<Rgba>>)
    ensures r.Bad? ==> r.error == Protocol
    ensures r.Got? ==> |r.value| == |acc| + n && |r.rest| <= |data|
    ensures r.Got? && Opaque(acc) ==> Opaque(r.value)
    decreases n
  {
    if n == 0 then Got(acc, data)
    else match ReadCpixel(fmt, data)
      case Bad(e) => Bad(e)
      case Got(c, rest) => ReadCpixels(fmt, rest, n - 1, acc + [c])
  }

  /** Zero or more 255s, then one byte below it, added to what is already counted. */
  function ReadRunLength(data: seq<byte>, len: nat): (r: Read<nat>)
    ensures r.Bad? ==> r.error == Protocol
    ensures r.Got? ==> r.value >= len && |r.rest| < |data|
    decreases |data|
  {
    match TakeTile(data, 1)
    case Bad(e) => Bad(e)
    case Got(b, rest) =>
      if b[0] != 255 then Got(len + b[0], rest) else ReadRunLength(rest, len + b[0])
  }

  /** How wide the packed field is that can number `n` colours. */
  function PackedBits(n: nat): (bits: nat)
    ensures bits in {1, 2, 4}
  {
    if n <= 2 then 1 else if n <= 4 then 2 else 4
  }

  function RowBytes(tw: nat, bits: nat): nat {
    (tw * bits + 7) / 8
  }

  /** The `bits`-wide field `bit` bits into `raw`, most significant bit first. */
  function Field(raw: seq<byte>, bits: nat, bit: nat): nat
    requires bits in {1, 2, 4} && bit / 8 < |raw| && bit % 8 + bits <= 8
  {
    Shr(raw[bit / 8], 8 - bits - bit % 8) % Pow2(bits)
  }

  lemma FieldInside(tw: nat, bits: nat, col: nat)
    requires bits in {1, 2, 4} && col < tw
    ensures 0 <= col * bits / 8 < RowBytes(tw, bits) && (col * bits) % 8 + bits <= 8
  {
    if bits == 1 {
      assert col * bits == col && tw * bits == tw;
    } else if bits == 2 {
      assert col * bits == 2 * col && tw * bits == 2 * tw;
    } else {
      assert col * bits == 4 * col && tw * bits == 4 * tw;
    }
  }

  /** One packed row from column `col` on. */
  function UnpackRow(raw: seq<byte>, palette: seq<Rgba>, bits: nat, tw: nat, col: nat,
      acc: seq<Rgba>): (r: Result<seq<Rgba>>)
    requires bits in {1, 2, 4} && |raw| == RowBytes(tw, bits) && col <= tw
    ensures r.Err? ==> r.error == Protocol
    ensures r.Ok? ==> |r.value| == |acc| + (tw - col)
    ensures r.Ok? && Opaque(acc) && Opaque(palette) ==> Opaque(r.value)
    decreases tw - col
  {
    if col == tw then Ok(acc)
    else
      FieldInside(tw, bits, col);
      var idx := Field(raw, bits, col * bits);
      if idx < |palette| then UnpackRow(raw, palette, bits, tw, col + 1, acc + [palette[idx]])
      else Err(Protocol)
  }

  /** `rows` packed rows after the pixels already read. */
  function UnpackRows(data: seq<byte>, palette: seq<Rgba>, bits: nat, tw: nat, rows: nat,
      acc: seq<Rgba>): (r: Read<seq<Rgba>>)
    requires bits in {1, 2, 4}
    ensures r.Bad? ==> r.error == Protocol
    ensures r.Got? ==> |r.rest| <= |data|
    ensures r.Got? && Opaque(acc) && Opaque(palette) ==> Opaque(r.value)
    decreases rows
  {
    if rows == 0 then Got(acc, data)
    else match TakeTile(data, RowBytes(tw, bits))
      case Bad(e) => Bad(e)
      case Got(raw, rest) =>
        match UnpackRow(raw, palette, bits, tw, 0, acc)
        case Err(e) => Bad(e)
        case Ok(px) => UnpackRows(rest, palette, bits, tw, rows - 1, px)
  }

  lemma {:induction false} UnpackRowsSize(data: seq<byte>, palette: seq<Rgba>, bits: nat, tw: nat, rows: nat,
                                           acc: seq<Rgba>)
    requires bits in {1, 2, 4}
    ensures var r := UnpackRows(data, palette, bits, tw, rows, acc); r.Got? ==> |r.value| == |acc| + tw * rows
    decreases rows
  {
    hide Opaque, RowBytes, UnpackRow;
    if rows > 0 {
      match TakeTile(data, RowBytes(tw, bits))
      case Bad(_) =>
      case Got(raw, rest) =>
        match UnpackRow(raw, palette, bits, tw, 0, acc)
        case Err(_) =>
        case Ok(px) =>
          UnpackRowsSize(rest, palette, bits, tw, rows - 1, px);
          assert tw * rows == tw * (rows - 1) + tw;
    }
  }

  /** A run on the end of the pixels so far, or an error if that makes more than `count`. */
  function PushRun(px: seq<Rgba>, c: Rgba, run: nat, count: nat): (r: Result<seq<Rgba>>)
    ensures r.Err? ==> r.error == Protocol
    ensures r.Ok? ==> |r.value| == |px| + run <= count
    ensures r.Ok? && c.a == 255 && Opaque(px) ==> Opaque(r.value)
  {
    if |px| + run > count then Err(Protocol) else Ok(px + Fill(c, run))
  }

  /** The rest of a plain-run tile of `count` pixels, of which `acc` are already read. */
  function ReadPlainRuns(fmt: Format, data: seq<byte>, count: nat, acc: seq<Rgba>): (r: Read<seq<Rgba>>)
    ensures r.Bad? ==> r.error == Protocol
    ensures r.Got? ==> |r.value| >= count && |r.rest| <= |data|
    ensures r.Got? && |acc| <= count ==> |r.value| == count
    ensures r.Got? && Opaque(acc) ==> Opaque(r.value)
    decreases |data|
  {
    if |acc| >= count then Got(acc, data)
    else match ReadCpixel(fmt, data)
      case Bad(e) => Bad(e)
      case Got(c, afterColour) =>
        match ReadRunLength(afterColour, 1)
        case Bad(e) => Bad(e)
        case Got(run, rest) =>
          match PushRun(acc, c, run, count)
          case Err(e) => Bad(e)
          case Ok(px) => ReadPlainRuns(fmt, rest, count, px)
  }

  /** A palette index and its run: bit 7 says whether a run length follows. */
  function ReadEntry(data: seq<byte>): (r: Read<(nat, nat)>)
    ensures r.Bad? ==> r.error == Protocol
    ensures r.Got? ==> |r.rest| < |data|
  {
    match TakeTile(data, 1)
    case Bad(e) => Bad(e)
    case Got(b, rest) =>
      if b[0] < 128 then Got((b[0], 1), rest)
      else match ReadRunLength(rest, 1)
        case Bad(e) => Bad(e)
        case Got(run, after) => Got((b[0] % 128, run), after)
  }

  /** Palette indices with or without a run length, until the tile is full. */
  function ReadPaletteRuns(data: seq<byte>, palette: seq<Rgba>, count: nat, acc: seq<Rgba>): (r: Read<seq<Rgba>>)
    ensures r.Bad? ==> r.error == Protocol
    ensures r.Got? ==> |r.value| >= count && |r.rest| <= |data|
    ensures r.Got? && |acc| <= count ==> |r.value| == count
    ensures r.Got? && Opaque(acc) && Opaque(palette) ==> Opaque(r.value)
    decreases |data|
  {
    if |acc| >= count then Got(acc, data)
    else match ReadEntry(data)
      case Bad(e) => Bad(e)
      case Got((idx, run), rest) =>
        if idx >= |palette| then Bad(Protocol)
        else match PushRun(acc, palette[idx], run, count)
          case Err(e) => Bad(e)
          case Ok(px) => ReadPaletteRuns(rest, palette, count, px)
  }

  /** One tile's pixels. */
  function ReadTile(fmt: Format, data: seq<byte>, tw: nat, th: nat): (r: Read<seq<Rgba>>)
    ensures r.Bad? ==> r.error == Protocol
    ensures r.Got? ==> |r.value| == tw * th && |r.rest| <= |data| && Opaque(r.value)
  {
    MulMono(0, th, tw);
    var count := tw * th;
    match TakeTile(data, 1)
    case Bad(e) => Bad(e)
    case Got(b, body) =>
      var sub := b[0];
      if sub == 0 then ReadCpixels(fmt, body, count, [])
      else if sub == 1 then
        match ReadCpixel(fmt, body)
        case Bad(e) => Bad(e)
        case Got(c, rest) => Got(Fill(c, count), rest)
      else if sub <= 16 then
        match ReadCpixels(fmt, body, sub, [])
        case Bad(e) => Bad(e)
        case Got(palette, rest) =>
          UnpackRowsSize(rest, palette, PackedBits(|palette|), tw, th, []);
          UnpackRows(rest, palette, PackedBits(|palette|), tw, th, [])
      else if sub == 128 then ReadPlainRuns(fmt, body, count, [])
      else if sub >= 130 then
        match ReadCpixels(fmt, body, sub - 128, [])
        case Bad(e) => Bad(e)
        case Got(palette, rest) => ReadPaletteRuns(rest, palette, count, [])
      else Bad(Protocol)
  }

  /** The tiles from `(tx, ty)` on, each laid into the rect as it is read. */
  function ReadTilesFrom(fmt: Format, data: seq<byte>, w: nat, h: nat, tx: nat, ty: nat,
      out: seq<Rgba>): (r: Read<seq<Rgba>>)
    requires |out| == w * h
    ensures r.Bad? ==> r.error == Protocol
    ensures r.Got? ==> |r.value| == w * h
    decreases if ty < h then h - ty else 0, if tx < w then w - tx else 0
  {
    if ty >= h then Got(out, data)
    else if tx >= w then ReadTilesFrom(fmt, data, w, h, 0, ty + TILE, out)
    else
      var tw, th := Min(TILE, w - tx), Min(TILE, h - ty);
      match ReadTile(fmt, data, tw, th)
      case Bad(e) => Bad(e)
      case Got(px, rest) =>
        ReadTilesFrom(fmt, rest, w, h, tx + TILE, ty, Place(out, w, h, tx, ty, px, tw, th))
  }

  /** The zeroes the rect's buffer starts as. */
  const CLEAR: Rgba := Rgba(0, 0, 0, 0)

  /** A whole rect: its pixels, or why its bytes are not one. Bytes after the last tile are ignored. */
  function ReadTiles(fmt: Format, data: seq<byte>, w: nat, h: nat): (r: Read<seq<Rgba>>)
    ensures r.Bad? ==> r.error == Protocol
    ensures r.Got? ==> |r.value| == w * h
  {
    MulMono(0, h, w);
    ReadTilesFrom(fmt, data, w, h, 0, 0, Fill(CLEAR, w * h))
  }
}
