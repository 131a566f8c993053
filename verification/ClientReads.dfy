/** What a server's bytes do to a client: messages, rects and the framebuffer they paint. */
module ClientReads {
  import opened Bytes
  import opened PixelFormats
  import opened Grid
  import opened Pictures
  import opened Reads
  import opened Framebuffers
  import opened Latin1
  import opened Zlib
  import RawRects
  import ZrleDecode

  const ENC_RAW: int := 0
  const ENC_COPY_RECT: int := 1
  const ENC_ZRLE: int := 16
  const ENC_DESKTOP_SIZE: int := -223

  const FRAMEBUFFER_UPDATE: byte := 0
  const SET_COLOUR_MAP_ENTRIES: byte := 1
  const BELL: byte := 2
  const SERVER_CUT_TEXT: byte := 3

  const MAX_CUT_TEXT: nat := 8 * 1024 * 1024
  const MAX_ZRLE_PAYLOAD: nat := 64 * 1024 * 1024

  // ---------------------------------------------------------------- fields of the stream

  /** The next `n` bytes of the connection. */
  function Owed(data: seq<byte>, n: nat): (r: Read<seq<byte>>)
    ensures r.Got? ==> |r.value| == n && r.value + r.rest == data
    ensures r.Bad? ==> r.error == Ended
  {
    Take(data, n, Ended)
  }

  /** A big-endian field of `n` bytes. */
  function Field(data: seq<byte>, n: nat): (r: Read<nat>)
    ensures r.Got? ==> r.value < Pow256(n) && |r.rest| == |data| - n
    ensures r.Bad? ==> r.error == Ended
  {
    match Owed(data, n)
    case Bad(e) => Bad(e)
    case Got(b, rest) => FromBeBound(b); Got(FromBe(b), rest)
  }

  lemma FieldFront(v: nat, n: nat, rest: seq<byte>)
    requires v < Pow256(n)
    ensures Field(Be(v, n) + rest, n) == Got(v, rest)
  {
    TakeFront(Be(v, n), rest, Ended);
    FromBeBe(v, n);
    DivModUnique(v, Pow256(n), 0, v);
  }

  function U16(data: seq<byte>): (r: Read<u16>)
    ensures r.Bad? ==> r.error == Ended
    ensures r.Got? ==> |r.rest| == |data| - 2
  {
    Pow256Table();
    match Field(data, 2) case Bad(e) => Bad(e) case Got(v, rest) => Got(v, rest)
  }

  function U32(data: seq<byte>): (r: Read<u32>)
    ensures r.Bad? ==> r.error == Ended
    ensures r.Got? ==> |r.rest| == |data| - 4
  {
    Pow256Table();
    match Field(data, 4) case Bad(e) => Bad(e) case Got(v, rest) => Got(v, rest)
  }

  lemma U16Front(v: u16, rest: seq<byte>)
    ensures U16(Be(v, 2) + rest) == Got(v, rest)
  {
    Pow256Table();
    FieldFront(v, 2, rest);
  }

  lemma U32Front(v: u32, rest: seq<byte>)
    ensures U32(Be(v, 4) + rest) == Got(v, rest)
  {
    Pow256Table();
    FieldFront(v, 4, rest);
  }

  /** Two's complement. */
  function AsI32(v: u32): int {
    if v < 0x8000_0000 then v else v - 0x1_0000_0000
  }

  // ---------------------------------------------------------------- the client

  /** What the read loop tells subscribers. */
  datatype Event = Resized(width: u16, height: u16) | Painted(generation: nat) | Bell | CutText(text: string)

  /** The read loop's books: updates begun, the last one that painted, how many have, requests counted
      since the last answer, whether the next one asks for everything, requests it has queued itself, and
      the events it has emitted. */
  datatype Books = Books(continuous: bool, updatesBegun: nat, lastPainted: nat, generation: nat, outstanding: nat,
                         needsFull: bool, asked: nat, events: seq<Event>)
  {
    function Tell(e: Event): Books {
      this.(events := events + [e])
    }
  }

  /** What the read loop changes: the framebuffer, whether it was painted since it was allocated,
      the slices the connection's one inflater has been fed, the last cut text, and its books. */
  datatype Client = Client(fb: Picture, painted: bool, slices: seq<seq<byte>>, cutText: Option<string>, books: Books)
  {
    predicate Valid() {
      fb.Valid() && Opaque(fb.px)
    }
  }

  /** A client fresh from the handshake. */
  function Connected(width: u16, height: u16, continuous: bool): (c: Client)
    ensures c.Valid()
  {
    Client(Solid(width, height, BLACK), false, [], None, Books(continuous, 0, 0, 0, 0, true, 0, []))
  }

  /** The first byte of an update has been read. */
  function Begun(c: Client): Client {
    c.(books := c.books.(updatesBegun := c.books.updatesBegun + 1))
  }

  /** A DesktopSize rect: a new black framebuffer, and nothing for the next request to be relative to. */
  function Resize(c: Client, width: u16, height: u16): Client {
    c.(fb := Solid(width, height, BLACK), painted := false,
       books := c.books.(needsFull := true).Tell(Resized(width, height)))
  }

  /** All of an update's rects are in. It answers every request counted so far; a resize or continuous
      mode queues and counts another; and a paint is recorded and announced after that. */
  function Concluded(c: Client, paints: bool, resizes: bool): Client {
    var asks := resizes || c.books.continuous;
    var answered := c.books.(outstanding := if asks then 1 else 0, asked := c.books.asked + (if asks then 1 else 0));
    if paints then
      c.(painted := true,
         books := answered.(generation := answered.generation + 1, lastPainted := answered.updatesBegun)
                          .Tell(Painted(answered.generation + 1)))
    else c.(books := answered)
  }

  /** Reading went well and left the rest, or failed for good; either way the client is as it was left. */
  datatype Outcome = Went(client: Client, rest: seq<byte>) | Failed(client: Client, error: Error)

  /** One rect also says whether it painted or resized. */
  datatype RectOutcome =
    | RectWent(client: Client, rest: seq<byte>, paints: bool, resizes: bool)
    | RectFailed(client: Client, error: Error)

  datatype Header = Header(x: u16, y: u16, w: u16, h: u16, encoding: int)

  function ReadHeader(data: seq<byte>): (r: Read<Header>)
    ensures r.Bad? ==> r.error == Ended
    ensures r.Got? ==> |r.rest| < |data|
  {
    match U16(data) case Bad(e) => Bad(e) case Got(x, d1) =>
    match U16(d1) case Bad(e) => Bad(e) case Got(y, d2) =>
    match U16(d2) case Bad(e) => Bad(e) case Got(w, d3) =>
    match U16(d3) case Bad(e) => Bad(e) case Got(h, d4) =>
    match U32(d4) case Bad(e) => Bad(e) case Got(code, rest) => Got(Header(x, y, w, h, AsI32(code)), rest)
  }

  /** A painted picture, or the client as it was. */
  function Landed(c: Client, p: Result<Picture>, rest: seq<byte>): RectOutcome {
    match p
    case Ok(fb) => RectWent(c.(fb := fb), rest, true, false)
    case Err(e) => RectFailed(c, e)
  }

  function ReadRawRect(fmt: Format, c: Client, hd: Header, data: seq<byte>): RectOutcome
    requires c.Valid()
  {
    MulMono(0, hd.h, hd.w);
    MulMono(0, hd.w * hd.h, fmt.BytesPerPixel());
    match Owed(data, hd.w * hd.h * fmt.BytesPerPixel())
    case Bad(e) => RectFailed(c, e)
    case Got(raw, rest) => Landed(c, PaintRaw(c.fb, hd.x, hd.y, hd.w, hd.h, fmt, raw), rest)
  }

  function ReadCopyRect(c: Client, hd: Header, data: seq<byte>): RectOutcome
    requires c.Valid()
  {
    match U16(data) case Bad(e) => RectFailed(c, e) case Got(srcX, d1) =>
    match U16(d1) case Bad(e) => RectFailed(c, e) case Got(srcY, rest) =>
    Landed(c, Move(c.fb, hd.x, hd.y, hd.w, hd.h, srcX, srcY), rest)
  }

  /** A ZRLE rect: its payload goes through the connection's inflater before it is decoded. */
  function ReadZrleRect(z: Codec, fmt: Format, c: Client, hd: Header, data: seq<byte>): RectOutcome
    requires c.Valid()
  {
    match U32(data)
    case Bad(e) => RectFailed(c, e)
    case Got(len, d1) =>
      if len > MAX_ZRLE_PAYLOAD then RectFailed(c, Protocol)
      else match Owed(d1, len)
        case Bad(e) => RectFailed(c, e)
        case Got(payload, rest) =>
          var fed := c.(slices := c.slices + [payload]);
          match z.inflate(c.slices, payload)
          case None => RectFailed(fed, Protocol)
          case Some(plain) =>
            match ZrleDecode.ReadTiles(fmt, plain, hd.w, hd.h)
            case Bad(e) => RectFailed(fed, e)
            case Got(px, _) => Landed(fed, Paint(c.fb, hd.x, hd.y, hd.w, hd.h, px), rest)
  }

  function ReadRect(z: Codec, fmt: Format, c: Client, data: seq<byte>): RectOutcome
    requires c.Valid()
  {
    match ReadHeader(data)
    case Bad(e) => RectFailed(c, e)
    case Got(hd, body) =>
      if hd.encoding == ENC_RAW then ReadRawRect(fmt, c, hd, body)
      else if hd.encoding == ENC_COPY_RECT then ReadCopyRect(c, hd, body)
      else if hd.encoding == ENC_ZRLE then ReadZrleRect(z, fmt, c, hd, body)
      else if hd.encoding == ENC_DESKTOP_SIZE then
        RectWent(Resize(c, hd.w, hd.h), body, false, true)
      else RectFailed(c, UnsupportedEncoding(hd.encoding))
  }

  /** `count` more rects; `paints` says whether one has painted already. */
  function ReadRects(z: Codec, fmt: Format, c: Client, data: seq<byte>, count: nat, paints: bool,
      resizes: bool): RectOutcome
    requires c.Valid()
    decreases count
  {
    if count == 0 then RectWent(c, data, paints, resizes)
    else
      RectKeepsValid(z, fmt, c, data);
      match ReadRect(z, fmt, c, data)
      case RectFailed(failed, e) => RectFailed(failed, e)
      case RectWent(next, rest, p, r) => ReadRects(z, fmt, next, rest, count - 1, paints || p, resizes || r)
  }

  /** A FramebufferUpdate after its type byte: begun at once, concluded when every rect is in. */
  function ReadUpdate(z: Codec, fmt: Format, before: Client, data: seq<byte>): Outcome
    requires before.Valid()
  {
    var c := Begun(before);
    match Owed(data, 1) case Bad(e) => Failed(c, e) case Got(_, d1) =>
    match U16(d1) case Bad(e) => Failed(c, e) case Got(count, d2) =>
    match ReadRects(z, fmt, c, d2, count, false, false)
    case RectFailed(failed, e) => Failed(failed, e)
    case RectWent(next, rest, paints, resizes) => Went(Concluded(next, paints, resizes), rest)
  }

  function ReadColourMap(c: Client, data: seq<byte>): Outcome {
    match Owed(data, 1) case Bad(e) => Failed(c, e) case Got(_, d1) =>
    match U16(d1) case Bad(e) => Failed(c, e) case Got(_, d2) =>
    match U16(d2) case Bad(e) => Failed(c, e) case Got(count, d3) =>
    match Owed(d3, count * 6) case Bad(e) => Failed(c, e) case Got(_, rest) => Went(c, rest)
  }

  function ReadCutText(c: Client, data: seq<byte>): Outcome {
    match Owed(data, 3) case Bad(e) => Failed(c, e) case Got(_, d1) =>
    match U32(d1) case Bad(e) => Failed(c, e) case Got(len, d2) =>
    if len > MAX_CUT_TEXT then Failed(c, Protocol)
    else match Owed(d2, len) case Bad(e) => Failed(c, e) case Got(b, rest) =>
    Went(c.(cutText := Some(FromLatin1(b)), books := c.books.Tell(CutText(FromLatin1(b)))), rest)
  }

  function ReadMessage(z: Codec, fmt: Format, c: Client, data: seq<byte>): Outcome
    requires c.Valid()
  {
    match Owed(data, 1)
    case Bad(e) => Failed(c, e)
    case Got(kind, body) =>
      if kind[0] == FRAMEBUFFER_UPDATE then ReadUpdate(z, fmt, c, body)
      else if kind[0] == SET_COLOUR_MAP_ENTRIES then ReadColourMap(c, body)
      else if kind[0] == BELL then Went(c.(books := c.books.Tell(Bell)), body)
      else if kind[0] == SERVER_CUT_TEXT then ReadCutText(c, body)
      else Failed(c, Protocol)
  }

  /** `n` messages in a row. */
  function ReadMessages(z: Codec, fmt: Format, c: Client, data: seq<byte>, n: nat): Outcome
    requires c.Valid()
    decreases n
  {
    if n == 0 then Went(c, data)
    else
      MessageKeepsValid(z, fmt, c, data);
      match ReadMessage(z, fmt, c, data)
      case Failed(failed, e) => Failed(failed, e)
      case Went(next, rest) => ReadMessages(z, fmt, next, rest, n - 1)
  }

  // ---------------------------------------------------------------- whatever a server sends

  /** However a rect turns out, the framebuffer keeps its shape and every pixel is opaque. */
  lemma RectKeepsValid(z: Codec, fmt: Format, c: Client, data: seq<byte>)
    requires c.Valid()
    ensures ReadRect(z, fmt, c, data).client.Valid()
  {
    match ReadHeader(data)
    case Bad(_) =>
    case Got(hd, body) =>
      if hd.encoding == ENC_RAW {
        RawKeepsValid(fmt, c, hd, body);
      } else if hd.encoding == ENC_COPY_RECT {
        CopyKeepsValid(c, hd, body);
      } else if hd.encoding == ENC_ZRLE {
        ZrleKeepsValid(z, fmt, c, hd, body);
      }
  }

  lemma PaintKeepsOpaque(p: Picture, x: u16, y: u16, w: u16, h: u16, px: seq<Rgba>)
    requires p.Valid() && Opaque(p.px) && Opaque(px)
    ensures Paint(p, x, y, w, h, px).Ok? ==> Opaque(Paint(p, x, y, w, h, px).value.px)
  {
    hide Place;
    if Paint(p, x, y, w, h, px).Ok? {
      assert h * w == w * h;
      PlaceOpaque(p.px, p.width, p.height, x, y, px, w, h);
    }
  }

  lemma RawKeepsValid(fmt: Format, c: Client, hd: Header, data: seq<byte>)
    requires c.Valid()
    ensures ReadRawRect(fmt, c, hd, data).client.Valid()
  {
    hide Paint, RawRects.RawCells;
    MulMono(0, hd.h, hd.w);
    match Owed(data, hd.w * hd.h * fmt.BytesPerPixel())
    case Bad(_) =>
    case Got(raw, _) =>
      if hd.w * hd.h * fmt.BytesPerPixel() <= |raw| {
        PaintKeepsOpaque(c.fb, hd.x, hd.y, hd.w, hd.h, RawRects.RawCells(fmt, raw, hd.w * hd.h));
      }
  }

  lemma CopyKeepsValid(c: Client, hd: Header, data: seq<byte>)
    requires c.Valid()
    ensures ReadCopyRect(c, hd, data).client.Valid()
  {
    hide Paint, Region;
    match U16(data)
    case Bad(_) =>
    case Got(srcX, d1) =>
      match U16(d1)
      case Bad(_) =>
      case Got(srcY, _) =>
        if InBounds(c.fb, srcX, srcY, hd.w, hd.h) {
          RegionOpaque(c.fb.px, c.fb.width, c.fb.height, srcX, srcY, hd.w, hd.h);
          PaintKeepsOpaque(c.fb, hd.x, hd.y, hd.w, hd.h,
              Region(c.fb.px, c.fb.width, c.fb.height, srcX, srcY, hd.w, hd.h));
        }
  }

  lemma ZrleKeepsValid(z: Codec, fmt: Format, c: Client, hd: Header, data: seq<byte>)
    requires c.Valid()
    ensures ReadZrleRect(z, fmt, c, hd, data).client.Valid()
  {
    hide Paint, ZrleDecode.ReadTiles;
    match U32(data)
    case Bad(_) =>
    case Got(len, d1) =>
      match Owed(d1, len)
      case Bad(_) =>
      case Got(payload, _) =>
        match z.inflate(c.slices, payload)
        case None =>
        case Some(plain) =>
          RawRects.DecoderTotal(fmt, plain, hd.w, hd.h);
          match ZrleDecode.ReadTiles(fmt, plain, hd.w, hd.h)
          case Bad(_) =>
          case Got(px, _) => PaintKeepsOpaque(c.fb, hd.x, hd.y, hd.w, hd.h, px);
  }

  lemma {:induction false} RectsKeepValid(z: Codec, fmt: Format, c: Client, data: seq<byte>, count: nat,
      paints: bool, resizes: bool)
    requires c.Valid()
    ensures ReadRects(z, fmt, c, data, count, paints, resizes).client.Valid()
    decreases count
  {
    hide ReadRect;
    if count > 0 {
      RectKeepsValid(z, fmt, c, data);
      match ReadRect(z, fmt, c, data)
      case RectFailed(_, _) =>
      case RectWent(next, rest, p, r) => RectsKeepValid(z, fmt, next, rest, count - 1, paints || p, resizes || r);
    }
  }

  lemma MessageKeepsValid(z: Codec, fmt: Format, c: Client, data: seq<byte>)
    requires c.Valid()
    ensures ReadMessage(z, fmt, c, data).client.Valid()
  {
    hide ReadRects;
    match Owed(data, 1)
    case Bad(_) =>
    case Got(_, body) =>
      match Owed(body, 1)
      case Bad(_) =>
      case Got(_, d1) =>
        match U16(d1)
        case Bad(_) =>
        case Got(count, d2) => RectsKeepValid(z, fmt, Begun(c), d2, count, false, false);
  }

  /** Whatever bytes a server sends, and wherever the client gives up on them, its framebuffer has
      exactly `width * height` pixels and every one of them is opaque. */
  lemma {:induction false} AlwaysOpaque(z: Codec, fmt: Format, width: u16, height: u16, continuous: bool,
      data: seq<byte>, n: nat)
    ensures ReadMessages(z, fmt, Connected(width, height, continuous), data, n).client.Valid()
  {
    MessagesKeepValid(z, fmt, Connected(width, height, continuous), data, n);
  }

  lemma {:induction false} MessagesKeepValid(z: Codec, fmt: Format, c: Client, data: seq<byte>, n: nat)
    requires c.Valid()
    ensures ReadMessages(z, fmt, c, data, n).client.Valid()
    decreases n
  {
    hide ReadMessage;
    if n > 0 {
      MessageKeepsValid(z, fmt, c, data);
      match ReadMessage(z, fmt, c, data)
      case Failed(_, _) =>
      case Went(next, rest) => MessagesKeepValid(z, fmt, next, rest, n - 1);
    }
  }
}
