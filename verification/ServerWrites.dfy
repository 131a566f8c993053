/** What the fake server does with a client message or a scripted directive, and the bytes it owes. */
module ServerWrites {
  import opened Bytes
  import opened PixelFormats
  import opened Pictures
  import opened Latin1
  import opened Zlib
  import C = ClientReads
  import E = ZrleEncode
  import Screens

  datatype Encoding = Raw | Zrle | Negotiated

  /** How a server was built. */
  datatype Config = Config(encoding: Encoding, tiling: E.Tiling)

  /** One live connection: the screen, the client's format and list, and what its deflater has seen. */
  datatype Server = Server(screen: Picture, fmt: Format, advertised: seq<int>, plains: seq<seq<byte>>)

  /** What can happen to a connection: the client speaks, or a test scripts something. */
  datatype Action =
    | SetPixelFormat(fmt: Format)
    | SetEncodings(list: seq<int>)
    | UpdateRequest
    | OtherMessage
    | SetScreen(screen: Picture)
    | CutText(text: string)
    | Bell
    | Resize(width: u16, height: u16)
    | CopyRect(srcX: u16, srcY: u16, dstX: u16, dstY: u16, w: u16, h: u16)

  /** A connection as it stands when the opening exchange is done. */
  function Ready(screen: Picture): Server {
    Server(screen, RGBX_32, [], [])
  }

  /** The first entry of the client's list that can paint a fresh screen; Raw is the floor. */
  function FirstUsable(list: seq<int>): int {
    if |list| == 0 then C.ENC_RAW
    else if list[0] == C.ENC_ZRLE || list[0] == C.ENC_RAW then list[0]
    else FirstUsable(list[1..])
  }

  function ChooseEncoding(encoding: Encoding, advertised: seq<int>): (e: int)
    ensures e == C.ENC_RAW || e == C.ENC_ZRLE
  {
    match encoding
    case Raw => C.ENC_RAW
    case Zrle => C.ENC_ZRLE
    case Negotiated => FirstUsableIs(advertised); FirstUsable(advertised)
  }

  lemma {:induction false} FirstUsableIs(list: seq<int>)
    ensures FirstUsable(list) == C.ENC_RAW || FirstUsable(list) == C.ENC_ZRLE
  {
    if |list| > 0 { FirstUsableIs(list[1..]); }
  }

  function UpdateHeader(rects: u16): seq<byte> {
    [C.FRAMEBUFFER_UPDATE, 0] + Be(rects, 2)
  }

  function RectHeader(x: u16, y: u16, w: u16, h: u16, encoding: int): seq<byte>
    requires -0x8000_0000 <= encoding < 0x8000_0000
  {
    Be(x, 2) + Be(y, 2) + Be(w, 2) + Be(h, 2) + Be(encoding % 0x1_0000_0000, 4)
  }

  /** The length-prefixed slice of the zlib stream a rect's tiles become. */
  function ZrlePayload(slice: seq<byte>): seq<byte> {
    Be(|slice|, 4) + slice
  }

  /** The whole screen's tiles, before compression. */
  function ScreenTiles(cfg: Config, s: Server): seq<byte>
    requires s.screen.Valid()
  {
    E.RectTiles(s.screen, 0, 0, s.screen.width, s.screen.height, cfg.tiling, s.fmt)
  }

  function ScreenRaw(s: Server): seq<byte>
    requires s.screen.Valid()
  {
    E.Wires(s.fmt, E.PixelValues(s.screen, 0, 0, s.screen.width, s.screen.height, s.fmt))
  }

  /** The server after sending its screen, and the one-rect update it sends. */
  function ScreenUpdate(z: Codec, cfg: Config, s: Server): (Server, seq<byte>)
    requires s.screen.Valid()
  {
    var w, h := s.screen.width, s.screen.height;
    if ChooseEncoding(cfg.encoding, s.advertised) == C.ENC_ZRLE then
      var tiles := ScreenTiles(cfg, s);
      (s.(plains := s.plains + [tiles]),
       UpdateHeader(1) + (RectHeader(0, 0, w, h, C.ENC_ZRLE) + ZrlePayload(z.deflate(s.plains, tiles))))
    else
      (s, UpdateHeader(1) + (RectHeader(0, 0, w, h, C.ENC_RAW) + ScreenRaw(s)))
  }

  function CutTextBytes(text: string): seq<byte> {
    var latin1 := ToLatin1(text);
    [C.SERVER_CUT_TEXT, 0, 0, 0] + (Be(|latin1|, 4) + latin1)
  }

  /** The connection after an action, and the bytes it wrote. */
  function Act(z: Codec, cfg: Config, s: Server, a: Action): (r: (Server, seq<byte>))
    requires s.screen.Valid() && (a.SetScreen? ==> a.screen.Valid())
    ensures r.0.screen.Valid()
  {
    match a
    case SetPixelFormat(f) => (s.(fmt := f), [])
    case SetEncodings(list) => (s.(advertised := list), [])
    case UpdateRequest => ScreenUpdate(z, cfg, s)
    case OtherMessage => (s, [])
    case SetScreen(screen) => ScreenUpdate(z, cfg, s.(screen := screen))
    case CutText(text) => (s, CutTextBytes(text))
    case Bell => (s, [C.BELL])
    case Resize(w, h) =>
      (s.(screen := Solid(w, h, BLACK)), UpdateHeader(1) + (RectHeader(0, 0, w, h, C.ENC_DESKTOP_SIZE) + []))
    case CopyRect(sx, sy, dx, dy, w, h) =>
      (s.(screen := Screens.Blitted(s.screen, sx, sy, dx, dy, w, h)),
       UpdateHeader(1) + (RectHeader(dx, dy, w, h, C.ENC_COPY_RECT) + (Be(sx, 2) + Be(sy, 2))))
  }
}
