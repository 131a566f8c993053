/** The fake server's connection loop body over its own screen, proved to do what `ServerWrites` says. */
module FakeServer {
  import opened Bytes
  import opened PixelFormats
  import opened Pictures
  import opened Rasters
  import opened Latin1
  import opened Zlib
  import opened ServerWrites
  import C = ClientReads
  import E = ZrleEncode
  import ZrleEncoder
  import Screens

  /** One connection's ZRLE stream. There is no reset. */
  class ZrleWriter {
    const zlib: Codec
    const tiling: E.Tiling
    var plains: seq<seq<byte>>

    constructor (zlib: Codec, tiling: E.Tiling)
      ensures this.zlib == zlib && this.tiling == tiling && plains == []
    {
      this.zlib := zlib;
      this.tiling := tiling;
      this.plains := [];
    }

    /** `rect`, against `ZrlePayload`: one more input to this connection's deflater, and its slice. */
    method Rect(screen: Raster, x: u16, y: u16, w: u16, h: u16, fmt: Format) returns (out: seq<byte>)
      requires screen.Valid()
      modifies this`plains
      ensures var tiles := E.RectTiles(screen.Shown(), x, y, w, h, tiling, fmt);
        && plains == old(plains) + [tiles]
        && out == ZrlePayload(zlib.deflate(old(plains), tiles))
    {
      hide E.RectTiles;
      var tiles := ZrleEncoder.Tiles(screen, x, y, w, h, tiling, fmt);
      var compressed := zlib.deflate(plains, tiles);
      plains := plains + [tiles];
      out := Be(|compressed|, 4) + compressed;
    }
  }

  /** `choose_encoding`'s walk down the client's list. */
  method PickEncoding(encoding: Encoding, advertised: seq<int>) returns (e: int)
    ensures e == ChooseEncoding(encoding, advertised)
  {
    match encoding
    case Raw => e := C.ENC_RAW;
    case Zrle => e := C.ENC_ZRLE;
    case Negotiated =>
      for i := 0 to |advertised|
        invariant FirstUsable(advertised) == FirstUsable(advertised[i..])
      {
        assert advertised[i..][1..] == advertised[i + 1..];
        if advertised[i] == C.ENC_ZRLE || advertised[i] == C.ENC_RAW {
          return advertised[i];
        }
      }
      e := C.ENC_RAW;
  }

  class Connection {
    const cfg: Config
    var screen: Raster
    var fmt: Format
    var advertised: seq<int>
    const zrle: ZrleWriter

    ghost predicate Valid()
      reads this, screen, zrle
    {
      screen.Valid() && zrle.tiling == cfg.tiling
    }

    ghost function Seen(): Server
      reads this, screen, screen.rgba, zrle
      requires screen.Valid()
    {
      Server(screen.Shown(), fmt, advertised, zrle.plains)
    }

    constructor (cfg: Config, zlib: Codec, screen: Raster)
      requires screen.Valid()
      ensures Valid() && this.screen == screen && this.cfg == cfg && zrle.zlib == zlib && fresh(zrle)
      ensures Seen() == Ready(screen.Shown())
    {
      this.cfg := cfg;
      this.screen := screen;
      this.fmt := RGBX_32;
      this.advertised := [];
      this.zrle := new ZrleWriter(zlib, cfg.tiling);
    }

    /** `framebuffer_update`: the whole screen as one rect. */
    method FramebufferUpdate() returns (out: seq<byte>)
      requires Valid()
      modifies zrle`plains
      ensures Valid() && (Seen(), out) == ScreenUpdate(zrle.zlib, cfg, old(Seen()))
    {
      hide E.RectTiles, E.Wires, E.PixelValues, RectHeader, UpdateHeader, ZrlePayload, ChooseEncoding;
      var encoding := PickEncoding(cfg.encoding, advertised);
      var w, h := screen.width, screen.height;
      if encoding == C.ENC_ZRLE {
        var payload := zrle.Rect(screen, 0, 0, w, h, fmt);
        out := UpdateHeader(1) + (RectHeader(0, 0, w, h, encoding) + payload);
      } else {
        var payload := ZrleEncoder.RawRect(screen, 0, 0, w, h, fmt);
        out := UpdateHeader(1) + (RectHeader(0, 0, w, h, encoding) + payload);
      }
    }

    /** A resized screen is a new, black one. */
    method Reallocate(width: u16, height: u16)
      requires Valid()
      modifies this`screen
      ensures Valid() && fresh(screen) && Seen() == old(Seen()).(screen := Solid(width, height, BLACK))
    {
      screen := new Raster.Filled(width, height, BLACK);
    }

    /** `apply_online` and the message arms of the serve loop. A new screen arrives as its own raster. */
    method Perform(a: Action, newScreen: Raster) returns (out: seq<byte>)
      requires Valid() && newScreen.Valid() && (a.SetScreen? ==> a.screen == newScreen.Shown())
      modifies this`screen, this`fmt, this`advertised, screen.rgba, zrle`plains
      ensures Valid()
      ensures a.SetScreen? ==> screen == newScreen
      ensures (Seen(), out) == Act(zrle.zlib, cfg, old(Seen()), a)
    {
      hide RectHeader, UpdateHeader, Screens.Blitted, ScreenUpdate, ToLatin1, CutTextBytes;
      match a
      case SetPixelFormat(f) =>
        fmt := f;
        out := [];
      case SetEncodings(list) =>
        advertised := list;
        out := [];
      case UpdateRequest =>
        out := FramebufferUpdate();
      case OtherMessage =>
        out := [];
      case SetScreen(_) =>
        screen := newScreen;
        out := FramebufferUpdate();
      case CutText(text) =>
        out := CutTextBytes(text);
      case Bell =>
        out := [C.BELL];
      case Resize(w, h) =>
        Reallocate(w, h);
        out := UpdateHeader(1) + (RectHeader(0, 0, w, h, C.ENC_DESKTOP_SIZE) + []);
      case CopyRect(sx, sy, dx, dy, w, h) =>
        Screens.Blit(screen, sx, sy, dx, dy, w, h);
        out := UpdateHeader(1) + (RectHeader(dx, dy, w, h, C.ENC_COPY_RECT) + (Be(sx, 2) + Be(sy, 2)));
    }
  }
}
