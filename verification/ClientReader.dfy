/** The client's read loop over its own framebuffer, proved to do what `ClientReads` says. */
module ClientReader {
  import opened Bytes
  import opened PixelFormats
  import opened Grid
  import opened Pictures
  import opened Rasters
  import opened Reads
  import opened Framebuffers
  import opened Latin1
  import opened Zlib
  import opened ClientReads
  import ZrleDecode
  import ZrleDecoder

  /** A read head over everything the server will ever send; the end is an I/O error. */
  class Conn {
    const data: seq<byte>
    var pos: nat
    /** Reads are under the timeout. */
    var armed: bool

    ghost predicate Valid()
      reads this
    {
      pos <= |data|
    }

    ghost function Rest(): seq<byte>
      reads this
      requires Valid()
    {
      data[pos..]
    }

    constructor (data: seq<byte>)
      ensures Valid() && Rest() == data && armed
    {
      this.data := data;
      pos := 0;
      armed := true;
    }

    method Arm()
      modifies this`armed
      ensures armed
    {
      armed := true;
    }

    method Disarm()
      modifies this`armed
      ensures !armed
    {
      armed := false;
    }

    method Bytes(n: nat) returns (r: Result<seq<byte>>)
      requires Valid()
      modifies this`pos
      ensures Valid()
      ensures match Owed(old(Rest()), n)
              case Got(b, rest) => r == Ok(b) && Rest() == rest
              case Bad(e) => r == Err(e) && Rest() == old(Rest())
    {
      if pos + n > |data| {
        return Err(Ended);
      }
      assert data[pos..pos + n] == data[pos..][..n];
      r := Ok(data[pos..pos + n]);
      pos := pos + n;
    }

    method ReadU16() returns (r: Result<u16>)
      requires Valid()
      modifies this`pos
      ensures Valid()
      ensures match U16(old(Rest()))
              case Got(v, rest) => r == Ok(v) && Rest() == rest
              case Bad(e) => r == Err(e)
    {
      var b := Bytes(2);
      match b
      case Err(e) => r := Err(e);
      case Ok(bytes) =>
        FromBeBound(bytes);
        Pow256Table();
        r := Ok(FromBe(bytes));
    }

    method ReadU32() returns (r: Result<u32>)
      requires Valid()
      modifies this`pos
      ensures Valid()
      ensures match U32(old(Rest()))
              case Got(v, rest) => r == Ok(v) && Rest() == rest
              case Bad(e) => r == Err(e)
    {
      var b := Bytes(4);
      match b
      case Err(e) => r := Err(e);
      case Ok(bytes) =>
        FromBeBound(bytes);
        Pow256Table();
        r := Ok(FromBe(bytes));
    }

    /** Throw `n` bytes away, at most a kilobyte at a time. */
    method Skip(n: nat) returns (failed: Option<Error>)
      requires Valid()
      modifies this`pos
      ensures Valid()
      ensures match Owed(old(Rest()), n)
              case Got(_, rest) => failed == None && Rest() == rest
              case Bad(e) => failed == Some(e)
    {
      var left := n;
      while left > 0
        invariant Valid() && 0 <= left <= n && |old(Rest())| >= n - left
        invariant Rest() == old(Rest())[n - left..]
      {
        var take := Min(left, 1024);
        assert |Rest()| == |old(Rest())| - (n - left);
        var b := Bytes(take);
        if b.Err? {
          assert |old(Rest())| < n;
          return Some(b.error);
        }
        left := left - take;
      }
      failed := None;
    }

    method ReadRectHeader() returns (r: Result<Header>)
      requires Valid()
      modifies this`pos
      ensures Valid()
      ensures match ReadHeader(old(Rest()))
              case Got(hd, rest) => r == Ok(hd) && Rest() == rest
              case Bad(e) => r == Err(e)
    {
      hide Field, Owed;
      var x := ReadU16();
      if x.Err? { return Err(x.error); }
      var y := ReadU16();
      if y.Err? { return Err(y.error); }
      var w := ReadU16();
      if w.Err? { return Err(w.error); }
      var h := ReadU16();
      if h.Err? { return Err(h.error); }
      var code := ReadU32();
      if code.Err? { return Err(code.error); }
      r := Ok(Header(x.value, y.value, w.value, h.value, AsI32(code.value)));
    }
  }

  /** The session state the read loop owns or locks. */
  class Session {
    const zlib: Codec
    const format: Format
    var fb: Raster
    var painted: bool
    /** What the one inflater has been fed. It is only ever added to. */
    var slices: seq<seq<byte>>
    var cutText: Option<string>
    const continuous: bool
    var updatesBegun: nat
    var lastPainted: nat
    var generation: nat
    var outstanding: nat
    var needsFull: bool
    /** Requests this loop has queued itself. */
    var asked: nat
    var events: seq<Event>

    ghost predicate Valid()
      reads this, fb, fb.rgba
    {
      fb.Valid() && Opaque(fb.Shown().px)
    }

    ghost function Seen(): (c: Client)
      reads this, fb, fb.rgba
      requires fb.Valid()
      ensures c.fb == fb.Shown()
    {
      Client(fb.Shown(), painted, slices, cutText,
             Books(continuous, updatesBegun, lastPainted, generation, outstanding, needsFull, asked, events))
    }

    constructor (zlib: Codec, width: u16, height: u16, continuous: bool)
      ensures Valid() && fresh(fb) && fresh(fb.rgba)
      ensures Seen() == Connected(width, height, continuous) && this.zlib == zlib && this.format == RGBX_32
    {
      this.zlib := zlib;
      this.format := RGBX_32;
      this.fb := new Raster.Filled(width, height, BLACK);
      this.painted := false;
      this.slices := [];
      this.cutText := None;
      this.continuous := continuous;
      this.updatesBegun, this.lastPainted, this.generation := 0, 0, 0;
      this.outstanding, this.needsFull, this.asked := 0, true, 0;
      this.events := [];
    }

    /** What a rect's method promises, from the client before and the bytes it was given. */
    ghost predicate Did(spec: RectOutcome, failed: Option<Error>, left: seq<byte>)
      reads this, fb, fb.rgba
      requires fb.Valid()
    {
      Seen() == spec.client &&
      match spec
      case RectWent(_, rest, _, _) => failed == None && left == rest
      case RectFailed(_, e) => failed == Some(e)
    }

    method RawRect(conn: Conn, hd: Header) returns (failed: Option<Error>)
      requires fb.Valid() && Seen().Valid() && conn.Valid()
      modifies this, fb.rgba, conn`pos
      ensures fb == old(fb) && fb.rgba == old(fb.rgba) && fb.Valid() && conn.Valid()
      ensures Did(ReadRawRect(format, old(Seen()), hd, old(conn.Rest())), failed, conn.Rest())
    {
      MulMono(0, hd.h, hd.w);
      MulMono(0, hd.w * hd.h, format.BytesPerPixel());
      var data := conn.Bytes(hd.w * hd.h * format.BytesPerPixel());
      if data.Err? { return Some(data.error); }
      failed := BlitRaw(fb, hd.x, hd.y, hd.w, hd.h, format, data.value);
    }

    method CopyRectRect(conn: Conn, hd: Header) returns (failed: Option<Error>)
      requires fb.Valid() && Seen().Valid() && conn.Valid()
      modifies this, fb.rgba, conn`pos
      ensures fb == old(fb) && fb.rgba == old(fb.rgba) && fb.Valid() && conn.Valid()
      ensures Did(ReadCopyRect(old(Seen()), hd, old(conn.Rest())), failed, conn.Rest())
    {
      var srcX := conn.ReadU16();
      if srcX.Err? { return Some(srcX.error); }
      var srcY := conn.ReadU16();
      if srcY.Err? { return Some(srcY.error); }
      failed := CopyRect(fb, hd.x, hd.y, hd.w, hd.h, srcX.value, srcY.value);
    }

    method ZrleRect(conn: Conn, hd: Header) returns (failed: Option<Error>)
      requires fb.Valid() && Seen().Valid() && conn.Valid()
      modifies this, fb.rgba, conn`pos
      ensures fb == old(fb) && fb.rgba == old(fb.rgba) && fb.Valid() && conn.Valid()
      ensures Did(ReadZrleRect(zlib, format, old(Seen()), hd, old(conn.Rest())), failed, conn.Rest())
    {
      hide Paint, Cells, ZrleDecode.ReadTiles, Owed;
      var len := conn.ReadU32();
      if len.Err? { return Some(len.error); }
      if len.value > MAX_ZRLE_PAYLOAD { return Some(Protocol); }
      var payload := conn.Bytes(len.value);
      if payload.Err? { return Some(payload.error); }
      var plain := zlib.inflate(slices, payload.value);
      slices := slices + [payload.value];
      if plain.None? { return Some(Protocol); }
      var rgba := ZrleDecoder.DecodeTiles(plain.value, format, hd.w, hd.h);
      if rgba.Err? { return Some(rgba.error); }
      failed := BlitRgba(fb, hd.x, hd.y, hd.w, hd.h, rgba.value);
    }

    /** One rect: where it goes, how it is coded, and what it paints. */
    method Rect(conn: Conn) returns (failed: Option<Error>, paints: bool, resizes: bool)
      requires fb.Valid() && Seen().Valid() && conn.Valid()
      modifies this, fb.rgba, conn`pos
      ensures fb.Valid() && conn.Valid()
      ensures fb.rgba == old(fb.rgba) || fresh(fb.rgba)
      ensures Did(ReadRect(zlib, format, old(Seen()), old(conn.Rest())), failed, conn.Rest())
      ensures match ReadRect(zlib, format, old(Seen()), old(conn.Rest()))
              case RectWent(_, _, p, r) => paints == p && resizes == r
              case RectFailed(_, _) => true
    {
      hide ReadRawRect, ReadCopyRect, ReadZrleRect, ReadHeader;
      paints, resizes := false, false;
      var header := conn.ReadRectHeader();
      if header.Err? { failed := Some(header.error); return; }
      var hd := header.value;
      if hd.encoding == ENC_RAW {
        RawPaints(format, Seen(), hd, conn.Rest());
        failed := RawRect(conn, hd);
        paints := true;
      } else if hd.encoding == ENC_COPY_RECT {
        CopyPaints(Seen(), hd, conn.Rest());
        failed := CopyRectRect(conn, hd);
        paints := true;
      } else if hd.encoding == ENC_ZRLE {
        ZrlePaints(zlib, format, Seen(), hd, conn.Rest());
        failed := ZrleRect(conn, hd);
        paints := true;
      } else if hd.encoding == ENC_DESKTOP_SIZE {
        fb := new Raster.Filled(hd.w, hd.h, BLACK);
        painted := false;
        needsFull := true;
        events := events + [Resized(hd.w, hd.h)];
        resizes := true;
        failed := None;
      } else {
        failed := Some(UnsupportedEncoding(hd.encoding));
      }
    }

    /** What follows an update's last rect: zero the counter, ask again, then record and announce a paint. */
    method Conclude(paintedAny: bool, resized: bool)
      requires fb.Valid()
      modifies this`outstanding, this`asked, this`generation, this`lastPainted, this`painted, this`events
      ensures Seen() == Concluded(old(Seen()), paintedAny, resized)
    {
      outstanding := 0;
      if resized || continuous {
        outstanding := outstanding + 1;
        asked := asked + 1;
      }
      if paintedAny {
        generation := generation + 1;
        lastPainted := updatesBegun;
        painted := true;
        events := events + [Painted(generation)];
      }
    }

    /** An update's rects, one after another, and whether any painted or resized. */
    method Rects(conn: Conn, count: nat) returns (failed: Option<Error>, paintedAny: bool, resized: bool)
      requires fb.Valid() && Seen().Valid() && conn.Valid()
      modifies this, fb.rgba, conn`pos
      ensures fb.Valid() && conn.Valid()
      ensures fb.rgba == old(fb.rgba) || fresh(fb.rgba)
      ensures Did(ReadRects(zlib, format, old(Seen()), old(conn.Rest()), count, false, false), failed, conn.Rest())
      ensures match ReadRects(zlib, format, old(Seen()), old(conn.Rest()), count, false, false)
              case RectWent(_, _, p, r) => paintedAny == p && resized == r
              case RectFailed(_, _) => true
    {
      hide ReadRect, ReadRects;
      ghost var spec := ReadRects(zlib, format, Seen(), conn.Rest(), count, false, false);
      paintedAny, resized := false, false;
      for i := 0 to count
        invariant fb.Valid() && Seen().Valid() && conn.Valid()
        invariant fb.rgba == old(fb.rgba) || fresh(fb.rgba)
        invariant spec == ReadRects(zlib, format, Seen(), conn.Rest(), count - i, paintedAny, resized)
      {
        NextRect(zlib, format, Seen(), conn.Rest(), count - i, paintedAny, resized);
        RectKeepsValid(zlib, format, Seen(), conn.Rest());
        var p, r;
        failed, p, r := Rect(conn);
        if failed.Some? {
          return;
        }
        paintedAny, resized := paintedAny || p, resized || r;
      }
      NoMoreRects(zlib, format, Seen(), conn.Rest(), paintedAny, resized);
      failed := None;
    }

    /** A FramebufferUpdate after its type byte: count it, every rect in turn, then conclude. */
    method Update(conn: Conn) returns (failed: Option<Error>)
      requires Valid() && conn.Valid()
      modifies this, fb.rgba, conn`pos
      ensures fb.Valid() && conn.Valid()
      ensures fb.rgba == old(fb.rgba) || fresh(fb.rgba)
      ensures Ended(ReadUpdate(zlib, format, old(Seen()), old(conn.Rest())), failed, conn.Rest())
    {
      hide ReadRects, Owed;
      updatesBegun := updatesBegun + 1;
      assert Seen() == Begun(old(Seen()));
      hide Begun, Concluded;
      var pad := conn.Bytes(1);
      if pad.Err? { return Some(pad.error); }
      var count := conn.ReadU16();
      if count.Err? { return Some(count.error); }
      var paintedAny, resized;
      failed, paintedAny, resized := Rects(conn, count.value);
      if failed.None? {
        Conclude(paintedAny, resized);
      }
    }

    /** What a message's method promises. */
    ghost predicate Ended(spec: Outcome, failed: Option<Error>, left: seq<byte>)
      reads this, fb, fb.rgba
      requires fb.Valid()
    {
      Seen() == spec.client &&
      match spec
      case Went(_, rest) => failed == None && left == rest
      case Failed(_, e) => failed == Some(e)
    }

    method ColourMap(conn: Conn) returns (failed: Option<Error>)
      requires Valid() && conn.Valid()
      modifies conn`pos
      ensures conn.Valid()
      ensures Ended(ReadColourMap(old(Seen()), old(conn.Rest())), failed, conn.Rest())
    {
      var pad := conn.Bytes(1);
      if pad.Err? { return Some(pad.error); }
      var first := conn.ReadU16();
      if first.Err? { return Some(first.error); }
      var count := conn.ReadU16();
      if count.Err? { return Some(count.error); }
      var entries: nat := count.value;
      failed := conn.Skip(entries * 6);
    }

    method CutText(conn: Conn) returns (failed: Option<Error>)
      requires Valid() && conn.Valid()
      modifies this`cutText, this`events, conn`pos
      ensures conn.Valid()
      ensures Ended(ReadCutText(old(Seen()), old(conn.Rest())), failed, conn.Rest())
    {
      failed := conn.Skip(3);
      if failed.Some? { return; }
      var len := conn.ReadU32();
      if len.Err? { return Some(len.error); }
      if len.value > MAX_CUT_TEXT { return Some(Protocol); }
      var text := conn.Bytes(len.value);
      if text.Err? { return Some(text.error); }
      cutText := Some(FromLatin1(text.value));
      events := events + [Event.CutText(FromLatin1(text.value))];
      failed := None;
    }

    /** `read_message`: one server message, whatever it is. Only the wait for its first byte is unlimited. */
    method Message(conn: Conn) returns (failed: Option<Error>)
      requires Valid() && conn.Valid()
      modifies this, fb.rgba, conn
      ensures Valid() && conn.Valid()
      ensures conn.armed <==> |old(conn.Rest())| > 0
      ensures fb.rgba == old(fb.rgba) || fresh(fb.rgba)
      ensures Ended(ReadMessage(zlib, format, old(Seen()), old(conn.Rest())), failed, conn.Rest())
    {
      hide ReadUpdate, ReadColourMap, ReadCutText;
      MessageKeepsValid(zlib, format, Seen(), conn.Rest());
      conn.Disarm();
      var kind := conn.Bytes(1);
      if kind.Err? { return Some(kind.error); }
      conn.Arm();
      var message := kind.value[0];
      if message == FRAMEBUFFER_UPDATE {
        failed := Update(conn);
      } else if message == SET_COLOUR_MAP_ENTRIES {
        failed := ColourMap(conn);
      } else if message == BELL {
        events := events + [Event.Bell];
        failed := None;
      } else if message == SERVER_CUT_TEXT {
        failed := CutText(conn);
      } else {
        failed := Some(Protocol);
      }
    }
  }

  lemma NextRect(z: Codec, fmt: Format, c: Client, data: seq<byte>, count: nat, paints: bool, resizes: bool)
    requires c.Valid() && count > 0
    ensures ReadRect(z, fmt, c, data).client.Valid()
    ensures ReadRects(z, fmt, c, data, count, paints, resizes)
         == match ReadRect(z, fmt, c, data)
            case RectFailed(failed, e) => RectFailed(failed, e)
            case RectWent(next, rest, p, r) => ReadRects(z, fmt, next, rest, count - 1, paints || p, resizes || r)
  {
    hide ReadRect;
    RectKeepsValid(z, fmt, c, data);
  }

  lemma NoMoreRects(z: Codec, fmt: Format, c: Client, data: seq<byte>, paints: bool, resizes: bool)
    requires c.Valid()
    ensures ReadRects(z, fmt, c, data, 0, paints, resizes) == RectWent(c, data, paints, resizes)
  {
  }

  lemma RawPaints(fmt: Format, c: Client, hd: Header, data: seq<byte>)
    requires c.Valid()
    ensures match ReadRawRect(fmt, c, hd, data)
            case RectWent(_, _, p, r) => p && !r
            case RectFailed(_, _) => true
  {
  }

  lemma CopyPaints(c: Client, hd: Header, data: seq<byte>)
    requires c.Valid()
    ensures match ReadCopyRect(c, hd, data)
            case RectWent(_, _, p, r) => p && !r
            case RectFailed(_, _) => true
  {
  }

  lemma ZrlePaints(z: Codec, fmt: Format, c: Client, hd: Header, data: seq<byte>)
    requires c.Valid()
    ensures match ReadZrleRect(z, fmt, c, hd, data)
            case RectWent(_, _, p, r) => p && !r
            case RectFailed(_, _) => true
  {
  }
}
