/** The client's framebuffer is a replica of the server's screen at every message boundary of every run. */
module Replica {
  import opened Bytes
  import opened PixelFormats
  import opened Grid
  import opened Pictures
  import opened Reads
  import opened Framebuffers
  import opened Latin1
  import opened Zlib
  import opened ServerWrites
  import opened Areas
  import C = ClientReads
  import E = ZrleEncode
  import RawRects
  import Screens

  // ---------------------------------------------------------------- runs

  /** The action puts one message on the wire. */
  predicate Speaks(a: Action) {
    !(a.SetPixelFormat? || a.SetEncodings? || a.OtherMessage?)
  }

  /** The action makes the server send or clear the whole screen. */
  predicate Syncs(a: Action) {
    a.UpdateRequest? || a.SetScreen? || a.Resize?
  }

  /** A whole-screen update whose compressed form the client is willing to read. */
  predicate Sendable(z: Codec, cfg: Config, s: Server)
    requires s.screen.Valid()
  {
    ChooseEncoding(cfg.encoding, s.advertised) == C.ENC_ZRLE ==>
      |z.deflate(s.plains, ScreenTiles(cfg, s))| <= 67_108_864
  }

  /** An action a client in step with the server can follow: the format stays the negotiated one, a
      scripted screen keeps its size, a move stays on the screen, and no payload passes its cap. */
  predicate Followable(z: Codec, cfg: Config, s: Server, a: Action): (ok: bool)
    requires s.screen.Valid()
    ensures ok && a.SetScreen? ==> a.screen.Valid()
  {
    match a
    case SetPixelFormat(f) => f == RGBX_32
    case SetScreen(screen) =>
      && screen.Valid() && screen.width == s.screen.width && screen.height == s.screen.height
      && Sendable(z, cfg, s.(screen := screen))
    case UpdateRequest => Sendable(z, cfg, s)
    case CopyRect(sx, sy, dx, dy, w, h) => InBounds(s.screen, dx, dy, w, h) && InBounds(s.screen, sx, sy, w, h)
    case CutText(text) => |ToLatin1(text)| <= 8_388_608
    case _ => true
  }

  predicate AllFollowable(z: Codec, cfg: Config, s: Server, actions: seq<Action>)
    requires s.screen.Valid()
    decreases |actions|
  {
    |actions| == 0
    || (Followable(z, cfg, s, actions[0]) && AllFollowable(z, cfg, Act(z, cfg, s, actions[0]).0, actions[1..]))
  }

  /** The server after a run, and everything it wrote. */
  function Run(z: Codec, cfg: Config, s: Server, actions: seq<Action>): (r: (Server, seq<byte>))
    requires s.screen.Valid() && AllFollowable(z, cfg, s, actions)
    ensures r.0.screen.Valid()
    decreases |actions|
  {
    if |actions| == 0 then (s, [])
    else
      var (next, bytes) := Act(z, cfg, s, actions[0]);
      var (last, more) := Run(z, cfg, next, actions[1..]);
      (last, bytes + more)
  }

  function Messages(actions: seq<Action>): nat {
    if |actions| == 0 then 0 else (if Speaks(actions[0]) then 1 else 0) + Messages(actions[1..])
  }

  /** The whole screen has been sent or cleared at least once. */
  predicate Synced(actions: seq<Action>) {
    exists i :: 0 <= i < |actions| && Syncs(actions[i])
  }

  /** What holds between the two ends at a message boundary. */
  ghost predicate InStep(z: Codec, s: Server, c: C.Client, synced: bool) {
    && c.Valid() && s.screen.Valid() && s.fmt == RGBX_32
    && c.fb.width == s.screen.width && c.fb.height == s.screen.height
    && c.slices == Slices(z, s.plains)
    && (synced ==> SameRgbPicture(c.fb, s.screen))
  }

  /** The client went through, stopped exactly at `rest`, and is in step. */
  ghost predicate Followed(z: Codec, s: Server, o: C.Outcome, rest: seq<byte>, synced: bool) {
    o.Went? && o.rest == rest && InStep(z, s, o.client, synced)
  }

  // ---------------------------------------------------------------- headers

  /** An update of one rect is read as its rect is. */
  lemma OneRectUpdate(z: Codec, c: C.Client, rect: seq<byte>, rest: seq<byte>, next: C.Client, paints: bool,
      resizes: bool)
    requires c.Valid() && C.ReadRect(z, RGBX_32, C.Begun(c), rect + rest) == C.RectWent(next, rest, paints, resizes)
    ensures C.ReadMessage(z, RGBX_32, c, UpdateHeader(1) + rect + rest)
        == C.Went(C.Concluded(next, paints, resizes), rest)
  {
    hide C.ReadRect, Be, C.U16, C.Concluded;
    var body := rect + rest;
    var d1 := Be(1, 2) + body;
    var data := UpdateHeader(1) + rect + rest;
    assert data == [C.FRAMEBUFFER_UPDATE] + ([0] + d1);
    TakeFront([C.FRAMEBUFFER_UPDATE], [0] + d1, Ended);
    TakeFront([0], d1, Ended);
    C.U16Front(1, body);
    C.RectKeepsValid(z, RGBX_32, C.Begun(c), body);
    OneRect(z, C.Begun(c), body, next, rest, paints, resizes);
  }

  /** Beginning and concluding an update leave the picture and the stream alone. */
  lemma BooksOnly(z: Codec, s: Server, c: C.Client, paints: bool, resizes: bool, synced: bool)
    ensures InStep(z, s, C.Begun(c), synced) <==> InStep(z, s, c, synced)
    ensures InStep(z, s, C.Concluded(c, paints, resizes), synced) <==> InStep(z, s, c, synced)
  {
    hide Slices, SameRgbPicture;
  }

  lemma OneRect(z: Codec, c: C.Client, body: seq<byte>, next: C.Client, rest: seq<byte>, paints: bool, resizes: bool)
    requires c.Valid() && C.ReadRect(z, RGBX_32, c, body) == C.RectWent(next, rest, paints, resizes)
    ensures C.ReadRects(z, RGBX_32, c, body, 1, false, false) == C.RectWent(next, rest, paints, resizes)
  {
    hide C.ReadRect;
    C.RectKeepsValid(z, RGBX_32, c, body);
    assert C.ReadRects(z, RGBX_32, next, rest, 0, paints, resizes) == C.RectWent(next, rest, paints, resizes);
  }

  // ---------------------------------------------------------------- whole screens

  /** Painting a whole picture replaces it. */
  lemma WholePaint(p: Picture, px: seq<Rgba>)
    requires p.Valid() && |px| == |p.px|
    ensures Paint(p, 0, 0, p.width, p.height, px) == Ok(p.(px := px))
  {
    hide Place;
    var w: nat, h: nat := p.width, p.height;
    assert h * w == w * h;
    var laid := Place(p.px, w, h, 0, 0, px, w, h);
    forall x, y | 0 <= x < w && 0 <= y < h ensures At(laid, w, h, x, y) == At(px, w, h, x, y) {
      PlaceAt(p.px, w, h, 0, 0, px, w, h, x, y);
    }
    SameCells(laid, px, w, h);
  }

  /** The whole screen as one area. */
  function WholeScreen(cfg: Config, s: Server): Area {
    Area(0, 0, s.screen.width, s.screen.height, ChooseEncoding(cfg.encoding, s.advertised) == C.ENC_ZRLE, cfg.tiling)
  }

  lemma ScreenIsArea(z: Codec, cfg: Config, s: Server)
    requires s.screen.Valid() && s.fmt == RGBX_32 && Sendable(z, cfg, s)
    ensures var (after, bytes) := ScreenUpdate(z, cfg, s); var whole := [WholeScreen(cfg, s)];
      && AllSendable(z, s.screen, s.plains, whole)
      && bytes == UpdateHeader(1) + Concat(AllBytes(z, s.screen, s.plains, whole))
      && after == s.(plains := AllFed(s.screen, s.plains, whole))
  {
    hide UpdateHeader, RectHeader, ZrlePayload, E.RectTiles, E.Wires, E.PixelValues, ChooseEncoding;
    var a := WholeScreen(cfg, s);
    var fed := Fed(s.screen, s.plains, a);
    assert [a][1..] == [];
    assert AllSendable(z, s.screen, fed, []) && AllFed(s.screen, fed, []) == fed;
    assert AllBytes(z, s.screen, fed, []) == [];
    var rect := AreaBytes(z, s.screen, s.plains, a);
    ConcatOne(rect);
  }

  lemma ConcatOne(part: seq<byte>)
    ensures Concat([part]) == part
  {
    assert Concat([part][1..]) == [] && part + [] == part;
  }

  /** Either way the server encodes its screen, the client ends up showing it. */
  lemma ScreenFollowed(z: Codec, cfg: Config, s: Server, c: C.Client, rest: seq<byte>)
    requires InStep(z, s, c, false) && Lossless(z) && Sendable(z, cfg, s)
    ensures var (after, bytes) := ScreenUpdate(z, cfg, s);
            Followed(z, after, C.ReadMessage(z, RGBX_32, c, bytes + rest), rest, true)
  {
    hide ScreenUpdate, UpdateHeader, C.ReadMessage, Slices, AllBytes, AllFed, AllSendable;
    hide Shows, Concat, SameRgbPicture;
    hide C.Begun, C.Concluded, Covered;
    var whole := [WholeScreen(cfg, s)];
    ScreenIsArea(z, cfg, s);
    AreasFollowed(z, s.screen, s.plains, c, whole, rest);
    var o := C.ReadMessage(z, RGBX_32, c, ScreenUpdate(z, cfg, s).1 + rest);
    forall px: nat, py: nat | px < s.screen.width && py < s.screen.height ensures Covered(whole, px, py) {
      WholeCovers(cfg, s, px, py);
    }
    CoveredIsSame(o.client, s.screen, c, whole);
    ShowsSize(o.client, s.screen, c, whole);
  }

  lemma WholeCovers(cfg: Config, s: Server, px: nat, py: nat)
    requires px < s.screen.width && py < s.screen.height
    ensures Covered([WholeScreen(cfg, s)], px, py)
  {
    assert Covers([WholeScreen(cfg, s)][0], px, py);
  }

  lemma ShowsSize(c: C.Client, pic: Picture, before: C.Client, areas: seq<Area>)
    requires Shows(c, pic, before, areas)
    ensures c.Valid() && c.fb.width == pic.width && c.fb.height == pic.height
  {
  }

  // ---------------------------------------------------------------- moves and resizes

  /** Moving the same region of two pictures with the same colours keeps the colours the same. */
  lemma MoveKeepsRgb(p: Picture, q: Picture, x: u16, y: u16, w: u16, h: u16, srcX: u16, srcY: u16)
    requires p.Valid() && q.Valid() && SameRgbPicture(p, q)
    requires InBounds(p, x, y, w, h) && InBounds(p, srcX, srcY, w, h)
    ensures Move(p, x, y, w, h, srcX, srcY).Ok? && Move(q, x, y, w, h, srcX, srcY).Ok?
    ensures SameRgbPicture(Move(p, x, y, w, h, srcX, srcY).value, Move(q, x, y, w, h, srcX, srcY).value)
  {
    var mp, mq := Move(p, x, y, w, h, srcX, srcY).value, Move(q, x, y, w, h, srcX, srcY).value;
    hide Move, Place, Region;
    forall k | 0 <= k < |mp.px| ensures SameRgb(mp.px[k], mq.px[k]) {
      var width: nat, height: nat := p.width, p.height;
      CellOf(width, height, k);
      var cx, cy := k % width, k / width;
      RawRects.CellAt(mp.px, width, height, k);
      RawRects.CellAt(mq.px, width, height, k);
      MoveIsSimultaneous(p, x, y, w, h, srcX, srcY, cx, cy);
      MoveIsSimultaneous(q, x, y, w, h, srcX, srcY, cx, cy);
      if x <= cx < x + w && y <= cy < y + h {
        IndexInside(width, height, srcX + (cx - x), srcY + (cy - y));
      }
    }
  }

  lemma MoveFollowed(z: Codec, cfg: Config, s: Server, c: C.Client, a: Action, rest: seq<byte>, synced: bool)
    requires InStep(z, s, c, synced) && a.CopyRect? && Followable(z, cfg, s, a)
    ensures var o := C.ReadMessage(z, RGBX_32, c, Act(z, cfg, s, a).1 + rest);
      && Followed(z, Act(z, cfg, s, a).0, o, rest, synced)
      && o.client.fb == Move(c.fb, a.dstX, a.dstY, a.w, a.h, a.srcX, a.srcY).value
  {
    hide RectHeader, UpdateHeader, Screens.Blitted, C.ReadMessage, C.ReadRect, Be, Move;
    hide C.Begun, C.Concluded;
    var CopyRect(sx, sy, dx, dy, w, h) := a;
    BooksOnly(z, s, c, false, false, synced);
    SamePicture(c);
    var b := C.Begun(c);
    CopyRead(z, b, dx, dy, w, h, sx, sy, rest);
    var moved := Move(c.fb, dx, dy, w, h, sx, sy).value;
    var rect := RectHeader(dx, dy, w, h, C.ENC_COPY_RECT) + (Be(sx, 2) + Be(sy, 2));
    OneRectUpdate(z, c, rect, rest, b.(fb := moved), true, false);
    Screens.BlitAgreesWithMove(s.screen, sx, sy, dx, dy, w, h);
    C.RectKeepsValid(z, RGBX_32, b, rect + rest);
    BooksOnly(z, Act(z, cfg, s, a).0, b.(fb := moved), true, false, synced);
    SamePicture(b.(fb := moved));
    if synced { MoveKeepsRgb(c.fb, s.screen, dx, dy, w, h, sx, sy); }
  }

  lemma SamePicture(c: C.Client)
    ensures C.Begun(c).fb == c.fb && C.Begun(c).slices == c.slices && C.Concluded(c, true, false).fb == c.fb
  {
  }

  lemma CopyRead(z: Codec, c: C.Client, dx: u16, dy: u16, w: u16, h: u16, sx: u16, sy: u16, rest: seq<byte>)
    requires c.Valid() && InBounds(c.fb, dx, dy, w, h) && InBounds(c.fb, sx, sy, w, h)
    ensures C.ReadRect(z, RGBX_32, c, RectHeader(dx, dy, w, h, C.ENC_COPY_RECT) + (Be(sx, 2) + Be(sy, 2)) + rest)
         == C.RectWent(c.(fb := Move(c.fb, dx, dy, w, h, sx, sy).value), rest, true, false)
  {
    hide RectHeader, C.ReadHeader, Be, Move, C.U16, C.ReadRawRect, C.ReadZrleRect;
    var head, src := RectHeader(dx, dy, w, h, C.ENC_COPY_RECT), Be(sx, 2) + Be(sy, 2);
    Regroup(head, src, rest);
    RectHeaderFront(dx, dy, w, h, C.ENC_COPY_RECT, src + rest);
    assert src + rest == Be(sx, 2) + (Be(sy, 2) + rest);
    C.U16Front(sx, Be(sy, 2) + rest);
    C.U16Front(sy, rest);
  }

  lemma ResizeFollowed(z: Codec, cfg: Config, s: Server, c: C.Client, a: Action, rest: seq<byte>)
    requires InStep(z, s, c, false) && a.Resize?
    ensures var o := C.ReadMessage(z, RGBX_32, c, Act(z, cfg, s, a).1 + rest);
      && Followed(z, Act(z, cfg, s, a).0, o, rest, true)
      && o.client.fb == Solid(a.width, a.height, BLACK)
      && o.client.books.events == c.books.events + [C.Event.Resized(a.width, a.height)]
  {
    hide RectHeader, UpdateHeader, C.ReadMessage, C.ReadHeader;
    var Resize(w, h) := a;
    var rect := RectHeader(0, 0, w, h, C.ENC_DESKTOP_SIZE) + [];
    Regroup(RectHeader(0, 0, w, h, C.ENC_DESKTOP_SIZE), [], rest);
    assert [] + rest == rest;
    RectHeaderFront(0, 0, w, h, C.ENC_DESKTOP_SIZE, rest);
    OneRectUpdate(z, c, rect, rest, C.Resize(C.Begun(c), w, h), false, true);
  }

  // ---------------------------------------------------------------- messages that paint nothing

  lemma BellFollowed(z: Codec, s: Server, c: C.Client, rest: seq<byte>, synced: bool)
    requires InStep(z, s, c, synced)
    ensures var o := C.ReadMessage(z, RGBX_32, c, [C.BELL] + rest);
      && Followed(z, s, o, rest, synced) && o.client.fb == c.fb
      && o.client.books.events == c.books.events + [C.Event.Bell]
  {
    TakeFront([C.BELL], rest, Ended);
  }

  lemma CutTextFollowed(z: Codec, s: Server, c: C.Client, text: string, rest: seq<byte>, synced: bool)
    requires InStep(z, s, c, synced) && |ToLatin1(text)| <= 8_388_608
    ensures var o := C.ReadMessage(z, RGBX_32, c, CutTextBytes(text) + rest);
      && Followed(z, s, o, rest, synced) && o.client.fb == c.fb && o.client.cutText == Some(FromLatin1(ToLatin1(text)))
      && o.client.books.events == c.books.events + [C.Event.CutText(FromLatin1(ToLatin1(text)))]
  {
    hide Be, C.U32, ToLatin1, FromLatin1;
    var latin1 := ToLatin1(text);
    var d2 := Be(|latin1|, 4) + (latin1 + rest);
    var data := CutTextBytes(text) + rest;
    assert data == [C.SERVER_CUT_TEXT] + ([0, 0, 0] + d2);
    TakeFront([C.SERVER_CUT_TEXT], [0, 0, 0] + d2, Ended);
    TakeFront([0, 0, 0], d2, Ended);
    C.U32Front(|latin1|, latin1 + rest);
    TakeFront(latin1, rest, Ended);
  }

  // ---------------------------------------------------------------- what arrives

  /** What the client has after following an action, in terms of the action alone: the screen that was set
      or asked for, a black screen of the size resized to, the named region moved and everything else left
      alone, the text cut, the bell. */
  ghost predicate Arrived(s: Server, before: C.Client, a: Action, after: C.Client)
    requires before.Valid() && after.Valid() && s.screen.Valid()
  {
    match a
    case UpdateRequest => SameRgbPicture(after.fb, s.screen)
    case SetScreen(screen) => SameRgbPicture(after.fb, screen)
    case Resize(w, h) =>
      && after.fb.width == w && after.fb.height == h
      && (forall i :: 0 <= i < |after.fb.px| ==> after.fb.px[i] == Rgba(0, 0, 0, 255))
      && after.books.events == before.books.events + [C.Event.Resized(w, h)]
    case CopyRect(sx, sy, dx, dy, w, h) =>
      forall px: nat, py: nat :: px < before.fb.width && py < before.fb.height ==>
        after.fb.Pixel(px, py) == if dx <= px < dx + w && dy <= py < dy + h
                                  then before.fb.Pixel(px - dx + sx, py - dy + sy) else before.fb.Pixel(px, py)
    case Bell => after.fb == before.fb && after.books.events == before.books.events + [C.Event.Bell]
    case CutText(text) =>
      && after.fb == before.fb && after.cutText == Some(FromLatin1(ToLatin1(text)))
      && after.books.events == before.books.events + [C.Event.CutText(FromLatin1(ToLatin1(text)))]
    case _ => true
  }

  lemma ScreenStays(z: Codec, cfg: Config, s: Server)
    requires s.screen.Valid()
    ensures ScreenUpdate(z, cfg, s).0.screen == s.screen
  {
    hide E.RectTiles, E.Wires, E.PixelValues;
  }

  lemma ActionArrives(z: Codec, cfg: Config, s: Server, c: C.Client, a: Action, rest: seq<byte>)
    requires InStep(z, s, c, false) && Lossless(z) && Followable(z, cfg, s, a) && Speaks(a)
    ensures var o := C.ReadMessage(z, RGBX_32, c, Act(z, cfg, s, a).1 + rest);
      && o.Went? && o.rest == rest && o.client.Valid() && Arrived(s, c, a, o.client)
  {
    hide C.ReadMessage, ScreenUpdate, Screens.Blitted, CutTextBytes, Sendable, SameRgbPicture, ToLatin1, FromLatin1;
    match a
    case UpdateRequest =>
      ScreenFollowed(z, cfg, s, c, rest);
      ScreenStays(z, cfg, s);
    case SetScreen(screen) =>
      ScreenFollowed(z, cfg, s.(screen := screen), c, rest);
      ScreenStays(z, cfg, s.(screen := screen));
    case Resize(_, _) => ResizeFollowed(z, cfg, s, c, a, rest);
    case CopyRect(_, _, _, _, _, _) => CopyArrives(z, cfg, s, c, a, rest);
    case Bell => BellFollowed(z, s, c, rest, false);
    case CutText(text) => CutTextFollowed(z, s, c, text, rest, false);
  }

  lemma CopyArrives(z: Codec, cfg: Config, s: Server, c: C.Client, a: Action, rest: seq<byte>)
    requires InStep(z, s, c, false) && a.CopyRect? && Followable(z, cfg, s, a)
    ensures var o := C.ReadMessage(z, RGBX_32, c, Act(z, cfg, s, a).1 + rest);
      && o.Went? && o.rest == rest && o.client.Valid() && Arrived(s, c, a, o.client)
  {
    hide C.ReadMessage, Screens.Blitted, Act;
    MoveFollowed(z, cfg, s, c, a, rest, false);
    hide Move;
    var CopyRect(sx, sy, dx, dy, w, h) := a;
    forall px: nat, py: nat | px < c.fb.width && py < c.fb.height {
      MoveIsSimultaneous(c.fb, dx, dy, w, h, sx, sy, px, py);
    }
  }

  // ---------------------------------------------------------------- whole runs

  /** One action, followed by the client reading the message it put on the wire, if any. */
  lemma StepFollowed(z: Codec, cfg: Config, s: Server, c: C.Client, a: Action, rest: seq<byte>, synced: bool)
    requires InStep(z, s, c, synced) && Lossless(z) && Followable(z, cfg, s, a)
    ensures var (after, bytes) := Act(z, cfg, s, a);
            && (Speaks(a) ==> Followed(z, after, C.ReadMessage(z, RGBX_32, c, bytes + rest), rest, synced || Syncs(a)))
            && (!Speaks(a) ==> bytes == [] && InStep(z, after, c, synced))
  {
    hide C.ReadMessage, ScreenUpdate, Screens.Blitted, CutTextBytes, Sendable;
    match a
    case UpdateRequest => ScreenFollowed(z, cfg, s, c, rest);
    case SetScreen(screen) => ScreenFollowed(z, cfg, s.(screen := screen), c, rest);
    case CopyRect(_, _, _, _, _, _) => MoveFollowed(z, cfg, s, c, a, rest, synced);
    case Resize(_, _) => ResizeFollowed(z, cfg, s, c, a, rest);
    case Bell => BellFollowed(z, s, c, rest, synced);
    case CutText(text) => CutTextFollowed(z, s, c, text, rest, synced);
    case _ =>
  }

  /** A client in step follows a whole run, to the byte, and stays in step. */
  lemma {:induction false} RunFollowed(z: Codec, cfg: Config, s: Server, c: C.Client, actions: seq<Action>,
      rest: seq<byte>, synced: bool)
    requires InStep(z, s, c, synced) && Lossless(z) && AllFollowable(z, cfg, s, actions)
    ensures var (last, bytes) := Run(z, cfg, s, actions);
            var o := C.ReadMessages(z, RGBX_32, c, bytes + rest, Messages(actions));
            Followed(z, last, o, rest, synced || Synced(actions))
    decreases |actions|
  {
    hide Act, C.ReadMessage, InStep, Syncs, Speaks, Followable;
    InStepIsValid(z, s, c, synced);
    if |actions| == 0 {
      assert [] + rest == rest;
    } else {
      var a, tail := actions[0], actions[1..];
      var (next, bytes) := Act(z, cfg, s, a);
      var (last, more) := Run(z, cfg, next, tail);
      Regroup(bytes, more, rest);
      StepFollowed(z, cfg, s, c, a, more + rest, synced);
      SyncedCons(actions);
      if Speaks(a) {
        var o := C.ReadMessage(z, RGBX_32, c, bytes + (more + rest));
        C.MessageKeepsValid(z, RGBX_32, c, bytes + (more + rest));
        RunFollowed(z, cfg, next, o.client, tail, rest, synced || Syncs(a));
      } else {
        assert bytes + (more + rest) == more + rest;
        NoSyncUnsaid(a);
        RunFollowed(z, cfg, next, c, tail, rest, synced);
      }
    }
  }

  lemma NoSyncUnsaid(a: Action)
    requires !Speaks(a)
    ensures !Syncs(a)
  {
  }

  lemma InStepIsValid(z: Codec, s: Server, c: C.Client, synced: bool)
    requires InStep(z, s, c, synced)
    ensures c.Valid() && s.screen.Valid()
  {
  }

  lemma SyncedCons(actions: seq<Action>)
    requires |actions| > 0
    ensures Synced(actions) <==> Syncs(actions[0]) || Synced(actions[1..])
  {
    var tail := actions[1..];
    if Synced(tail) {
      var i :| 0 <= i < |tail| && Syncs(tail[i]);
      assert Syncs(actions[i + 1]);
    }
    if Synced(actions) && !Syncs(actions[0]) {
      var i :| 0 <= i < |actions| && Syncs(actions[i]);
      assert tail[i - 1] == actions[i];
    }
  }

  /** What was last set stands: the client's list of encodings is the last one it sent, whatever happened since. */
  lemma {:induction false} LastListStands(z: Codec, cfg: Config, s: Server, actions: seq<Action>, list: seq<int>)
    requires s.screen.Valid() && AllFollowable(z, cfg, s, actions)
    requires s.advertised == list && forall i :: 0 <= i < |actions| ==> !actions[i].SetEncodings?
    ensures Run(z, cfg, s, actions).0.advertised == list
    decreases |actions|
  {
    if |actions| > 0 {
      ListStands(z, cfg, s, actions[0]);
      hide Act, Followable;
      LastListStands(z, cfg, Act(z, cfg, s, actions[0]).0, actions[1..], list);
    }
  }

  lemma ListStands(z: Codec, cfg: Config, s: Server, a: Action)
    requires s.screen.Valid() && (a.SetScreen? ==> a.screen.Valid())
    ensures Act(z, cfg, s, a).0.advertised == (if a.SetEncodings? then a.list else s.advertised)
    ensures Act(z, cfg, s, a).0.fmt == (if a.SetPixelFormat? then a.fmt else s.fmt)
  {
    hide E.RectTiles, E.Wires, E.PixelValues, Screens.Blitted;
  }

  /** The first `k` actions' bytes are a prefix of the run's. */
  lemma {:induction false} RunPrefix(z: Codec, cfg: Config, s: Server, actions: seq<Action>, k: nat)
      returns (rest: seq<byte>)
    requires s.screen.Valid() && AllFollowable(z, cfg, s, actions) && k <= |actions|
    ensures AllFollowable(z, cfg, s, actions[..k])
    ensures Run(z, cfg, s, actions).1 == Run(z, cfg, s, actions[..k]).1 + rest
    decreases |actions|
  {
    hide Act, Followable;
    if k == 0 {
      rest := Run(z, cfg, s, actions).1;
    } else {
      var (next, bytes) := Act(z, cfg, s, actions[0]);
      rest := RunPrefix(z, cfg, next, actions[1..], k - 1);
      assert actions[..k][1..] == actions[1..][..k - 1];
      Regroup(bytes, Run(z, cfg, next, actions[1..][..k - 1]).1, rest);
    }
  }

  /** From the end of the opening exchange, for every run of requests, scripted screens of the same
      size, on-screen moves, resizes, bells and cut texts, under any encoding and tiling: reading as
      many messages of the stream as the first `k` actions wrote leaves the client with the server's
      size and, once a whole screen has been sent or cleared, the server's colours as of then. */
  lemma ReplicaAtEveryBoundary(z: Codec, cfg: Config, screen: Picture, continuous: bool, actions: seq<Action>, k: nat)
    requires Lossless(z) && screen.Valid() && AllFollowable(z, cfg, Ready(screen), actions) && k <= |actions|
    ensures AllFollowable(z, cfg, Ready(screen), actions[..k])
    ensures var stream := Run(z, cfg, Ready(screen), actions).1;
            var server := Run(z, cfg, Ready(screen), actions[..k]).0;
            var o := C.ReadMessages(z, RGBX_32, C.Connected(screen.width, screen.height, continuous), stream,
                Messages(actions[..k]));
            && o.Went?
            && o.client.fb.width == server.screen.width && o.client.fb.height == server.screen.height
            && (Synced(actions[..k]) ==> SameRgbPicture(o.client.fb, server.screen))
  {
    hide Run, C.ReadMessages, AllFollowable, Synced;
    var rest := RunPrefix(z, cfg, Ready(screen), actions, k);
    var c := C.Connected(screen.width, screen.height, continuous);
    assert InStep(z, Ready(screen), c, false);
    RunFollowed(z, cfg, Ready(screen), c, actions[..k], rest, false);
  }
}
