/** An update of any number of rects, each showing some part of one screen, leaves the client showing the
    screen wherever a rect reached and what it showed before everywhere else. */
module Areas {
  import opened Bytes
  import opened PixelFormats
  import opened PixelLaws
  import opened Grid
  import opened Pictures
  import opened Reads
  import opened Framebuffers
  import opened Zlib
  import opened ServerWrites
  import opened ZrleRects
  import opened Updates
  import C = ClientReads
  import E = ZrleEncode
  import RawRects
  import ZrleDecode

  /** A part of a screen, sent as one rect, raw or as ZRLE tiles. */
  datatype Area = Area(x: u16, y: u16, w: u16, h: u16, zrle: bool, tiling: E.Tiling)

  predicate Covers(a: Area, px: nat, py: nat) {
    a.x <= px < a.x + a.w && a.y <= py < a.y + a.h
  }

  function Tiles(pic: Picture, a: Area): seq<byte>
    requires pic.Valid()
  {
    E.RectTiles(pic, a.x, a.y, a.w, a.h, a.tiling, RGBX_32)
  }

  /** What the connection's deflater has been fed once the area is sent. */
  function Fed(pic: Picture, plains: seq<seq<byte>>, a: Area): seq<seq<byte>>
    requires pic.Valid()
  {
    if a.zrle then plains + [Tiles(pic, a)] else plains
  }

  function AreaBytes(z: Codec, pic: Picture, plains: seq<seq<byte>>, a: Area): seq<byte>
    requires pic.Valid()
  {
    if a.zrle then RectHeader(a.x, a.y, a.w, a.h, C.ENC_ZRLE) + ZrlePayload(z.deflate(plains, Tiles(pic, a)))
    else
      RectHeader(a.x, a.y, a.w, a.h, C.ENC_RAW) + E.Wires(RGBX_32, E.PixelValues(pic, a.x, a.y, a.w, a.h, RGBX_32))
  }

  /** The area is on the screen, and its compressed form one the client is willing to read. */
  predicate Sendable(z: Codec, pic: Picture, plains: seq<seq<byte>>, a: Area)
    requires pic.Valid()
  {
    && InBounds(pic, a.x, a.y, a.w, a.h)
    && (a.zrle ==> |z.deflate(plains, Tiles(pic, a))| <= 67_108_864)
  }

  // ---------------------------------------------------------------- headers

  lemma RectHeaderFront(x: u16, y: u16, w: u16, h: u16, encoding: int, rest: seq<byte>)
    requires -0x8000_0000 <= encoding < 0x8000_0000
    ensures C.ReadHeader(RectHeader(x, y, w, h, encoding) + rest) == Got(C.Header(x, y, w, h, encoding), rest)
  {
    hide Be, C.U16, C.U32;
    var code := Be(encoding % 0x1_0000_0000, 4);
    var t4 := code + rest;
    var t3 := Be(h, 2) + t4;
    var t2 := Be(w, 2) + t3;
    var t1 := Be(y, 2) + t2;
    assert RectHeader(x, y, w, h, encoding) + rest == Be(x, 2) + t1;
    C.U16Front(x, t1);
    C.U16Front(y, t2);
    C.U16Front(w, t3);
    C.U16Front(h, t4);
    C.U32Front(encoding % 0x1_0000_0000, rest);
  }

  /** A rect in any encoding but Raw, CopyRect, ZRLE and DesktopSize is refused by its number, whatever its
      size and whatever follows it, and changes nothing. */
  lemma UnadvertisedRefused(z: Codec, fmt: Format, c: C.Client, x: u16, y: u16, w: u16, h: u16, e: int, rest: seq<byte>)
    requires c.Valid() && -0x8000_0000 <= e < 0x8000_0000
    requires e != 0 && e != 1 && e != 16 && e != -223
    ensures C.ReadRect(z, fmt, c, RectHeader(x, y, w, h, e) + rest) == C.RectFailed(c, UnsupportedEncoding(e))
  {
    hide RectHeader, C.ReadHeader;
    RectHeaderFront(x, y, w, h, e, rest);
  }

  // ---------------------------------------------------------------- one area

  /** The client once it has painted the area. */
  function Showing(z: Codec, pic: Picture, plains: seq<seq<byte>>, c: C.Client, a: Area): C.Client
    requires pic.Valid() && c.Valid() && c.fb.width == pic.width && c.fb.height == pic.height
    requires Sendable(z, pic, plains, a)
  {
    var shown := RectShown(pic, a.x, a.y, a.w, a.h, RGBX_32);
    c.(fb := Paint(c.fb, a.x, a.y, a.w, a.h, shown).value,
       slices := if a.zrle then c.slices + [z.deflate(plains, Tiles(pic, a))] else c.slices)
  }

  lemma RgbxFits()
    ensures CpixelFits(RGBX_32)
  {
    Pow2Table();
  }

  lemma RawAreaRead(z: Codec, pic: Picture, plains: seq<seq<byte>>, c: C.Client, a: Area)
    requires pic.Valid() && c.Valid() && c.fb.width == pic.width && c.fb.height == pic.height
    requires !a.zrle && Sendable(z, pic, plains, a)
    ensures C.ReadRect(z, RGBX_32, c, AreaBytes(z, pic, plains, a))
         == C.RectWent(Showing(z, pic, plains, c, a), [], true, false)
  {
    hide RectShown, Paint, RectHeader, RawRects.RawCells, E.Wires, E.PixelValues, C.ReadHeader;
    var raw := E.Wires(RGBX_32, E.PixelValues(pic, a.x, a.y, a.w, a.h, RGBX_32));
    RectHeaderFront(a.x, a.y, a.w, a.h, C.ENC_RAW, raw);
    RawRects.RawRoundTrip(pic, a.x, a.y, a.w, a.h, RGBX_32);
    TakeFront(raw, [], Ended);
    assert raw + [] == raw;
  }

  lemma ZrleAreaRead(z: Codec, pic: Picture, plains: seq<seq<byte>>, c: C.Client, a: Area)
    requires pic.Valid() && c.Valid() && c.fb.width == pic.width && c.fb.height == pic.height
    requires a.zrle && Sendable(z, pic, plains, a) && Lossless(z) && c.slices == Slices(z, plains)
    ensures C.ReadRect(z, RGBX_32, c, AreaBytes(z, pic, plains, a))
         == C.RectWent(Showing(z, pic, plains, c, a), [], true, false)
  {
    hide RectShown, Paint, RectHeader, E.RectTiles, C.ReadHeader, ZrleDecode.ReadTiles, C.U32, Be, CpixelFits;
    var tiles := Tiles(pic, a);
    var slice := z.deflate(plains, tiles);
    RectHeaderFront(a.x, a.y, a.w, a.h, C.ENC_ZRLE, ZrlePayload(slice));
    C.U32Front(|slice|, slice);
    TakeFront(slice, [], Ended);
    assert slice + [] == slice;
    RgbxFits();
    RectRoundTrip(pic, a.x, a.y, a.w, a.h, a.tiling, RGBX_32, []);
    assert tiles + [] == tiles;
  }

  /** After an area is painted: its cells have the screen's colours, every other cell is as it was. */
  lemma AreaShows(z: Codec, pic: Picture, plains: seq<seq<byte>>, c: C.Client, a: Area, px: nat, py: nat)
    requires pic.Valid() && c.Valid() && c.fb.width == pic.width && c.fb.height == pic.height
    requires Sendable(z, pic, plains, a) && px < pic.width && py < pic.height
    ensures var fb := Showing(z, pic, plains, c, a).fb; var (w, h) := (pic.width, pic.height);
      if Covers(a, px, py) then SameRgb(At(fb.px, w, h, px, py), At(pic.px, w, h, px, py))
      else At(fb.px, w, h, px, py) == At(c.fb.px, w, h, px, py)
  {
    hide Place, RectShown, Meaning, FromRgba;
    var shown := RectShown(pic, a.x, a.y, a.w, a.h, RGBX_32);
    Commute(a.w, a.h);
    assert Showing(z, pic, plains, c, a).fb.px
        == Place(c.fb.px, pic.width, pic.height, a.x, a.y, shown, a.w, a.h);
    hide Showing, Paint;
    PlaceAt(c.fb.px, pic.width, pic.height, a.x, a.y, shown, a.w, a.h, px, py);
    if Covers(a, px, py) {
      RectShownAt(pic, a.x, a.y, a.w, a.h, RGBX_32, px - a.x, py - a.y);
      IndexInside(pic.width, pic.height, px, py);
      NegotiatedIsExact(At(pic.px, pic.width, pic.height, px, py));
    }
  }

  // ---------------------------------------------------------------- any number of them

  /** The areas' rects, one after another. */
  function AllBytes(z: Codec, pic: Picture, plains: seq<seq<byte>>, areas: seq<Area>): (b: seq<seq<byte>>)
    requires pic.Valid()
    ensures |b| == |areas|
    decreases |areas|
  {
    if |areas| == 0 then []
    else [AreaBytes(z, pic, plains, areas[0])] + AllBytes(z, pic, Fed(pic, plains, areas[0]), areas[1..])
  }

  function AllFed(pic: Picture, plains: seq<seq<byte>>, areas: seq<Area>): seq<seq<byte>>
    requires pic.Valid()
    decreases |areas|
  {
    if |areas| == 0 then plains else AllFed(pic, Fed(pic, plains, areas[0]), areas[1..])
  }

  predicate AllSendable(z: Codec, pic: Picture, plains: seq<seq<byte>>, areas: seq<Area>)
    requires pic.Valid()
    decreases |areas|
  {
    |areas| == 0
    || (Sendable(z, pic, plains, areas[0]) && AllSendable(z, pic, Fed(pic, plains, areas[0]), areas[1..]))
  }

  predicate Covered(areas: seq<Area>, px: nat, py: nat) {
    exists i :: 0 <= i < |areas| && Covers(areas[i], px, py)
  }

  /** `c` shows the screen where some area reaches, and elsewhere what `before` shows. */
  ghost predicate Shows(c: C.Client, pic: Picture, before: C.Client, areas: seq<Area>) {
    && c.Valid() && before.Valid() && pic.Valid()
    && c.fb.width == before.fb.width == pic.width && c.fb.height == before.fb.height == pic.height
    && forall px: nat, py: nat :: px < pic.width && py < pic.height ==> ShowsAt(c, pic, before, areas, px, py)
  }

  predicate ShowsAt(c: C.Client, pic: Picture, before: C.Client, areas: seq<Area>, px: nat, py: nat)
    requires c.fb.Valid() && before.fb.Valid() && pic.Valid() && px < pic.width && py < pic.height
    requires c.fb.width == before.fb.width == pic.width && c.fb.height == before.fb.height == pic.height
  {
    if Covered(areas, px, py) then
      SameRgb(At(c.fb.px, pic.width, pic.height, px, py), At(pic.px, pic.width, pic.height, px, py))
    else At(c.fb.px, pic.width, pic.height, px, py) == At(before.fb.px, pic.width, pic.height, px, py)
  }

  lemma {:induction false} AreasChain(z: Codec, pic: Picture, plains: seq<seq<byte>>, c: C.Client, areas: seq<Area>)
    returns (clients: seq<C.Client>, paints: seq<bool>, resizes: seq<bool>)
    requires pic.Valid() && c.Valid() && c.fb.width == pic.width && c.fb.height == pic.height
    requires AllSendable(z, pic, plains, areas) && Lossless(z) && c.slices == Slices(z, plains)
    ensures Chain(z, RGBX_32, AllBytes(z, pic, plains, areas), clients, paints, resizes) && clients[0] == c
    ensures (true in paints <==> |areas| > 0) && true !in resizes
    ensures clients[|areas|] == c.(fb := clients[|areas|].fb, slices := Slices(z, AllFed(pic, plains, areas)))
    ensures Shows(clients[|areas|], pic, c, areas)
    decreases |areas|
  {
    hide AreaBytes, C.ReadRect, Chain, Sendable, Shows, Tiles, Slices, Lossless;
    if |areas| == 0 {
      clients, paints, resizes := [c], [], [];
      NoAreas(z, pic, c);
    } else {
      var a, tail := areas[0], areas[1..];
      var rect := AreaBytes(z, pic, plains, a);
      var next := AreaRead(z, pic, plains, c, a);
      var cs, ps, rs := AreasChain(z, pic, Fed(pic, plains, a), next, tail);
      ChainShape(z, RGBX_32, AllBytes(z, pic, Fed(pic, plains, a), tail), cs, ps, rs);
      ChainCons(z, RGBX_32, c, rect, true, false, AllBytes(z, pic, Fed(pic, plains, a), tail), cs, ps, rs);
      clients, paints, resizes := [c] + cs, [true] + ps, [false] + rs;
      ShowsMore(z, pic, plains, c, areas, cs[|tail|]);
    }
  }

  lemma NoAreas(z: Codec, pic: Picture, c: C.Client)
    requires pic.Valid() && c.Valid() && c.fb.width == pic.width && c.fb.height == pic.height
    ensures Chain(z, RGBX_32, [], [c], [], []) && Shows(c, pic, c, [])
  {
  }

  lemma AreaRead(z: Codec, pic: Picture, plains: seq<seq<byte>>, c: C.Client, a: Area) returns (next: C.Client)
    requires pic.Valid() && c.Valid() && c.fb.width == pic.width && c.fb.height == pic.height
    requires Sendable(z, pic, plains, a) && Lossless(z) && c.slices == Slices(z, plains)
    ensures next == Showing(z, pic, plains, c, a) && next.Valid()
    ensures next == c.(fb := next.fb, slices := Slices(z, Fed(pic, plains, a)))
    ensures next.fb.width == pic.width && next.fb.height == pic.height
    ensures C.ReadRect(z, RGBX_32, c, AreaBytes(z, pic, plains, a)) == C.RectWent(next, [], true, false)
  {
    next := Showing(z, pic, plains, c, a);
    hide C.ReadRect, AreaBytes, Tiles, RectShown, Slices;
    if a.zrle {
      ZrleAreaRead(z, pic, plains, c, a);
      SlicesNext(z, plains, Tiles(pic, a));
    } else {
      RawAreaRead(z, pic, plains, c, a);
    }
    C.RectKeepsValid(z, RGBX_32, c, AreaBytes(z, pic, plains, a));
  }

  /** One more area in front: later ones may paint over it, and paint the same. */
  lemma ShowsMore(z: Codec, pic: Picture, plains: seq<seq<byte>>, c: C.Client, areas: seq<Area>, last: C.Client)
    requires pic.Valid() && c.Valid() && c.fb.width == pic.width && c.fb.height == pic.height
    requires |areas| > 0 && Sendable(z, pic, plains, areas[0])
    requires Shows(last, pic, Showing(z, pic, plains, c, areas[0]), areas[1..])
    ensures Shows(last, pic, c, areas)
  {
    hide Showing, Sendable, At;
    forall px: nat, py: nat | px < pic.width && py < pic.height
      ensures ShowsAt(last, pic, c, areas, px, py)
    {
      assert ShowsAt(last, pic, Showing(z, pic, plains, c, areas[0]), areas[1..], px, py);
      AreaShows(z, pic, plains, c, areas[0], px, py);
      CoveredCons(areas, px, py);
    }
  }

  lemma CoveredCons(areas: seq<Area>, px: nat, py: nat)
    requires |areas| > 0
    ensures Covered(areas, px, py) <==> Covers(areas[0], px, py) || Covered(areas[1..], px, py)
  {
    if Covered(areas[1..], px, py) {
      var i :| 0 <= i < |areas[1..]| && Covers(areas[1..][i], px, py);
      assert Covers(areas[i + 1], px, py);
    }
    if Covered(areas, px, py) && !Covers(areas[0], px, py) {
      var i :| 0 <= i < |areas| && Covers(areas[i], px, py);
      assert areas[1..][i - 1] == areas[i];
    }
  }

  /** A client of the server's size follows an update of any areas of the server's screen, overlapping or
      not, in any mix of encodings and tilings: it reads exactly the update, ends up with the screen's
      colours wherever an area reaches, keeps every other pixel, and has counted one paint. */
  lemma AreasFollowed(z: Codec, pic: Picture, plains: seq<seq<byte>>, c: C.Client, areas: seq<Area>, rest: seq<byte>)
    requires pic.Valid() && c.Valid() && c.fb.width == pic.width && c.fb.height == pic.height
    requires AllSendable(z, pic, plains, areas) && Lossless(z) && c.slices == Slices(z, plains) && |areas| < 0x1_0000
    ensures var o := C.ReadMessage(z, RGBX_32, c,
                UpdateHeader(|areas|) + Concat(AllBytes(z, pic, plains, areas)) + rest);
      && o.Went? && o.rest == rest && Shows(o.client, pic, c, areas)
      && o.client.slices == Slices(z, AllFed(pic, plains, areas))
      && o.client.books == C.Concluded(C.Begun(c), |areas| > 0, false).books
  {
    hide C.Client.Valid, Shows, AllBytes, AllFed, AllSendable, Chain, Concat, Be, C.ReadMessage, Slices, Lossless;
    var b := C.Begun(c);
    BegunIsValid(c);
    var rects := AllBytes(z, pic, plains, areas);
    var clients, paints, resizes := AreasChain(z, pic, plains, b, areas);
    ChainShape(z, RGBX_32, rects, clients, paints, resizes);
    var next := clients[|areas|];
    var after := C.Concluded(next, |areas| > 0, false);
    var data := UpdateHeader(|areas|) + Concat(rects) + rest;
    assert IsUpdate(z, RGBX_32, c, data, after, rest, 0, rects, clients, paints, resizes);
    UpdateReads(z, RGBX_32, c, data, after, rest, 0, rects, clients, paints, resizes);
    SameShown(next, after, pic, b, c, areas);
  }

  lemma SameShown(c: C.Client, d: C.Client, pic: Picture, b: C.Client, e: C.Client, areas: seq<Area>)
    requires Shows(c, pic, b, areas) && d.fb == c.fb && e.fb == b.fb
    ensures Shows(d, pic, e, areas)
  {
    hide At, Covered;
    forall px: nat, py: nat | px < pic.width && py < pic.height ensures ShowsAt(d, pic, e, areas, px, py) {
      assert ShowsAt(c, pic, b, areas, px, py);
    }
  }

  /** So areas that between them reach every pixel leave the client a replica of the screen. */
  lemma CoveredIsSame(c: C.Client, pic: Picture, before: C.Client, areas: seq<Area>)
    requires Shows(c, pic, before, areas)
    requires forall px: nat, py: nat :: px < pic.width && py < pic.height ==> Covered(areas, px, py)
    ensures SameRgbPicture(c.fb, pic)
  {
    hide Covered;
    var w, h := pic.width, pic.height;
    forall k | 0 <= k < |pic.px| ensures SameRgb(c.fb.px[k], pic.px[k]) {
      CellOf(w, h, k);
      assert ShowsAt(c, pic, before, areas, k % w, k / w);
      RawRects.CellAt(c.fb.px, w, h, k);
      RawRects.CellAt(pic.px, w, h, k);
    }
  }
}
