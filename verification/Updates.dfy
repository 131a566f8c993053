/** A FramebufferUpdate is read rect by rect to its last one: what the client makes of it, for every list
    of rects, and no other way for it to be read. */
module Updates {
  import opened Bytes
  import opened PixelFormats
  import opened Reads
  import opened Zlib
  import opened ClientReads

  // ---------------------------------------------------------------- a rect ends where it ends

  lemma OwedLocal(x: seq<byte>, tail: seq<byte>, n: nat)
    requires n <= |x|
    ensures Owed(x, n) == Got(x[..n], x[n..]) && Owed(x + tail, n) == Got(x[..n], x[n..] + tail)
  {
    assert (x + tail)[..n] == x[..n] && (x + tail)[n..] == x[n..] + tail;
  }

  lemma U16Local(x: seq<byte>, tail: seq<byte>)
    requires |x| >= 2
    ensures U16(x).Got? && U16(x + tail) == Got(U16(x).value, U16(x).rest + tail)
  {
    OwedLocal(x, tail, 2);
  }

  lemma U32Local(x: seq<byte>, tail: seq<byte>)
    requires |x| >= 4
    ensures U32(x).Got? && U32(x + tail) == Got(U32(x).value, U32(x).rest + tail)
  {
    OwedLocal(x, tail, 4);
  }

  lemma HeaderLength(x: seq<byte>)
    ensures ReadHeader(x).Got? ==> |x| == |ReadHeader(x).rest| + 12
  {
    hide U16, U32;
  }

  lemma HeaderLocal(x: seq<byte>, tail: seq<byte>)
    requires |x| >= 12
    ensures ReadHeader(x).Got? && ReadHeader(x + tail) == Got(ReadHeader(x).value, ReadHeader(x).rest + tail)
  {
    hide U16, U32;
    U16Local(x, tail);
    var d1 := U16(x).rest;
    U16Local(d1, tail);
    var d2 := U16(d1).rest;
    U16Local(d2, tail);
    var d3 := U16(d2).rest;
    U16Local(d3, tail);
    U32Local(U16(d3).rest, tail);
  }

  /** `a` is a rect read by itself, `b` the same with `tail` after it: if either is read without touching
      the tail, both are, to the same effect. */
  predicate Local(a: RectOutcome, b: RectOutcome, tail: seq<byte>) {
    a.RectWent? || (b.RectWent? && |b.rest| >= |tail|) ==>
      a.RectWent? && b == RectWent(a.client, a.rest + tail, a.paints, a.resizes)
  }

  lemma RawLocal(fmt: Format, c: Client, hd: Header, x: seq<byte>, tail: seq<byte>)
    requires c.Valid()
    ensures Local(ReadRawRect(fmt, c, hd, x), ReadRawRect(fmt, c, hd, x + tail), tail)
  {
    MulMono(0, hd.h, hd.w);
    MulMono(0, hd.w * hd.h, fmt.BytesPerPixel());
    var n := hd.w * hd.h * fmt.BytesPerPixel();
    if n <= |x| { OwedLocal(x, tail, n); }
  }

  lemma CopyLocal(c: Client, hd: Header, x: seq<byte>, tail: seq<byte>)
    requires c.Valid()
    ensures Local(ReadCopyRect(c, hd, x), ReadCopyRect(c, hd, x + tail), tail)
  {
    hide U16;
    if |x| >= 4 {
      U16Local(x, tail);
      U16Local(U16(x).rest, tail);
    }
  }

  lemma ZrleLocal(z: Codec, fmt: Format, c: Client, hd: Header, x: seq<byte>, tail: seq<byte>)
    requires c.Valid()
    ensures Local(ReadZrleRect(z, fmt, c, hd, x), ReadZrleRect(z, fmt, c, hd, x + tail), tail)
  {
    hide U32;
    if |x| >= 4 {
      U32Local(x, tail);
      var len, d1 := U32(x).value, U32(x).rest;
      if len <= |d1| { OwedLocal(d1, tail, len); }
    }
  }

  lemma RectLocal(z: Codec, fmt: Format, c: Client, x: seq<byte>, tail: seq<byte>)
    requires c.Valid()
    ensures Local(ReadRect(z, fmt, c, x), ReadRect(z, fmt, c, x + tail), tail)
  {
    hide ReadHeader, ReadRawRect, ReadCopyRect, ReadZrleRect;
    HeaderLength(x);
    HeaderLength(x + tail);
    if |x| >= 12 {
      HeaderLocal(x, tail);
      var hd, body := ReadHeader(x).value, ReadHeader(x).rest;
      RawLocal(fmt, c, hd, body, tail);
      CopyLocal(c, hd, body, tail);
      ZrleLocal(z, fmt, c, hd, body, tail);
    } else {
      NoLonger(z, fmt, c, x + tail);
    }
  }

  /** A rect that was read has used up its header at least. */
  lemma NoLonger(z: Codec, fmt: Format, c: Client, x: seq<byte>)
    requires c.Valid()
    ensures ReadRect(z, fmt, c, x).RectWent? ==> |ReadRect(z, fmt, c, x).rest| + 12 <= |x|
  {
    hide ReadHeader;
    HeaderLength(x);
    match ReadHeader(x)
    case Bad(_) =>
    case Got(hd, body) =>
      MulMono(0, hd.h, hd.w);
      MulMono(0, hd.w * hd.h, fmt.BytesPerPixel());
  }

  // ---------------------------------------------------------------- rects one after another

  /** Each of the byte strings is one rect to its last byte, read by the client the one before it left;
      `paints` and `resizes` say which of them painted and which resized. */
  ghost predicate Chain(z: Codec, fmt: Format, rects: seq<seq<byte>>, clients: seq<Client>, paints: seq<bool>,
                        resizes: seq<bool>)
  {
    && |clients| == |rects| + 1 && |paints| == |resizes| == |rects| && clients[0].Valid()
    && forall i :: 0 <= i < |rects| ==>
         && clients[i].Valid()
         && ReadRect(z, fmt, clients[i], rects[i]) == RectWent(clients[i + 1], [], paints[i], resizes[i])
  }

  lemma ChainTail(z: Codec, fmt: Format, rects: seq<seq<byte>>, clients: seq<Client>, paints: seq<bool>,
                  resizes: seq<bool>)
    requires Chain(z, fmt, rects, clients, paints, resizes) && |rects| > 0
    ensures Chain(z, fmt, rects[1..], clients[1..], paints[1..], resizes[1..])
    ensures ReadRect(z, fmt, clients[0], rects[0]) == RectWent(clients[1], [], paints[0], resizes[0])
    ensures true in paints <==> paints[0] || true in paints[1..]
    ensures true in resizes <==> resizes[0] || true in resizes[1..]
  {
    hide ReadRect;
    RectKeepsValid(z, fmt, clients[0], rects[0]);
    assert paints == [paints[0]] + paints[1..] && resizes == [resizes[0]] + resizes[1..];
    forall i | 0 <= i < |rects[1..]|
      ensures clients[1..][i].Valid()
      ensures ReadRect(z, fmt, clients[1..][i], rects[1..][i])
           == RectWent(clients[1..][i + 1], [], paints[1..][i], resizes[1..][i])
    {
      assert rects[1..][i] == rects[i + 1] && clients[1..][i] == clients[i + 1];
    }
  }

  lemma {:induction false} ChainReads(z: Codec, fmt: Format, rects: seq<seq<byte>>, clients: seq<Client>,
      paints: seq<bool>, resizes: seq<bool>, rest: seq<byte>, p: bool, r: bool)
    requires Chain(z, fmt, rects, clients, paints, resizes)
    ensures ReadRects(z, fmt, clients[0], Concat(rects) + rest, |rects|, p, r)
         == RectWent(clients[|rects|], rest, p || true in paints, r || true in resizes)
    decreases |rects|
  {
    hide ReadRect, Chain;
    ChainShape(z, fmt, rects, clients, paints, resizes);
    if |rects| == 0 {
      assert [] + rest == rest;
    } else {
      var more := Concat(rects[1..]) + rest;
      ChainTail(z, fmt, rects, clients, paints, resizes);
      RectLocal(z, fmt, clients[0], rects[0], more);
      assert [] + more == more;
      Regroup(rects[0], Concat(rects[1..]), rest);
      RectKeepsValid(z, fmt, clients[0], rects[0]);
      ChainReads(z, fmt, rects[1..], clients[1..], paints[1..], resizes[1..], rest, p || paints[0], r || resizes[0]);
    }
  }

  lemma ChainShape(z: Codec, fmt: Format, rects: seq<seq<byte>>, clients: seq<Client>, paints: seq<bool>,
                   resizes: seq<bool>)
    requires Chain(z, fmt, rects, clients, paints, resizes)
    ensures |clients| == |rects| + 1 && |paints| == |resizes| == |rects| && clients[0].Valid()
  {
  }

  /** One more rect in front. */
  lemma ChainCons(z: Codec, fmt: Format, c: Client, rect: seq<byte>, p: bool, r: bool, rects: seq<seq<byte>>,
                  clients: seq<Client>, paints: seq<bool>, resizes: seq<bool>)
    requires Chain(z, fmt, rects, clients, paints, resizes) && c.Valid()
    requires ReadRect(z, fmt, c, rect) == RectWent(clients[0], [], p, r)
    ensures Chain(z, fmt, [rect] + rects, [c] + clients, [p] + paints, [r] + resizes)
    ensures Concat([rect] + rects) == rect + Concat(rects)
    ensures true in [p] + paints <==> p || true in paints
    ensures true in [r] + resizes <==> r || true in resizes
  {
    hide ReadRect;
    assert ([rect] + rects)[1..] == rects;
    var cs := [c] + clients;
    forall i | 0 <= i < |[rect] + rects|
      ensures cs[i].Valid()
      ensures ReadRect(z, fmt, cs[i], ([rect] + rects)[i])
           == RectWent(cs[i + 1], [], ([p] + paints)[i], ([r] + resizes)[i])
    {
      if i > 0 { assert ([rect] + rects)[i] == rects[i - 1] && cs[i] == clients[i - 1]; }
    }
  }

  lemma {:induction false} ReadsChain(z: Codec, fmt: Format, c: Client, data: seq<byte>, n: nat, p: bool, r: bool)
    returns (rects: seq<seq<byte>>, clients: seq<Client>, paints: seq<bool>, resizes: seq<bool>)
    requires c.Valid() && ReadRects(z, fmt, c, data, n, p, r).RectWent?
    ensures Chain(z, fmt, rects, clients, paints, resizes) && |rects| == n && clients[0] == c
    ensures var o := ReadRects(z, fmt, c, data, n, p, r);
      && data == Concat(rects) + o.rest && o.client == clients[n]
      && o.paints == (p || true in paints) && o.resizes == (r || true in resizes)
    decreases n
  {
    hide ReadRect;
    if n == 0 {
      rects, clients, paints, resizes := [], [c], [], [];
      assert [] + data == data;
    } else {
      RectKeepsValid(z, fmt, c, data);
      var one := ReadRect(z, fmt, c, data);
      var rect := FirstRect(z, fmt, c, data);
      hide Chain;
      var rs, cs, ps, zs := ReadsChain(z, fmt, one.client, one.rest, n - 1, p || one.paints, r || one.resizes);
      ChainShape(z, fmt, rs, cs, ps, zs);
      ChainCons(z, fmt, c, rect, one.paints, one.resizes, rs, cs, ps, zs);
      rects, clients, paints, resizes := [rect] + rs, [c] + cs, [one.paints] + ps, [one.resizes] + zs;
      Regroup(rect, Concat(rs), ReadRects(z, fmt, c, data, n, p, r).rest);
    }
  }

  /** A rect that was read, cut off from what follows it. */
  lemma FirstRect(z: Codec, fmt: Format, c: Client, data: seq<byte>) returns (rect: seq<byte>)
    requires c.Valid() && ReadRect(z, fmt, c, data).RectWent?
    ensures var o := ReadRect(z, fmt, c, data);
      && data == rect + o.rest
      && ReadRect(z, fmt, c, rect) == RectWent(o.client, [], o.paints, o.resizes)
  {
    var rest := ReadRect(z, fmt, c, data).rest;
    Suffix(z, fmt, c, data);
    rect := data[..|data| - |rest|];
    assert data == rect + rest;
    RectLocal(z, fmt, c, rect, rest);
    var alone := ReadRect(z, fmt, c, rect).rest;
    assert |alone + rest| == |rest|;
    assert alone == [];
  }

  predicate EndOf(rest: seq<byte>, data: seq<byte>) {
    |rest| <= |data| && data[|data| - |rest|..] == rest
  }

  lemma OwedEnd(data: seq<byte>, n: nat)
    ensures Owed(data, n).Got? ==> EndOf(Owed(data, n).rest, data)
  {
  }

  lemma EndOfEnd(a: seq<byte>, b: seq<byte>, c: seq<byte>)
    requires EndOf(a, b) && EndOf(b, c)
    ensures EndOf(a, c)
  {
    assert c[|c| - |a|..] == c[|c| - |b|..][|b| - |a|..];
  }

  lemma CopyEnd(c: Client, hd: Header, x: seq<byte>)
    requires c.Valid() && ReadCopyRect(c, hd, x).RectWent?
    ensures EndOf(ReadCopyRect(c, hd, x).rest, x)
  {
    OwedEnd(x, 2);
    var d1 := U16(x).rest;
    OwedEnd(d1, 2);
    EndOfEnd(U16(d1).rest, d1, x);
    hide U16;
  }

  lemma RawEnd(fmt: Format, c: Client, hd: Header, x: seq<byte>)
    requires c.Valid() && ReadRawRect(fmt, c, hd, x).RectWent?
    ensures EndOf(ReadRawRect(fmt, c, hd, x).rest, x)
  {
    MulMono(0, hd.h, hd.w);
    MulMono(0, hd.w * hd.h, fmt.BytesPerPixel());
    OwedEnd(x, hd.w * hd.h * fmt.BytesPerPixel());
    hide Owed, EndOf;
  }

  lemma ZrleEnd(z: Codec, fmt: Format, c: Client, hd: Header, x: seq<byte>)
    requires c.Valid() && ReadZrleRect(z, fmt, c, hd, x).RectWent?
    ensures EndOf(ReadZrleRect(z, fmt, c, hd, x).rest, x)
  {
    OwedEnd(x, 4);
    var len, d1 := U32(x).value, U32(x).rest;
    OwedEnd(d1, len);
    if Owed(d1, len).Got? { EndOfEnd(Owed(d1, len).rest, d1, x); }
    hide Owed, U32, EndOf;
  }

  /** What a rect leaves unread is the end of what it was given. */
  lemma Suffix(z: Codec, fmt: Format, c: Client, data: seq<byte>)
    requires c.Valid() && ReadRect(z, fmt, c, data).RectWent?
    ensures EndOf(ReadRect(z, fmt, c, data).rest, data)
  {
    hide ReadHeader, ReadRawRect, ReadCopyRect, ReadZrleRect, EndOf;
    HeaderSuffix(data);
    var hd, body := ReadHeader(data).value, ReadHeader(data).rest;
    if hd.encoding == ENC_RAW {
      RawEnd(fmt, c, hd, body);
    } else if hd.encoding == ENC_COPY_RECT {
      CopyEnd(c, hd, body);
    } else if hd.encoding == ENC_ZRLE {
      ZrleEnd(z, fmt, c, hd, body);
    } else {
      WholeEnd(body);
    }
    EndOfEnd(ReadRect(z, fmt, c, data).rest, body, data);
  }

  lemma WholeEnd(data: seq<byte>)
    ensures EndOf(data, data)
  {
  }

  lemma HeaderSuffix(x: seq<byte>)
    ensures ReadHeader(x).Got? ==> |x| >= 12 && EndOf(ReadHeader(x).rest, x)
  {
    if ReadHeader(x).Got? {
      var d1 := U16(x).rest;
      var d2 := U16(d1).rest;
      var d3 := U16(d2).rest;
      var d4 := U16(d3).rest;
      assert d1 == x[2..] && d2 == x[4..] && d3 == x[6..] && d4 == x[8..] && U32(d4).rest == x[12..];
    }
  }

  // ---------------------------------------------------------------- whole updates

  /** `data` is an update of these rects and then `rest`, and reading it leaves `after`. */
  ghost predicate IsUpdate(z: Codec, fmt: Format, c: Client, data: seq<byte>, after: Client, rest: seq<byte>, pad: byte,
                           rects: seq<seq<byte>>, clients: seq<Client>, paints: seq<bool>, resizes: seq<bool>)
  {
    && |rects| < 0x1_0000 && data == [0, pad] + Be(|rects|, 2) + Concat(rects) + rest
    && Chain(z, fmt, rects, clients, paints, resizes) && clients[0] == Begun(c)
    && after == Concluded(clients[|rects|], true in paints, true in resizes)
  }

  lemma UpdateCount(z: Codec, fmt: Format, c: Client, pad: byte, n: u16, body: seq<byte>)
    requires c.Valid()
    ensures ReadMessage(z, fmt, c, [0, pad] + Be(n, 2) + body)
         == match ReadRects(z, fmt, Begun(c), body, n, false, false)
            case RectFailed(failed, e) => Failed(failed, e)
            case RectWent(next, rest, paints, resizes) => Went(Concluded(next, paints, resizes), rest)
  {
    hide ReadRects, Be, U16, Begun, Concluded;
    BegunIsValid(c);
    var d1 := Be(n, 2) + body;
    var data := [0, pad] + Be(n, 2) + body;
    assert data == [0] + ([pad] + d1);
    TakeFront([0], [pad] + d1, Ended);
    TakeFront([pad], d1, Ended);
    U16Front(n, body);
  }

  lemma BegunIsValid(c: Client)
    ensures Begun(c).Valid() <==> c.Valid()
  {
  }

  /** A FramebufferUpdate of any number of rects is read to its last byte, each rect by the client the
      one before it left, and concluded as painting and resizing exactly when some rect painted and some
      resized. There is no other way for one to be read. */
  lemma UpdateIff(z: Codec, fmt: Format, c: Client, data: seq<byte>, after: Client, rest: seq<byte>)
    requires c.Valid() && |data| > 0 && data[0] == 0
    ensures ReadMessage(z, fmt, c, data) == Went(after, rest)
       <==> exists pad, rects, clients, paints, resizes ::
              IsUpdate(z, fmt, c, data, after, rest, pad, rects, clients, paints, resizes)
  {
    hide ReadMessage, Concluded, Begun, Chain, ReadRects, IsUpdate;
    BegunIsValid(c);
    forall pad, rects, clients, paints, resizes |
        IsUpdate(z, fmt, c, data, after, rest, pad, rects, clients, paints, resizes)
      ensures ReadMessage(z, fmt, c, data) == Went(after, rest)
    {
      UpdateReads(z, fmt, c, data, after, rest, pad, rects, clients, paints, resizes);
    }
    if ReadMessage(z, fmt, c, data) == Went(after, rest) {
      var pad, rects, clients, paints, resizes := ReadUpdates(z, fmt, c, data, after, rest);
    }
  }

  lemma UpdateReads(z: Codec, fmt: Format, c: Client, data: seq<byte>, after: Client, rest: seq<byte>, pad: byte,
                    rects: seq<seq<byte>>, clients: seq<Client>, paints: seq<bool>, resizes: seq<bool>)
    requires c.Valid() && IsUpdate(z, fmt, c, data, after, rest, pad, rects, clients, paints, resizes)
    ensures ReadMessage(z, fmt, c, data) == Went(after, rest)
  {
    hide ReadMessage, Concluded, Begun, Chain, ReadRects;
    BegunIsValid(c);
    Regroup([0, pad] + Be(|rects|, 2), Concat(rects), rest);
    UpdateCount(z, fmt, c, pad, |rects|, Concat(rects) + rest);
    ChainReads(z, fmt, rects, clients, paints, resizes, rest, false, false);
  }

  lemma ReadUpdates(z: Codec, fmt: Format, c: Client, data: seq<byte>, after: Client, rest: seq<byte>)
    returns (pad: byte, rects: seq<seq<byte>>, clients: seq<Client>, paints: seq<bool>, resizes: seq<bool>)
    requires c.Valid() && |data| > 0 && data[0] == 0 && ReadMessage(z, fmt, c, data) == Went(after, rest)
    ensures IsUpdate(z, fmt, c, data, after, rest, pad, rects, clients, paints, resizes)
  {
    hide Concluded, Begun, Chain, ReadRects;
    BegunIsValid(c);
    assert |data| >= 4;
    pad := data[1];
    var n, body := U16(data[2..]).value, data[4..];
    CountBytes(data[2..4]);
    assert data[2..][..2] == data[2..4] && data[1..][1..] == data[2..] && data[2..][2..] == body;
    assert data == [0, pad] + Be(n, 2) + body;
    UpdateCount(z, fmt, c, pad, n, body);
    rects, clients, paints, resizes := ReadsChain(z, fmt, Begun(c), body, n, false, false);
    Regroup([0, pad] + Be(n, 2), Concat(rects), rest);
  }

  lemma CountBytes(b: seq<byte>)
    requires |b| == 2
    ensures Be(FromBe(b), 2) == b
  {
    var hi: nat, lo: nat := b[0], b[1];
    assert b[..1][..0] == [] && FromBe(b[..1]) == hi;
    assert FromBe(b) == hi * 256 + lo;
    DivModUnique(hi * 256 + lo, 256, hi, lo);
    assert Be(b[0], 1) == [b[0]];
  }

  /** An update whose first rects are read and whose next one fails fails with it, leaving the client as
      that rect left it. */
  lemma UpdateStops(z: Codec, fmt: Format, c: Client, pad: byte, n: u16, rects: seq<seq<byte>>, clients: seq<Client>,
                    paints: seq<bool>, resizes: seq<bool>, bad: seq<byte>)
    requires c.Valid() && Chain(z, fmt, rects, clients, paints, resizes) && clients[0] == Begun(c) && |rects| < n
    requires clients[|rects|].Valid() && ReadRect(z, fmt, clients[|rects|], bad).RectFailed?
    ensures var o := ReadRect(z, fmt, clients[|rects|], bad);
            ReadMessage(z, fmt, c, [0, pad] + Be(n, 2) + (Concat(rects) + bad)) == Failed(o.client, o.error)
  {
    hide ReadMessage, Concluded, Begun, Chain, ReadRects, ReadRect;
    BegunIsValid(c);
    UpdateCount(z, fmt, c, pad, n, Concat(rects) + bad);
    ChainStops(z, fmt, n, rects, clients, paints, resizes, bad, false, false);
  }

  lemma {:induction false} ChainStops(z: Codec, fmt: Format, n: nat, rects: seq<seq<byte>>, clients: seq<Client>,
      paints: seq<bool>, resizes: seq<bool>, bad: seq<byte>, p: bool, r: bool)
    requires Chain(z, fmt, rects, clients, paints, resizes) && |rects| < n
    requires clients[|rects|].Valid() && ReadRect(z, fmt, clients[|rects|], bad).RectFailed?
    ensures var o := ReadRect(z, fmt, clients[|rects|], bad);
            ReadRects(z, fmt, clients[0], Concat(rects) + bad, n, p, r) == RectFailed(o.client, o.error)
    decreases |rects|
  {
    hide ReadRect, Chain;
    ChainShape(z, fmt, rects, clients, paints, resizes);
    if |rects| == 0 {
      assert [] + bad == bad;
    } else {
      var more := Concat(rects[1..]) + bad;
      ChainTail(z, fmt, rects, clients, paints, resizes);
      RectLocal(z, fmt, clients[0], rects[0], more);
      assert [] + more == more;
      Regroup(rects[0], Concat(rects[1..]), bad);
      RectKeepsValid(z, fmt, clients[0], rects[0]);
      ChainStops(z, fmt, n - 1, rects[1..], clients[1..], paints[1..], resizes[1..], bad, p || paints[0],
                 r || resizes[0]);
    }
  }

  // ---------------------------------------------------------------- the other messages

  /** A colour map of any size is passed over, and nothing else is: the client is as it was. */
  lemma ColourMapSkipped(z: Codec, fmt: Format, c: Client, pad: byte, first: u16, count: u16, entries: seq<byte>,
                         rest: seq<byte>)
    requires c.Valid() && |entries| == 6 * count
    ensures ReadMessage(z, fmt, c, [1, pad] + Be(first, 2) + Be(count, 2) + entries + rest) == Went(c, rest)
  {
    hide Be, U16;
    var d3 := entries + rest;
    var d2 := Be(count, 2) + d3;
    var d1 := Be(first, 2) + d2;
    assert [1, pad] + Be(first, 2) + Be(count, 2) + entries + rest == [1] + ([pad] + d1);
    TakeFront([1], [pad] + d1, Ended);
    TakeFront([pad], d1, Ended);
    U16Front(first, d2);
    U16Front(count, d3);
    TakeFront(entries, rest, Ended);
  }

  /** Cut text claiming more than 8 MiB is refused whatever follows, and so is a ZRLE rect claiming more than
      64 MiB, and a message of any type but the four. */
  lemma Refused(z: Codec, fmt: Format, c: Client, len: u32, hd: Header, kind: byte, rest: seq<byte>)
    requires c.Valid()
    ensures len > 8_388_608 ==> ReadMessage(z, fmt, c, [3, 0, 0, 0] + Be(len, 4) + rest) == Failed(c, Protocol)
    ensures len > 67_108_864 ==> ReadZrleRect(z, fmt, c, hd, Be(len, 4) + rest) == RectFailed(c, Protocol)
    ensures kind > 3 ==> ReadMessage(z, fmt, c, [kind] + rest) == Failed(c, Protocol)
  {
    hide Be, U32;
    var d2 := Be(len, 4) + rest;
    assert [3, 0, 0, 0] + Be(len, 4) + rest == [3] + ([0, 0, 0] + d2);
    TakeFront([3], [0, 0, 0] + d2, Ended);
    TakeFront([0, 0, 0], d2, Ended);
    U32Front(len, rest);
    TakeFront([kind], rest, Ended);
  }

  // ---------------------------------------------------------------- whether the framebuffer shows anything

  /** The last thing told about the framebuffer was a paint. */
  predicate ToldPaint(events: seq<Event>) {
    |events| > 0 &&
    var e := events[|events| - 1];
    e.Painted? || (!e.Resized? && ToldPaint(events[..|events| - 1]))
  }

  predicate FlagTells(c: Client) {
    c.painted == ToldPaint(c.books.events)
  }

  lemma OneMoreTold(events: seq<Event>, e: Event)
    ensures ToldPaint(events + [e]) == (e.Painted? || (!e.Resized? && ToldPaint(events)))
  {
    assert (events + [e])[..|events|] == events;
  }

  lemma RectFlag(z: Codec, fmt: Format, c: Client, data: seq<byte>)
    requires c.Valid() && FlagTells(c)
    ensures FlagTells(ReadRect(z, fmt, c, data).client)
  {
    hide ReadHeader, ToldPaint;
    match ReadHeader(data)
    case Bad(_) =>
    case Got(hd, _) => OneMoreTold(c.books.events, Resized(hd.w, hd.h));
  }

  lemma {:induction false} RectsFlag(z: Codec, fmt: Format, c: Client, data: seq<byte>, count: nat, p: bool, r: bool)
    requires c.Valid() && FlagTells(c)
    ensures FlagTells(ReadRects(z, fmt, c, data, count, p, r).client)
    decreases count
  {
    hide ReadRect, FlagTells;
    if count > 0 {
      RectKeepsValid(z, fmt, c, data);
      RectFlag(z, fmt, c, data);
      match ReadRect(z, fmt, c, data)
      case RectFailed(_, _) =>
      case RectWent(next, rest, q, s) => RectsFlag(z, fmt, next, rest, count - 1, p || q, r || s);
    }
  }

  lemma MessageFlag(z: Codec, fmt: Format, c: Client, data: seq<byte>)
    requires c.Valid() && FlagTells(c)
    ensures FlagTells(ReadMessage(z, fmt, c, data).client)
  {
    hide ToldPaint, ReadRects, Owed, U16, U32;
    match Owed(data, 1)
    case Bad(_) =>
    case Got(kind, body) =>
      var o := ReadMessage(z, fmt, c, data);
      if kind[0] == FRAMEBUFFER_UPDATE {
        UpdateFlag(z, fmt, c, body);
      } else if |o.client.books.events| > |c.books.events| {
        OneMoreTold(c.books.events, o.client.books.events[|c.books.events|]);
      }
  }

  lemma UpdateFlag(z: Codec, fmt: Format, c: Client, body: seq<byte>)
    requires c.Valid() && FlagTells(c)
    ensures FlagTells(ReadUpdate(z, fmt, c, body).client)
  {
    hide ToldPaint, ReadRects, U16;
    match Owed(body, 1)
    case Bad(_) =>
    case Got(_, d1) =>
      match U16(d1)
      case Bad(_) =>
      case Got(count, d2) =>
        RectsFlag(z, fmt, Begun(c), d2, count, false, false);
        var read := ReadRects(z, fmt, Begun(c), d2, count, false, false).client;
        OneMoreTold(read.books.events, Painted(read.books.generation + 1));
  }

  lemma {:induction false} MessagesFlag(z: Codec, fmt: Format, c: Client, data: seq<byte>, n: nat)
    requires c.Valid() && FlagTells(c)
    ensures FlagTells(ReadMessages(z, fmt, c, data, n).client)
    decreases n
  {
    hide ReadMessage, FlagTells;
    if n > 0 {
      MessageKeepsValid(z, fmt, c, data);
      MessageFlag(z, fmt, c, data);
      match ReadMessage(z, fmt, c, data)
      case Failed(_, _) =>
      case Went(next, rest) => MessagesFlag(z, fmt, next, rest, n - 1);
    }
  }

  /** Whatever bytes arrive, and wherever the client gives up on them, the framebuffer counts as painted exactly
      when a paint has been announced since the last resize. */
  lemma PaintedIffTold(z: Codec, fmt: Format, width: u16, height: u16, continuous: bool, data: seq<byte>, n: nat)
    ensures var c := ReadMessages(z, fmt, Connected(width, height, continuous), data, n).client;
            c.painted <==> ToldPaint(c.books.events)
  {
    hide ReadMessages;
    MessagesFlag(z, fmt, Connected(width, height, continuous), data, n);
  }
}
