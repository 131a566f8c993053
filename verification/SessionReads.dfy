/** The two models of the read loop agree: whatever server message the read loop over bytes gets through,
    the reader of the step system has steps of its own that do the same to the session's counters, its
    flag, its size and its events. */
module SessionReads {
  import opened Bytes
  import opened PixelFormats
  import opened Reads
  import opened Zlib
  import opened Sessions
  import opened SessionProgress
  import opened Updates
  import C = ClientReads

  /** The same event, as the two models tell it. */
  predicate Matches(e: Event, f: C.Event) {
    match f
    case Resized(w, h) => e == Resized(Size(w, h))
    case Painted(generation) => e.Painted? && e.generation == generation
    case Bell => e == Other
    case CutText(_) => e == Other
  }

  predicate AllMatch(events: seq<Event>, told: seq<C.Event>) {
    |events| == |told| && forall i :: 0 <= i < |events| ==> Matches(events[i], told[i])
  }

  /** A step-system state whose counters, size and events are a client's. */
  predicate Shows(s: State, c: C.Client) {
    var b := c.books;
    && s.continuous == b.continuous && s.shared.updatesBegun == b.updatesBegun && s.shared.lastPainted == b.lastPainted
    && s.shared.generation == b.generation && s.shared.outstanding == b.outstanding && s.shared.needsFull == b.needsFull
    && s.shared.size == Size(c.fb.width, c.fb.height) && AllMatch(s.shared.events, b.events)
  }

  /** Both models begin alike. */
  lemma StartShows(continuous: bool, width: u16, height: u16)
    ensures Shows(Start(continuous, Size(width, height)), C.Connected(width, height, continuous))
  {
  }

  /** Nothing interferes with the reader: it is alone, and so is whoever takes its requests. */
  predicate Undisturbed(s: State) {
    s.Connected() && !s.writer.WriterStopped?
  }

  /** The rects still to come number `left`. */
  predicate Midway(s: State, left: nat, paints: bool, resizes: bool) {
    && s.reader.Rects? && s.reader.left == left && s.reader.painted == paints && s.reader.resized == resizes
    && s.reader.u == s.shared.updatesBegun && Undisturbed(s)
  }

  predicate OnlyReader(steps: seq<Step>) {
    forall i :: 0 <= i < |steps| ==> steps[i].ByReader?
  }

  lemma MatchMore(events: seq<Event>, told: seq<C.Event>, e: Event, f: C.Event)
    requires AllMatch(events, told) && Matches(e, f)
    ensures AllMatch(events + [e], told + [f])
  {
  }

  // ---------------------------------------------------------------- one rect

  /** A rect that is read either paints, and changes no book, or resizes. */
  lemma RectBooks(z: Codec, fmt: Format, c: C.Client, data: seq<byte>)
    requires c.Valid() && C.ReadRect(z, fmt, c, data).RectWent?
    ensures var o := C.ReadRect(z, fmt, c, data); var n := o.client;
      if o.resizes then !o.paints && n == C.Resize(c, n.fb.width, n.fb.height)
      else o.paints && n.books == c.books && n.fb.width == c.fb.width && n.fb.height == c.fb.height
  {
    hide C.ReadHeader;
  }

  /** A resize's steps: the framebuffer, the flag, the event. */
  lemma ResizeSteps(s: State, c: C.Client, left: nat, paints: bool, resizes: bool, width: u16, height: u16)
    returns (steps: seq<Step>)
    requires Midway(s, left + 1, paints, resizes) && Shows(s, c)
    ensures OnlyReader(steps) && CanRun(s, steps)
    ensures var e := After(s, steps);
      && Midway(e, left, paints, true) && Shows(e, C.Resize(c, width, height))
      && e.shared.queue == s.shared.queue && e.net == s.net
  {
    hide CanRun, After, CallDo, WriterDo;
    var size := Size(width, height);
    var stored := Do(s, ByReader(Resize(size)));
    var telling := Do(stored, ByReader(Go));
    MatchMore(s.shared.events, c.books.events, Resized(size), C.Event.Resized(width, height));
    Nothing(Do(telling, ByReader(Go)));
    steps := First(telling, ByReader(Go), []);
    steps := First(stored, ByReader(Go), steps);
    steps := First(s, ByReader(Resize(size)), steps);
  }

  /** The reader's steps for one rect. */
  lemma OneRectSteps(z: Codec, fmt: Format, s: State, c: C.Client, rect: seq<byte>, left: nat, paints: bool,
                     resizes: bool) returns (steps: seq<Step>)
    requires Midway(s, left + 1, paints, resizes) && Shows(s, c) && c.Valid()
    requires C.ReadRect(z, fmt, c, rect).RectWent?
    ensures OnlyReader(steps) && CanRun(s, steps)
    ensures var o := C.ReadRect(z, fmt, c, rect); var e := After(s, steps);
      && Midway(e, left, paints || o.paints, resizes || o.resizes) && Shows(e, o.client)
      && e.shared.queue == s.shared.queue && e.net == s.net
  {
    hide C.ReadRect, CanRun, After, CallDo, WriterDo;
    RectBooks(z, fmt, c, rect);
    var o := C.ReadRect(z, fmt, c, rect);
    if o.resizes {
      hide Shows, Midway;
      steps := ResizeSteps(s, c, left, paints, resizes, o.client.fb.width, o.client.fb.height);
    } else {
      Nothing(Do(s, ByReader(Paint)));
      steps := First(s, ByReader(Paint), []);
    }
  }

  /** All of an update's rects, from the `i`-th on. */
  lemma {:induction false} RectSteps(z: Codec, fmt: Format, s: State, rects: seq<seq<byte>>, clients: seq<C.Client>,
      paints: seq<bool>, resizes: seq<bool>, p: bool, r: bool) returns (steps: seq<Step>)
    requires Chain(z, fmt, rects, clients, paints, resizes)
    requires Midway(s, |rects|, p, r) && Shows(s, clients[0])
    ensures OnlyReader(steps) && CanRun(s, steps)
    ensures var e := After(s, steps);
      && Midway(e, 0, p || true in paints, r || true in resizes) && Shows(e, clients[|rects|])
      && e.shared.queue == s.shared.queue && e.net == s.net
    decreases |rects|
  {
    hide C.ReadRect, CanRun, After, CallDo, WriterDo, Can, Do, Chain, Shows, Midway;
    ChainShape(z, fmt, rects, clients, paints, resizes);
    if |rects| == 0 {
      Nothing(s);
      steps := [];
    } else {
      ChainTail(z, fmt, rects, clients, paints, resizes);
      var here := OneRectSteps(z, fmt, s, clients[0], rects[0], |rects| - 1, p, r);
      var more := RectSteps(z, fmt, After(s, here), rects[1..], clients[1..], paints[1..], resizes[1..],
                            p || paints[0], r || resizes[0]);
      RunsJoin(s, here, more);
      steps := here + more;
    }
  }

  // ---------------------------------------------------------------- the end of an update

  /** From the end of an update's rects, the reader's own steps lead back to idle with the books concluded
      and one more request queued exactly when the books say one was asked for. */
  lemma ReaderConcludes(s: State, c: C.Client, paints: bool, resizes: bool) returns (steps: seq<Step>)
    requires Midway(s, 0, paints, resizes) && Shows(s, c)
    ensures OnlyReader(steps) && CanRun(s, steps)
    ensures var e := After(s, steps); var d := C.Concluded(c, paints, resizes);
      && e.reader.Idle? && Shows(e, d) && Asks(s, e, c, d)
  {
    hide CanRun, After, CallDo, WriterDo;
    var zeroed := Do(s, ByReader(Go));
    if resizes || s.continuous {
      var counting := Do(zeroed, ByReader(Go));
      var pushing := Do(counting, ByReader(Go));
      var asked := Do(pushing, ByReader(Go));
      steps := Announce(asked, c);
      steps := First(pushing, ByReader(Go), steps);
      steps := First(counting, ByReader(Go), steps);
      steps := First(zeroed, ByReader(Go), steps);
    } else {
      steps := Announce(zeroed, c);
    }
    steps := First(s, ByReader(Go), steps);
  }

  /** As many incremental requests were queued as the books say were asked for: none or one. */
  predicate Asks(s: State, e: State, c: C.Client, d: C.Client) {
    || (d.books.asked == c.books.asked && e.shared.queue == s.shared.queue)
    || (d.books.asked == c.books.asked + 1 && e.shared.queue == s.shared.queue + [Request(true)])
  }

  /** The reader's last stage: nothing, or record the paint and say so. */
  lemma Announce(s: State, c: C.Client) returns (steps: seq<Step>)
    requires s.reader.Finishing? && AllMatch(s.shared.events, c.books.events)
    ensures OnlyReader(steps) && CanRun(s, steps)
    ensures var e := After(s, steps); var generation := s.shared.generation + (if s.reader.painted then 1 else 0);
      && e.reader.Idle? && e.continuous == s.continuous && e.shared.updatesBegun == s.shared.updatesBegun
      && e.shared.outstanding == s.shared.outstanding && e.shared.needsFull == s.shared.needsFull
      && e.shared.queue == s.shared.queue && e.shared.size == s.shared.size
      && e.shared.lastPainted == (if s.reader.painted then s.reader.u else s.shared.lastPainted)
      && e.shared.generation == generation
      && AllMatch(e.shared.events,
                  if s.reader.painted then c.books.events + [C.Event.Painted(generation)] else c.books.events)
  {
    hide CanRun, After, CallDo, WriterDo;
    var next := Do(s, ByReader(Go));
    if s.reader.painted {
      var marking := Do(next, ByReader(Go));
      var emitting := Do(marking, ByReader(Go));
      Nothing(Do(emitting, ByReader(Go)));
      steps := First(emitting, ByReader(Go), []);
      steps := First(marking, ByReader(Go), steps);
      steps := First(next, ByReader(Go), steps);
    } else {
      Nothing(next);
      steps := [];
    }
    steps := First(s, ByReader(Go), steps);
  }

  // ---------------------------------------------------------------- a whole message

  /** Left to itself the reader can follow any message the read loop over bytes gets through, to the same
      counters, flag, size and events, and to the same request in the queue. */
  lemma MessageFollowed(z: Codec, fmt: Format, s: State, c: C.Client, data: seq<byte>) returns (steps: seq<Step>)
    requires c.Valid() && C.ReadMessage(z, fmt, c, data).Went?
    requires s.reader.Idle? && s.net.transit > 0 && Undisturbed(s) && Shows(s, c)
    ensures OnlyReader(steps) && CanRun(s, steps)
    ensures var e := After(s, steps); var d := C.ReadMessage(z, fmt, c, data).client;
      e.reader.Idle? && Shows(e, d) && Asks(s, e, c, d)
  {
    var d := C.ReadMessage(z, fmt, c, data).client;
    if data[0] == C.FRAMEBUFFER_UPDATE {
      steps := UpdateFollowed(z, fmt, s, c, data);
    } else if data[0] == C.BELL || data[0] == C.SERVER_CUT_TEXT {
      hide CanRun, After, CallDo, WriterDo;
      NoticeIs(z, fmt, c, data);
      MatchMore(s.shared.events, c.books.events, Other, d.books.events[|c.books.events|]);
      Nothing(Do(s, ByReader(Notice)));
      steps := First(s, ByReader(Notice), []);
    } else {
      steps := [];
    }
  }

  lemma NoticeIs(z: Codec, fmt: Format, c: C.Client, data: seq<byte>)
    requires c.Valid() && C.ReadMessage(z, fmt, c, data).Went?
    requires data[0] == C.BELL || data[0] == C.SERVER_CUT_TEXT
    ensures var d := C.ReadMessage(z, fmt, c, data).client;
      && d.fb == c.fb && |d.books.events| == |c.books.events| + 1 && Matches(Other, d.books.events[|c.books.events|])
      && d.books == c.books.Tell(d.books.events[|c.books.events|])
  {
  }

  lemma UpdateFollowed(z: Codec, fmt: Format, s: State, c: C.Client, data: seq<byte>) returns (steps: seq<Step>)
    requires c.Valid() && |data| > 0 && data[0] == C.FRAMEBUFFER_UPDATE && C.ReadMessage(z, fmt, c, data).Went?
    requires s.reader.Idle? && s.net.transit > 0 && Undisturbed(s) && Shows(s, c)
    ensures OnlyReader(steps) && CanRun(s, steps)
    ensures var e := After(s, steps); var d := C.ReadMessage(z, fmt, c, data).client;
      e.reader.Idle? && Shows(e, d) && Asks(s, e, c, d)
  {
    hide CanRun, After, CallDo, WriterDo, Chain, C.ReadMessage, C.Concluded;
    var o := C.ReadMessage(z, fmt, c, data);
    var pad, rects, clients, paints, resizes := ReadUpdates(z, fmt, c, data, o.client, o.rest);
    ChainShape(z, fmt, rects, clients, paints, resizes);
    var begun := Do(s, ByReader(Begin(|rects|)));
    assert Midway(begun, |rects|, false, false) && Shows(begun, clients[0]);
    RectsAsk(z, fmt, rects, clients, paints, resizes);
    hide Do, Can, Shows, Midway;
    var reading := RectSteps(z, fmt, begun, rects, clients, paints, resizes, false, false);
    var read := After(begun, reading);
    var last := clients[|rects|];
    var concluding := ReaderConcludes(read, last, true in paints, true in resizes);
    RunsJoin(begun, reading, concluding);
    steps := First(s, ByReader(Begin(|rects|)), reading + concluding);
  }

  /** Reading rects asks for nothing. */
  lemma {:induction false} RectsAsk(z: Codec, fmt: Format, rects: seq<seq<byte>>, clients: seq<C.Client>,
      paints: seq<bool>, resizes: seq<bool>)
    requires Chain(z, fmt, rects, clients, paints, resizes)
    ensures clients[|rects|].books.asked == clients[0].books.asked
    decreases |rects|
  {
    hide C.ReadRect, Chain;
    ChainShape(z, fmt, rects, clients, paints, resizes);
    if |rects| > 0 {
      ChainTail(z, fmt, rects, clients, paints, resizes);
      RectBooks(z, fmt, clients[0], rects[0]);
      RectsAsk(z, fmt, rects[1..], clients[1..], paints[1..], resizes[1..]);
    }
  }
}
