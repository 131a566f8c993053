/** What a session asks for, says and tells, over every interleaving: commands reach the wire in the order
    they were queued, every call's own command is among them, the events tell each paint, each resize and
    the one death, and an update is over after exactly the rects it announced. */
module SessionStory {
  import opened Bytes
  import opened Sessions

  // ---------------------------------------------------------------- from the queue to the wire

  /** What the writer has taken from the queue and not yet written. */
  function InHand(w: Writer): seq<Command> {
    match w
    case Swapping(i) => [Request(i)]
    case Sizing(i, _, _) => [Request(i)]
    case WritingRequest(i) => [Request(i)]
    case WritingData(data) => [Write(data)]
    case _ => []
  }

  /** Nothing is lost, except at most the command whose write failed. */
  predicate Lost(w: Writer, lost: seq<Command>) {
    |lost| <= 1 && (lost != [] ==> w.WriteFailed? || w.WriterStopped?)
  }

  predicate Accounted(s: State, lost: seq<Command>) {
    Lost(s.writer, lost) && s.past.queued == s.past.wrote + (lost + InHand(s.writer) + s.shared.queue)
  }

  ghost predicate InOrder(s: State) {
    exists lost :: Accounted(s, lost)
  }

  /** A step queues at most one command, and only the writer takes any. */
  lemma QueuesOnce(s: State, t: Step)
    requires Can(s, t)
    ensures s.past.queued <= Do(s, t).past.queued && |Do(s, t).past.queued| <= |s.past.queued| + 1
    ensures t.ByWriter? ==> Do(s, t).past.queued == s.past.queued
    ensures !t.ByWriter? ==>
      var r := Do(s, t);
      && r.shared.queue == s.shared.queue + r.past.queued[|s.past.queued|..]
      && r.writer == s.writer && r.past.wrote == s.past.wrote
  {
    hide WriterDo, CallDo, ReaderDo;
    match t
    case ByReader(r) => ReaderQueuesOnce(s, r);
    case ByCall(id, c) => CallQueuesOnce(s, id, c);
    case _ =>
  }

  lemma ReaderQueuesOnce(s: State, t: ReaderStep)
    requires ReaderCan(s, t)
    ensures var r := ReaderDo(s, t);
      && s.past.queued <= r.past.queued && |r.past.queued| <= |s.past.queued| + 1
      && r.shared.queue == s.shared.queue + r.past.queued[|s.past.queued|..] && r.past.wrote == s.past.wrote
  {
  }

  lemma CallQueuesOnce(s: State, id: nat, t: CallStep)
    requires CallCan(s, id, t)
    ensures var r := CallDo(s, id, t);
      && s.past.queued <= r.past.queued && |r.past.queued| <= |s.past.queued| + 1
      && r.shared.queue == s.shared.queue + r.past.queued[|s.past.queued|..]
  {
  }

  lemma QueuedBehind<T>(wrote: seq<T>, held: seq<T>, queue: seq<T>, more: seq<T>)
    ensures (wrote + (held + queue)) + more == wrote + (held + (queue + more))
  {
  }

  lemma InOrderKept(s: State, t: Step)
    requires InOrder(s) && Can(s, t)
    ensures InOrder(Do(s, t))
  {
    var lost :| Accounted(s, lost);
    if t.ByWriter? {
      WriterInOrder(s, t.w, lost);
    } else {
      QueuesOnce(s, t);
      var r := Do(s, t);
      hide Do, Can, InHand, Lost;
      var more := r.past.queued[|s.past.queued|..];
      assert r.past.queued == s.past.queued + more;
      QueuedBehind(s.past.wrote, lost + InHand(s.writer), s.shared.queue, more);
      assert Accounted(r, lost);
    }
  }

  lemma WriterInOrder(s: State, t: WriterStep, lost: seq<Command>)
    requires Accounted(s, lost) && WriterCan(s, t)
    ensures InOrder(Tick(WriterDo(s, t)))
  {
    var r := Tick(WriterDo(s, t));
    var hand, queue, wrote := InHand(s.writer), s.shared.queue, s.past.wrote;
    WriterMoves(s, t);
    Shuffled(wrote, lost, hand, queue);
    hide WriterDo, InHand;
    if t.WriteFails? {
      assert Accounted(r, hand);
    } else if t.Advance? && s.writer.Waiting? {
      assert Accounted(r, lost);
    } else if s.writer.WritingRequest? || s.writer.WritingData? {
      assert Accounted(r, []);
    } else {
      assert Accounted(r, lost);
    }
  }

  /** What is written, lost, in hand and queued can be put together in every way it moves. */
  lemma Shuffled(wrote: seq<Command>, lost: seq<Command>, hand: seq<Command>, queue: seq<Command>)
    ensures lost == [] ==> wrote + (lost + hand + queue) == wrote + (hand + [] + queue)
    ensures lost == [] ==> wrote + (lost + hand + queue) == (wrote + hand) + ([] + [] + queue)
    ensures hand == [] && |queue| > 0 ==>
      wrote + (lost + hand + queue) == wrote + (lost + [queue[0]] + queue[1..])
  {
  }

  /** The writer takes from the queue's front, writes what it took, or fails with it in hand. */
  lemma WriterMoves(s: State, t: WriterStep)
    requires WriterCan(s, t)
    ensures var r := WriterDo(s, t); var hand := InHand(s.writer);
      && r.past.queued == s.past.queued
      && if t.WriteFails? then r.writer.WriteFailed? && InHand(r.writer) == [] && |hand| == 1 && SameQueue(s, r)
         else if t.Advance? && s.writer.Waiting? then
           && hand == [] && |s.shared.queue| > 0 && InHand(r.writer) == [s.shared.queue[0]]
           && r.shared.queue == s.shared.queue[1..] && r.past.wrote == s.past.wrote
         else if s.writer.WritingRequest? || s.writer.WritingData? then
           && InHand(r.writer) == [] && r.past.wrote == s.past.wrote + hand && r.shared.queue == s.shared.queue
         else
           && InHand(r.writer) == hand && SameQueue(s, r)
           && (s.writer.WriteFailed? || s.writer.WriterStopped? ==> r.writer.WriterStopped?)
  {
  }

  predicate SameQueue(s: State, r: State) {
    r.past.wrote == s.past.wrote && r.shared.queue == s.shared.queue
  }

  lemma {:induction false} RunInOrder(s: State, steps: seq<Step>)
    requires InOrder(s) && CanRun(s, steps)
    ensures InOrder(After(s, steps))
    decreases |steps|
  {
    hide Can, Do, InOrder;
    if |steps| > 0 {
      InOrderKept(s, steps[0]);
      RunInOrder(Do(s, steps[0]), steps[1..]);
    }
  }

  /** Commands are written out in the order they were queued, each once, and none is skipped: what has been
      written is a prefix of what was queued, and while no write has failed the rest is in the writer's hand
      and in the queue. */
  lemma WireIsTheQueue(continuous: bool, size: Size, steps: seq<Step>)
    requires CanRun(Start(continuous, size), steps)
    ensures var s := After(Start(continuous, size), steps);
      && s.past.wrote <= s.past.queued
      && (!s.writer.WriteFailed? && !s.writer.WriterStopped? ==>
            s.past.queued == s.past.wrote + InHand(s.writer) + s.shared.queue)
  {
    var first := Start(continuous, size);
    assert Accounted(first, []);
    hide CanRun, After;
    RunInOrder(first, steps);
    var s := After(first, steps);
    var lost :| Accounted(s, lost);
    if !s.writer.WriteFailed? && !s.writer.WriterStopped? {
      assert lost == [] && [] + InHand(s.writer) == InHand(s.writer);
      Regroup(s.past.wrote, InHand(s.writer), s.shared.queue);
    }
  }

  // ---------------------------------------------------------------- each call's own command

  /** What a call that was asked with `c` has come to: before its send it still carries what it was asked,
      and once it has been answered anything but a refusal its own command is queued. */
  predicate Heeded(s: State, call: Call, c: Command) {
    match call
    case Subscribed(i, _) => c == Request(i)
    case Floored(i, _, _, _) => c == Request(i)
    case CallCounting(i, _, _, _) => c == Request(i)
    case CallPushing(i, _, _, _) => c == Request(i)
    case Speaking(data) => c == Write(data)
    case Done(Closed) => true
    case Done(Sent) => c.Write? && c in s.past.queued
    case _ => c.Request? && c in s.past.queued
  }

  /** The step that begins a call, and what that call sends. */
  predicate Begins(t: Step, id: nat, c: Command) {
    t.ByCall? && t.id == id && ((t.c.Subscribe? && c == Request(t.c.incremental)) || (t.c.Say? && c == Write(t.c.data)))
  }

  lemma HeededKept(s: State, t: Step, id: nat, c: Command)
    requires Can(s, t) && id in s.calls && Heeded(s, s.calls[id], c)
    ensures id in Do(s, t).calls && Heeded(Do(s, t), Do(s, t).calls[id], c)
  {
    QueuesOnce(s, t);
    hide ReaderDo, WriterDo;
    var r := Do(s, t);
    assert c in s.past.queued ==> c in r.past.queued;
    if t.ByCall? && t.id == id { OwnHeeded(s, id, t.c, c); }
  }

  lemma OwnHeeded(s: State, id: nat, t: CallStep, c: Command)
    requires CallCan(s, id, t) && id in s.calls && Heeded(s, s.calls[id], c)
    ensures Heeded(CallDo(s, id, t), CallDo(s, id, t).calls[id], c)
  {
  }

  lemma {:induction false} RunHeeded(s: State, steps: seq<Step>, id: nat, c: Command)
    requires CanRun(s, steps) && id in s.calls && Heeded(s, s.calls[id], c)
    ensures id in After(s, steps).calls && Heeded(After(s, steps), After(s, steps).calls[id], c)
    decreases |steps|
  {
    hide Can, Do, Heeded;
    if |steps| > 0 {
      HeededKept(s, steps[0], id, c);
      RunHeeded(Do(s, steps[0]), steps[1..], id, c);
    }
  }

  lemma BeginsHeeded(s: State, t: Step, id: nat, c: Command)
    requires Can(s, t) && Begins(t, id, c)
    ensures id in Do(s, t).calls && Heeded(Do(s, t), Do(s, t).calls[id], c)
  {
  }

  /** A call that has been answered with anything but a refusal has queued what it was asked to send: its
      data, or a request as incremental as its caller wanted. */
  lemma {:induction false} CallIsHeeded(s: State, steps: seq<Step>, k: nat, id: nat, c: Command)
    requires CanRun(s, steps) && k < |steps| && Begins(steps[k], id, c)
    ensures var e := After(s, steps);
      && id in e.calls
      && (e.calls[id].Listening? || (e.calls[id].Done? && !e.calls[id].answer.Closed?) ==> c in e.past.queued)
    decreases k
  {
    hide Can, Do;
    if k == 0 {
      BeginsHeeded(s, steps[0], id, c);
      RunHeeded(Do(s, steps[0]), steps[1..], id, c);
    } else {
      assert steps[1..][k - 1] == steps[k];
      CallIsHeeded(Do(s, steps[0]), steps[1..], k - 1, id, c);
    }
  }

  /** Some caller asked for `c`. */
  ghost predicate AskedFor(steps: seq<Step>, c: Command) {
    exists k, id :: 0 <= k < |steps| && Begins(steps[k], id, c)
  }

  /** `c` is queued, or some call is going to send it. */
  ghost predicate Present(s: State, c: Command) {
    c in s.past.queued || exists id :: id in s.calls && Owes(s.calls[id], c)
  }

  lemma {:induction false} NothingUnasked(s: State, steps: seq<Step>, c: Command)
    requires CanRun(s, steps) && Present(After(s, steps), c) && c != Request(true)
    ensures Present(s, c) || AskedFor(steps, c)
    decreases |steps|
  {
    hide Can, Do, Present;
    if |steps| > 0 {
      var n := Do(s, steps[0]);
      NothingUnasked(n, steps[1..], c);
      if Present(n, c) {
        StepUnasked(s, steps[0], c);
        if id: nat :| Begins(steps[0], id, c) { assert AskedFor(steps, c); }
      } else {
        var k, id :| 0 <= k < |steps[1..]| && Begins(steps[1..][k], id, c);
        assert Begins(steps[k + 1], id, c);
      }
    }
  }

  /** No command but `connect`'s and the reader's incremental requests is queued without some caller having
      asked for it. */
  lemma CommandsAreCallers(continuous: bool, size: Size, steps: seq<Step>, c: Command)
    requires CanRun(Start(continuous, size), steps)
    ensures c in After(Start(continuous, size), steps).past.queued && c != Request(true) ==> AskedFor(steps, c)
  {
    hide CanRun, After, AskedFor;
    if c in After(Start(continuous, size), steps).past.queued && c != Request(true) {
      NothingUnasked(Start(continuous, size), steps, c);
    }
  }

  /** A call that is going to send `c`. */
  predicate Owes(call: Call, c: Command) {
    match call
    case Subscribed(i, _) => c == Request(i)
    case Floored(i, _, _, _) => c == Request(i)
    case CallCounting(i, _, _, _) => c == Request(i)
    case CallPushing(i, _, _, _) => c == Request(i)
    case Speaking(data) => c == Write(data)
    case _ => false
  }

  lemma StepUnasked(s: State, t: Step, c: Command)
    requires Can(s, t) && c != Request(true) && Present(Do(s, t), c)
    ensures Present(s, c) || exists id :: Begins(t, id, c)
  {
    hide WriterDo, Owes;
    match t
    case ByCall(id, call) =>
      CallUnasked(s, id, call, c);
      CallOwes(s, id, call, c);
      if c !in Do(s, t).past.queued {
        var k :| k in Do(s, t).calls && Owes(Do(s, t).calls[k], c);
        hide CallDo;
        if k != id { assert s.calls[k] == Do(s, t).calls[k]; } else { assert Begins(t, id, c) || Present(s, c); }
      }
    case _ =>
  }

  lemma CallUnasked(s: State, id: nat, t: CallStep, c: Command)
    requires CallCan(s, id, t)
    ensures c in CallDo(s, id, t).past.queued ==> c in s.past.queued || (id in s.calls && Owes(s.calls[id], c))
  {
  }

  lemma CallOwes(s: State, id: nat, t: CallStep, c: Command)
    requires CallCan(s, id, t)
    ensures Owes(CallDo(s, id, t).calls[id], c) ==>
      (id in s.calls && Owes(s.calls[id], c)) || Begins(ByCall(id, t), id, c)
  {
  }

  // ---------------------------------------------------------------- what subscribers are told

  function Generations(events: seq<Event>): seq<nat> {
    if |events| == 0 then []
    else
      var e := events[|events| - 1];
      Generations(events[..|events| - 1]) + (if e.Painted? then [e.generation] else [])
  }

  function ResizedTo(events: seq<Event>): seq<Size> {
    if |events| == 0 then []
    else
      var e := events[|events| - 1];
      ResizedTo(events[..|events| - 1]) + (if e.Resized? then [e.size] else [])
  }

  function Obituaries(events: seq<Event>): nat {
    if |events| == 0 then 0
    else Obituaries(events[..|events| - 1]) + (if events[|events| - 1].Disconnected? then 1 else 0)
  }

  lemma OneMoreTold(events: seq<Event>, e: Event)
    ensures Generations(events + [e]) == Generations(events) + (if e.Painted? then [e.generation] else [])
    ensures ResizedTo(events + [e]) == ResizedTo(events) + (if e.Resized? then [e.size] else [])
    ensures Obituaries(events + [e]) == Obituaries(events) + (if e.Disconnected? then 1 else 0)
  {
    assert (events + [e])[..|events|] == events;
  }

  /** The paint that has been counted and not yet announced. */
  predicate Counted(r: Reader) {
    r.StoringPainted? || r.MarkingPainted? || r.EmittingPainted?
  }

  /** The resize that has been made and not yet announced. */
  predicate Resizing(r: Reader) {
    r.StoringFull? || r.EmittingResized?
  }

  function UpTo(n: nat): seq<nat> {
    seq(n, i => i + 1)
  }

  predicate Told(s: State) {
    && |s.past.sizes| > 0 && s.shared.size == s.past.sizes[|s.past.sizes| - 1]
    && (Counted(s.reader) ==> s.reader.generation == s.shared.generation > 0)
    && TellsPaints(s.shared.events, if Counted(s.reader) then s.shared.generation - 1 else s.shared.generation)
    && TellsSizes(s.shared.events, s.past.sizes, Resizing(s.reader))
    && Obituaries(s.shared.events) == (if s.shared.death.Announced? || s.shared.death.Shut? then 1 else 0)
  }

  predicate TellsPaints(events: seq<Event>, n: nat) {
    Generations(events) == UpTo(n)
  }

  predicate TellsSizes(events: seq<Event>, sizes: seq<Size>, but: bool)
    requires |sizes| > 0
  {
    ResizedTo(events) + (if but then [sizes[|sizes| - 1]] else []) == sizes[1..]
  }

  lemma NothingTold(events: seq<Event>, e: Event, n: nat, sizes: seq<Size>, but: bool)
    requires |sizes| > 0 && !e.Painted? && !e.Resized? && TellsPaints(events, n) && TellsSizes(events, sizes, but)
    ensures TellsPaints(events + [e], n) && TellsSizes(events + [e], sizes, but)
    ensures Obituaries(events + [e]) == Obituaries(events) + (if e.Disconnected? then 1 else 0)
  {
    OneMoreTold(events, e);
  }

  lemma PaintTold(events: seq<Event>, n: nat, u: nat, sizes: seq<Size>, but: bool)
    requires |sizes| > 0 && n > 0 && TellsPaints(events, n - 1) && TellsSizes(events, sizes, but)
    ensures TellsPaints(events + [Painted(n, u)], n) && TellsSizes(events + [Painted(n, u)], sizes, but)
    ensures Obituaries(events + [Painted(n, u)]) == Obituaries(events)
  {
    OneMoreTold(events, Painted(n, u));
    UpToMore(n);
  }

  lemma ResizeTold(events: seq<Event>, n: nat, sizes: seq<Size>)
    requires |sizes| > 0 && TellsPaints(events, n) && TellsSizes(events, sizes, true)
    ensures var more := events + [Resized(sizes[|sizes| - 1])];
      TellsPaints(more, n) && TellsSizes(more, sizes, false) && Obituaries(more) == Obituaries(events)
  {
    var size := sizes[|sizes| - 1];
    OneMoreTold(events, Resized(size));
    assert ResizedTo(events) + [size] + [] == ResizedTo(events) + [size];
  }

  /** A resize that is not yet announced. */
  lemma ResizeOwed(events: seq<Event>, sizes: seq<Size>, size: Size)
    requires |sizes| > 0 && TellsSizes(events, sizes, false)
    ensures TellsSizes(events, sizes + [size], true)
  {
    assert (sizes + [size])[1..] == sizes[1..] + [size] && ResizedTo(events) + [] == ResizedTo(events);
  }

  lemma ToldKept(s: State, t: Step)
    requires Told(s) && Can(s, t)
    ensures Told(Do(s, t))
  {
    hide WriterDo, CallDo, ReaderDo, Told;
    match t
    case ByReader(r) => ReaderTold(s, r);
    case ByWriter(w) =>
      WriterAnnouncesNothing(s, w);
      SameTold(s, Do(s, t));
    case Announces => AnnouncesTold(s);
    case _ => SameTold(s, Do(s, t));
  }

  lemma SameTold(s: State, r: State)
    requires Told(s) && r.reader == s.reader && r.past.sizes == s.past.sizes && r.shared.size == s.shared.size
    requires r.shared.events == s.shared.events && r.shared.generation == s.shared.generation
    requires r.shared.death.Announced? || r.shared.death.Shut? <==> s.shared.death.Announced? || s.shared.death.Shut?
    ensures Told(r)
  {
    hide TellsPaints, TellsSizes, Obituaries;
  }

  lemma AnnouncesTold(s: State)
    requires Told(s) && Can(s, Announces)
    ensures Told(Do(s, Announces))
  {
    hide TellsPaints, TellsSizes, Obituaries;
    NothingTold(s.shared.events, Disconnected,
                if Counted(s.reader) then s.shared.generation - 1 else s.shared.generation, s.past.sizes,
                Resizing(s.reader));
  }

  lemma WriterAnnouncesNothing(s: State, t: WriterStep)
    requires WriterCan(s, t)
    ensures var d := WriterDo(s, t).shared.death;
      d.Announced? || d.Shut? <==> s.shared.death.Announced? || s.shared.death.Shut?
  {
  }

  lemma ReaderTold(s: State, t: ReaderStep)
    requires Told(s) && ReaderCan(s, t)
    ensures Told(Tick(ReaderDo(s, t)))
  {
    hide TellsPaints, TellsSizes, Obituaries;
    if t.Go? {
      GoTold(s);
    } else if t.Notice? {
      NothingTold(s.shared.events, Other, s.shared.generation, s.past.sizes, false);
    } else if t.Resize? {
      ResizeOwed(s.shared.events, s.past.sizes, t.size);
    } else {
      hide ReaderGo;
    }
  }

  lemma GoTold(s: State)
    requires Told(s) && ReaderCan(s, Go)
    ensures Told(Tick(ReaderGo(s)))
  {
    hide TellsPaints, TellsSizes, Obituaries;
    match s.reader
    case EmittingResized(_, _, _) => ResizeTold(s.shared.events, s.shared.generation, s.past.sizes);
    case EmittingPainted(u, generation, _) => PaintTold(s.shared.events, generation, u, s.past.sizes, false);
    case _ =>
  }

  lemma UpToMore(n: nat)
    requires n > 0
    ensures UpTo(n - 1) + [n] == UpTo(n)
  {
  }

  lemma {:induction false} RunTold(s: State, steps: seq<Step>)
    requires Told(s) && CanRun(s, steps)
    ensures Told(After(s, steps))
    decreases |steps|
  {
    hide Can, Do, Told;
    if |steps| > 0 {
      ToldKept(s, steps[0]);
      RunTold(Do(s, steps[0]), steps[1..]);
    }
  }

  /** Between updates the events are the whole story: the paints announced are numbered from one without a
      gap up to the generation counter, the sizes announced are those the framebuffer has had, in order,
      and a death is announced once, never before it happened. */
  lemma EventsAreTheStory(continuous: bool, size: Size, steps: seq<Step>)
    requires CanRun(Start(continuous, size), steps)
    ensures var s := After(Start(continuous, size), steps);
      && (s.reader.Idle? ==>
            && Generations(s.shared.events) == UpTo(s.shared.generation)
            && [size] + ResizedTo(s.shared.events) == s.past.sizes
            && s.shared.size == s.past.sizes[|s.past.sizes| - 1])
      && Obituaries(s.shared.events) <= 1
      && (Obituaries(s.shared.events) == 1 ==> !s.Connected())
      && (s.shared.death.Shut? ==> Obituaries(s.shared.events) == 1)
  {
    hide CanRun, After;
    var first := Start(continuous, size);
    assert [size][1..] == [] && UpTo(0) == [];
    RunTold(first, steps);
    FirstSize(first, steps);
    var s := After(first, steps);
    assert s.past.sizes == [s.past.sizes[0]] + s.past.sizes[1..];
  }

  lemma {:induction false} FirstSize(s: State, steps: seq<Step>)
    requires CanRun(s, steps) && |s.past.sizes| > 0
    ensures s.past.sizes <= After(s, steps).past.sizes
    decreases |steps|
  {
    hide Can, Do;
    if |steps| > 0 {
      SizesGrow(s, steps[0]);
      FirstSize(Do(s, steps[0]), steps[1..]);
    }
  }

  lemma SizesGrow(s: State, t: Step)
    requires Can(s, t)
    ensures s.past.sizes <= Do(s, t).past.sizes
  {
    hide WriterDo, CallDo;
  }

  // ---------------------------------------------------------------- an update's rects

  predicate IsPaint(t: Step) { t == ByReader(Paint) }
  predicate IsResize(t: Step) { t.ByReader? && t.r.Resize? }

  /** How many rects the steps take in. */
  function RectsIn(steps: seq<Step>): nat {
    if |steps| == 0 then 0 else (if IsPaint(steps[0]) || IsResize(steps[0]) then 1 else 0) + RectsIn(steps[1..])
  }

  predicate AnyPaint(steps: seq<Step>) { exists i :: 0 <= i < |steps| && IsPaint(steps[i]) }
  predicate AnyResize(steps: seq<Step>) { exists i :: 0 <= i < |steps| && IsResize(steps[i]) }

  /** The reader is among the rects of update `u`. */
  predicate Among(r: Reader, u: nat) {
    (r.Rects? || r.StoringFull? || r.EmittingResized?) && r.u == u
  }

  predicate PaintedYet(r: Reader) {
    (r.Rects? || r.StoringFull? || r.EmittingResized?) && r.painted
  }

  predicate ResizedYet(r: Reader) {
    Resizing(r) || (r.Rects? && r.resized)
  }

  lemma OneRect(s: State, t: Step, u: nat)
    requires Can(s, t) && Among(s.reader, u) && u == s.shared.updatesBegun && Among(Do(s, t).reader, u)
    ensures Do(s, t).shared.updatesBegun == u
    ensures s.reader.left == Do(s, t).reader.left + RectsIn([t])
    ensures Do(s, t).shared.version == s.shared.version + RectsIn([t])
    ensures PaintedYet(Do(s, t).reader) <==> PaintedYet(s.reader) || IsPaint(t)
    ensures ResizedYet(Do(s, t).reader) <==> ResizedYet(s.reader) || IsResize(t)
  {
    assert [t][1..] == [] && RectsIn([]) == 0;
    hide CallDo, WriterDo, RectsIn;
  }

  /** The reader only goes from one update's rects to the next by way of the stages after them. */
  lemma LeavesForGood(s: State, t: Step, u: nat)
    requires Can(s, t) && !Among(s.reader, u) && s.shared.updatesBegun >= u
    ensures !Among(Do(s, t).reader, u) && Do(s, t).shared.updatesBegun >= u
  {
    hide CallDo, WriterDo;
  }

  lemma {:induction false} StaysAway(s: State, steps: seq<Step>, u: nat)
    requires CanRun(s, steps) && !Among(s.reader, u) && s.shared.updatesBegun >= u
    ensures !Among(After(s, steps).reader, u)
    decreases |steps|
  {
    hide Can, Do, Among;
    if |steps| > 0 {
      LeavesForGood(s, steps[0], u);
      StaysAway(Do(s, steps[0]), steps[1..], u);
    }
  }

  lemma {:induction false} RectsSoFar(s: State, steps: seq<Step>, u: nat)
    requires CanRun(s, steps) && Among(s.reader, u) && u == s.shared.updatesBegun && Among(After(s, steps).reader, u)
    ensures var e := After(s, steps);
      && s.reader.left == e.reader.left + RectsIn(steps) && e.shared.version == s.shared.version + RectsIn(steps)
      && (PaintedYet(e.reader) <==> PaintedYet(s.reader) || AnyPaint(steps))
      && (ResizedYet(e.reader) <==> ResizedYet(s.reader) || AnyResize(steps))
    decreases |steps|
  {
    hide Can, Do, PaintedYet, ResizedYet, IsPaint, IsResize;
    if |steps| > 0 {
      var n := Do(s, steps[0]);
      if !Among(n.reader, u) {
        BegunGrows(s, steps[0]);
        StaysAway(n, steps[1..], u);
      }
      OneRect(s, steps[0], u);
      RectsSoFar(n, steps[1..], u);
      AnyCons(steps);
      assert [steps[0]][1..] == [] && RectsIn([]) == 0;
    }
  }

  lemma BegunGrows(s: State, t: Step)
    requires Can(s, t)
    ensures Do(s, t).shared.updatesBegun >= s.shared.updatesBegun
  {
    hide CallDo, WriterDo;
  }

  lemma AnyCons(steps: seq<Step>)
    requires |steps| > 0
    ensures AnyPaint(steps) <==> IsPaint(steps[0]) || AnyPaint(steps[1..])
    ensures AnyResize(steps) <==> IsResize(steps[0]) || AnyResize(steps[1..])
  {
    var tail := steps[1..];
    assert forall i :: 0 <= i < |tail| ==> tail[i] == steps[i + 1];
    assert forall i :: 1 <= i < |steps| ==> steps[i] == tail[i - 1];
  }

  /** From the first byte of an update of `n` rects to the step that ends its rects, whatever else runs in
      between, exactly `n` rects are taken in, each one write to the framebuffer; the update counts as
      painting, and as resizing, exactly when one of them did; and what is then on record as applied, and as
      owing its announcement, is the framebuffer with all `n` in it. */
  lemma UpdateTakesItsRects(s: State, n: nat, steps: seq<Step>)
    requires Can(s, ByReader(Begin(n))) && CanRun(Do(s, ByReader(Begin(n))), steps)
    requires var e := After(Do(s, ByReader(Begin(n))), steps);
      e.reader.Rects? && e.reader.u == s.shared.updatesBegun + 1 && e.reader.left == 0
    ensures var e := After(Do(s, ByReader(Begin(n))), steps);
      && RectsIn(steps) == n && (e.reader.painted <==> AnyPaint(steps)) && (e.reader.resized <==> AnyResize(steps))
      && e.shared.version == s.shared.version + n
      && Can(e, ByReader(Go))
      && var z := Do(e, ByReader(Go)).past; var u := s.shared.updatesBegun + 1;
         && u in z.applied && z.applied[u] == s.shared.version + n && (AnyPaint(steps) ==> u in z.owed)
  {
    hide CanRun, After;
    RectsSoFar(Do(s, ByReader(Begin(n))), steps, s.shared.updatesBegun + 1);
  }

  // ---------------------------------------------------------------- endings

  /** A task that has failed is about to say so, or has stopped in a session that is dead. */
  predicate ReaderGone(s: State) {
    s.reader.Failing? || (s.reader.Stopped? && !s.Connected())
  }

  predicate WriterGone(s: State) {
    s.writer.WriteFailed? || (s.writer.WriterStopped? && !s.Connected())
  }

  lemma GoneForGood(s: State, t: Step)
    requires Can(s, t)
    ensures !s.Connected() ==> !Do(s, t).Connected()
    ensures ReaderGone(s) || t == ByReader(Fail) ==> ReaderGone(Do(s, t))
    ensures WriterGone(s) || t == ByWriter(WriteFails) ==> WriterGone(Do(s, t))
    ensures t == Close ==> !Do(s, t).Connected()
  {
    hide CallDo, ReaderDo, WriterDo;
    match t
    case ByReader(r) => ReaderGoes(s, r);
    case ByWriter(w) => WriterGoes(s, w);
    case _ =>
  }

  lemma ReaderGoes(s: State, t: ReaderStep)
    requires ReaderCan(s, t)
    ensures !s.Connected() ==> !ReaderDo(s, t).Connected()
    ensures ReaderGone(s) || t.Fail? ==> ReaderGone(ReaderDo(s, t))
  {
  }

  lemma WriterGoes(s: State, t: WriterStep)
    requires WriterCan(s, t)
    ensures !s.Connected() ==> !WriterDo(s, t).Connected()
    ensures WriterGone(s) || t.WriteFails? ==> WriterGone(WriterDo(s, t))
  {
  }

  /** Nothing comes back: once the session has been closed it is dead, and once a read or a write has failed
      its task does nothing more than end the session. */
  lemma {:induction false} EndingsAreFinal(s: State, steps: seq<Step>)
    requires CanRun(s, steps)
    ensures var e := After(s, steps);
      && (!s.Connected() || Close in steps ==> !e.Connected())
      && (ReaderGone(s) || ByReader(Fail) in steps ==> ReaderGone(e))
      && (WriterGone(s) || ByWriter(WriteFails) in steps ==> WriterGone(e))
    decreases |steps|
  {
    hide Can, Do, ReaderGone, WriterGone;
    if |steps| > 0 {
      GoneForGood(s, steps[0]);
      EndingsAreFinal(Do(s, steps[0]), steps[1..]);
      assert steps == [steps[0]] + steps[1..];
    }
  }
}
