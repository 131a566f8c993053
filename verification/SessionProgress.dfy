/** Continuous mode never stalls, and how many requests are outstanding when an update is announced. */
module SessionProgress {
  import opened Sessions

  // ---------------------------------------------------------------- something is always coming

  predicate Asked(queue: seq<Command>) {
    exists i :: 0 <= i < |queue| && queue[i].Request?
  }

  /** The writer has a request in hand. */
  predicate Carrying(w: Writer) {
    w.Swapping? || w.Sizing? || w.WritingRequest?
  }

  /** An update is being read and its own request is still to come. */
  predicate WillAsk(r: Reader) {
    r.Rects? || r.StoringFull? || r.EmittingResized? || r.AskLoading? || r.AskCounting? || r.AskPushing?
  }

  predicate Coming(s: State) {
    Asked(s.shared.queue) || Carrying(s.writer) || s.net.wire > 0 || s.net.pending > 0 || s.net.transit > 0
        || WillAsk(s.reader)
  }

  /** In continuous mode, after the opening request, as long as the session lives. */
  predicate NoStall(s: State) {
    s.continuous && s.opener.Returned? && s.Connected() && !Failed(s) ==> Coming(s)
  }

  lemma AskedStays(q: seq<Command>, r: seq<Command>)
    requires q <= r
    ensures Asked(q) ==> Asked(r)
  {
    if Asked(q) {
      var i :| 0 <= i < |q| && q[i].Request?;
      assert r[i] == q[i];
    }
  }

  lemma AskedPush(q: seq<Command>, incremental: bool)
    ensures Asked(q + [Request(incremental)])
  {
    assert (q + [Request(incremental)])[|q|].Request?;
  }

  lemma AskedPop(q: seq<Command>)
    requires Asked(q)
    ensures q[0].Request? || Asked(q[1..])
  {
    var i :| 0 <= i < |q| && q[i].Request?;
    if i > 0 { assert q[1..][i - 1] == q[i]; }
  }

  lemma NoStallKept(s: State, t: Step)
    requires NoStall(s) && Stops(s) && Can(s, t)
    ensures NoStall(Do(s, t))
  {
    hide CallDo, ReaderDo, WriterDo, Asked;
    match t
    case ByReader(r) => ReaderNoStall(s, r);
    case ByWriter(w) => WriterNoStall(s, w);
    case ByCall(id, c) => AskedStays(s.shared.queue, CallDo(s, id, c).shared.queue);
    case Opens => AskedPush(s.shared.queue, true);
    case _ =>
  }

  lemma ReaderNoStall(s: State, t: ReaderStep)
    requires NoStall(s) && Stops(s) && ReaderCan(s, t)
    ensures NoStall(ReaderDo(s, t))
  {
    hide Asked;
    AskedStays(s.shared.queue, ReaderDo(s, t).shared.queue);
    AskedPush(s.shared.queue, true);
  }

  lemma WriterNoStall(s: State, t: WriterStep)
    requires NoStall(s) && Stops(s) && WriterCan(s, t)
    ensures NoStall(WriterDo(s, t))
  {
    hide Asked;
    if Asked(s.shared.queue) { AskedPop(s.shared.queue); }
  }

  /** On every run of a continuous session: from the moment the opening request is in, for as long as
      the session lives, a request is queued, being written, on the wire or pending, or an update is
      on its way or being read. */
  lemma ContinuousNeverStalls(size: Size, steps: seq<Step>)
    requires CanRun(Start(true, size), steps)
    ensures var s := After(Start(true, size), steps);
            s.opener.Returned? && s.Connected() && !Failed(s) ==> Coming(s) && Live(s)
  {
    hide CanRun, After, Coming;
    RunKeepsMoving(Start(true, size), steps);
    SameMode(Start(true, size), steps);
  }

  lemma {:induction false} RunKeepsMoving(s: State, steps: seq<Step>)
    requires NoStall(s) && Stops(s) && CanRun(s, steps)
    ensures NoStall(After(s, steps)) && Stops(After(s, steps))
    decreases |steps|
  {
    hide Can, Do, NoStall, Stops;
    if |steps| > 0 {
      NoStallKept(s, steps[0]);
      StopsKept(s, steps[0]);
      RunKeepsMoving(Do(s, steps[0]), steps[1..]);
    }
  }

  // ---------------------------------------------------------------- and it can always arrive

  /** How far the reader is from being ready for another update. */
  function ReaderRank(r: Reader): nat {
    match r
    case Idle => 0
    case EmittingPainted(_, _, _) => 1
    case MarkingPainted(_, _, _) => 2
    case StoringPainted(_, _, _) => 3
    case Finishing(_, _, _) => 4
    case AskPushing(_, _) => 5
    case AskCounting(_, _) => 6
    case AskLoading(_, _) => 7
    case Rects(_, left, _, _) => 8 + 3 * left
    case EmittingResized(_, left, _) => 9 + 3 * left
    case StoringFull(_, left, _) => 10 + 3 * left
    case _ => 0
  }

  function WriterRank(w: Writer): nat {
    match w
    case Swapping(_) => 3
    case Sizing(_, _, _) => 2
    case WritingRequest(_) => 1
    case WritingData(_) => 1
    case _ => 0
  }

  /** How far the network is from delivering an update. */
  function NetRank(s: State): nat {
    if s.net.transit > 0 then 0
    else if s.net.pending > 0 then 1
    else if s.net.wire > 0 then 2
    else 3 + 4 * |s.shared.queue| + WriterRank(s.writer)
  }

  /** The next step of a schedule in which the tasks run and the server answers. */
  function Helpful(s: State): Step {
    if s.reader.Rects? && s.reader.left > 0 then ByReader(Paint)
    else if !s.reader.Idle? then ByReader(Go)
    else if s.net.transit > 0 then ByReader(Begin(0))
    else if s.net.pending > 0 then ServerAnswers(s.net.pending)
    else if s.net.wire > 0 then ServerReads
    else ByWriter(Advance)
  }

  predicate Live(s: State) {
    NoStall(s) && Stops(s) && s.continuous && s.opener.Returned? && s.Connected() && !Failed(s)
  }

  lemma HelpfulHelps(s: State)
    requires Live(s)
    ensures Can(s, Helpful(s))
    ensures var n := Do(s, Helpful(s));
            && n.Connected() && !Failed(n) && n.opener.Returned? && n.continuous
            && (n.shared.updatesBegun == s.shared.updatesBegun + 1
                || (n.shared.updatesBegun == s.shared.updatesBegun
                    && (ReaderRank(n.reader) < ReaderRank(s.reader)
                        || (n.reader == s.reader && NetRank(n) < NetRank(s)))))
  {
    hide CallDo, Asked;
    if s.reader.Idle? && s.net.transit == 0 && s.net.pending == 0 && s.net.wire == 0 {
      assert s.writer.Waiting? ==> s.shared.queue != [] by {
        if Asked(s.shared.queue) { AskedPop(s.shared.queue); }
        AskedNonempty(s.shared.queue);
      }
    }
  }

  lemma AskedNonempty(q: seq<Command>)
    ensures Asked(q) ==> q != []
  {
  }

  /** From every live state of a continuous session some schedule in which nobody but the two tasks
      and the server moves, and the server folds whatever it holds, begins another update. */
  lemma {:induction false} AnotherUpdateCanArrive(s: State) returns (steps: seq<Step>)
    requires Live(s)
    ensures CanRun(s, steps) && After(s, steps).shared.updatesBegun == s.shared.updatesBegun + 1
    ensures forall i :: 0 <= i < |steps| ==> !steps[i].ByCall? && !steps[i].ServerVolunteers? && !steps[i].Close?
    decreases ReaderRank(s.reader), NetRank(s)
  {
    hide Can, Do, Stops, NoStall, ReaderRank, NetRank;
    var t := Helpful(s);
    HelpfulHelps(s);
    var n := Do(s, t);
    if n.shared.updatesBegun == s.shared.updatesBegun + 1 {
      steps := [t];
      assert [t][1..] == [];
      assert CanRun(n, []) && After(n, []) == n;
    } else {
      NoStallKept(s, t);
      StopsKept(s, t);
      var more := AnotherUpdateCanArrive(n);
      steps := [t] + more;
      assert steps[1..] == more;
    }
  }

  // ---------------------------------------------------------------- what is outstanding

  /** The reader's own request of this update, once it has got that far. */
  predicate OwnCount(r: Reader, own: int) {
    match r
    case AskLoading(_, _) => own == 0
    case AskCounting(_, _) => own == 0
    case AskPushing(_, _) => own == 1
    case Finishing(_, _, asked) => own == if asked then 1 else 0
    case StoringPainted(_, _, asked) => own == if asked then 1 else 0
    case MarkingPainted(_, _, asked) => own == if asked then 1 else 0
    case EmittingPainted(_, _, asked) => own == if asked then 1 else 0
    case _ => 0 <= own <= 1
  }

  /** A continuous session that did not ask was already dead when it looked. */
  predicate UnaskedIsDead(s: State) {
    match s.reader
    case Finishing(_, _, asked) => s.continuous && !asked ==> !s.Connected()
    case StoringPainted(_, _, asked) => s.continuous && !asked ==> !s.Connected()
    case MarkingPainted(_, _, asked) => s.continuous && !asked ==> !s.Connected()
    case EmittingPainted(_, _, asked) => s.continuous && !asked ==> !s.Connected()
    case _ => true
  }

  predicate Counts(s: State) {
    OwnCount(s.reader, s.shared.outstanding - s.past.foreign) && UnaskedIsDead(s)
  }

  lemma CountsKept(s: State, t: Step)
    requires Counts(s) && Can(s, t)
    ensures Counts(Do(s, t))
  {
    hide CallDo, ReaderDo, WriterDo, Counts;
    match t
    case ByReader(r) =>
      ReaderCounts(s, r);
      SameCounts(ReaderDo(s, r), Do(s, t));
    case ByWriter(w) =>
      WriterCounts(s, w);
      SameCounts(WriterDo(s, w), Do(s, t));
    case _ => SameCounts(s, Do(s, t));
  }

  lemma SameCounts(s: State, r: State)
    requires Counts(s) && r.reader == s.reader && r.continuous == s.continuous && (r.Connected() ==> s.Connected())
    requires r.shared.outstanding - r.past.foreign == s.shared.outstanding - s.past.foreign
    ensures Counts(r)
  {
  }

  lemma ReaderCounts(s: State, t: ReaderStep)
    requires Counts(s) && ReaderCan(s, t)
    ensures Counts(ReaderDo(s, t))
  {
    hide ReaderGo;
    if t.Go? { GoCounts(s); }
  }

  lemma GoCounts(s: State)
    requires Counts(s) && ReaderCan(s, Go)
    ensures Counts(ReaderGo(s))
  {
    match s.reader
    case StoringFull(_, _, _) =>
    case EmittingResized(_, _, _) =>
    case Rects(_, _, _, _) =>
    case AskLoading(_, _) =>
    case AskCounting(_, _) =>
    case AskPushing(_, _) =>
    case Finishing(_, _, _) =>
    case StoringPainted(_, _, _) =>
    case MarkingPainted(_, _, _) =>
    case EmittingPainted(_, _, _) =>
    case Failing =>
    case _ =>
  }

  lemma WriterCounts(s: State, t: WriterStep)
    requires Counts(s) && WriterCan(s, t)
    ensures Counts(WriterDo(s, t))
  {
  }

  lemma {:induction false} RunCounts(s: State, steps: seq<Step>)
    requires Counts(s) && CanRun(s, steps)
    ensures Counts(After(s, steps))
    decreases |steps|
  {
    hide Can, Do, Counts;
    if |steps| > 0 {
      CountsKept(s, steps[0]);
      RunCounts(Do(s, steps[0]), steps[1..]);
    }
  }

  /** The step that zeroes the counter: the last rect of an update is in. */
  predicate Zeroes(s: State, t: Step) {
    t == ByReader(Go) && s.reader.Rects?
  }

  /** Somebody other than the reader counts a request: `connect`, or a `refresh`. */
  predicate OthersCount(s: State, t: Step) {
    (t.Opens? && s.opener.Counting?) || (t.ByCall? && t.c.Forward? && t.id in s.calls && s.calls[t.id].CallCounting?)
  }

  /** A run in which the counter is not zeroed. */
  predicate NeverZeroes(s: State, steps: seq<Step>)
    requires CanRun(s, steps)
    decreases |steps|
  {
    |steps| == 0 || (!Zeroes(s, steps[0]) && NeverZeroes(Do(s, steps[0]), steps[1..]))
  }

  /** A run in which nobody but the reader counts a request. */
  predicate NobodyElseCounts(s: State, steps: seq<Step>)
    requires CanRun(s, steps)
    decreases |steps|
  {
    |steps| == 0 || (!OthersCount(s, steps[0]) && NobodyElseCounts(Do(s, steps[0]), steps[1..]))
  }

  lemma ForeignMoves(s: State, t: Step)
    requires Can(s, t)
    ensures Do(s, t).past.foreign
         == if Zeroes(s, t) then 0 else s.past.foreign + (if OthersCount(s, t) then 1 else 0)
  {
    hide ReaderDo, CallDo;
    match t
    case ByReader(r) => ReaderForeign(s, r);
    case ByCall(id, c) => CallForeign(s, id, c);
    case _ =>
  }

  lemma ReaderForeign(s: State, t: ReaderStep)
    requires ReaderCan(s, t)
    ensures ReaderDo(s, t).past.foreign == if t.Go? && s.reader.Rects? then 0 else s.past.foreign
  {
  }

  lemma CallForeign(s: State, id: nat, t: CallStep)
    requires CallCan(s, id, t)
    ensures CallDo(s, id, t).past.foreign
         == s.past.foreign + (if t.Forward? && s.calls[id].CallCounting? then 1 else 0)
  {
  }

  /** Since the counter was last zeroed: none counted by others exactly when nobody else counted. */
  lemma {:induction false} ForeignOnTheRun(s: State, steps: seq<Step>)
    requires CanRun(s, steps) && NeverZeroes(s, steps)
    ensures After(s, steps).past.foreign >= s.past.foreign
    ensures After(s, steps).past.foreign == s.past.foreign <==> NobodyElseCounts(s, steps)
    decreases |steps|
  {
    hide Can, Do, Zeroes, OthersCount;
    if |steps| > 0 {
      ForeignMoves(s, steps[0]);
      ForeignOnTheRun(Do(s, steps[0]), steps[1..]);
    }
  }

  /** Before any update is announced the counter has been zeroed: a run that reaches the stages after it
      splits at the last such step. */
  lemma {:induction false} LastZeroing(s: State, steps: seq<Step>) returns (before: seq<Step>, later: seq<Step>)
    requires CanRun(s, steps) && !PastRects(s.reader) && PastRects(After(s, steps).reader)
    ensures steps == before + [ByReader(Go)] + later
    ensures CanRun(s, before) && Can(After(s, before), ByReader(Go)) && Zeroes(After(s, before), ByReader(Go))
    ensures CanRun(Do(After(s, before), ByReader(Go)), later) && NeverZeroes(Do(After(s, before), ByReader(Go)), later)
    ensures After(Do(After(s, before), ByReader(Go)), later) == After(s, steps)
    decreases |steps|
  {
    hide Can, Do, Zeroes, PastRects;
    var n := Do(s, steps[0]);
    EntersByZeroing(s, steps[0]);
    if PastRects(n.reader) {
      later := steps[1..];
      if NeverZeroes(n, later) {
        before := [];
        assert steps == [] + [ByReader(Go)] + later;
      } else {
        var first, rest := ToNextZeroing(n, later);
        var m := After(n, first);
        assert CanRun(n, first);
        BeforeZeroing(m);
        var inner: seq<Step>;
        inner, later := LastZeroing(m, rest);
        RunsJoin(n, first, inner);
        before := [steps[0]] + (first + inner);
        assert before[1..] == first + inner;
        assert steps == before + [ByReader(Go)] + later;
      }
    } else {
      var inner: seq<Step>;
      inner, later := LastZeroing(n, steps[1..]);
      before := [steps[0]] + inner;
      assert before[1..] == inner;
      assert steps == before + [ByReader(Go)] + later;
    }
  }

  lemma EntersByZeroing(s: State, t: Step)
    requires Can(s, t) && !PastRects(s.reader)
    ensures PastRects(Do(s, t).reader) ==> Zeroes(s, t) && t == ByReader(Go)
  {
    hide CallDo, WriterDo;
  }

  lemma BeforeZeroing(s: State)
    requires Can(s, ByReader(Go)) && Zeroes(s, ByReader(Go))
    ensures !PastRects(s.reader)
  {
  }

  /** The part of a run up to its first zeroing step. */
  lemma {:induction false} ToNextZeroing(s: State, steps: seq<Step>) returns (first: seq<Step>, rest: seq<Step>)
    requires CanRun(s, steps) && !NeverZeroes(s, steps)
    ensures steps == first + rest && CanRun(s, first) && CanRun(After(s, first), rest)
    ensures After(After(s, first), rest) == After(s, steps)
    ensures |rest| > 0 && Can(After(s, first), ByReader(Go)) && Zeroes(After(s, first), ByReader(Go))
    decreases |steps|
  {
    hide Can, Do, Zeroes;
    if Zeroes(s, steps[0]) {
      first, rest := [], steps;
      ZeroesIsGo(s, steps[0]);
    } else {
      first, rest := ToNextZeroing(Do(s, steps[0]), steps[1..]);
      first := [steps[0]] + first;
      assert first[1..] + rest == steps[1..];
    }
  }

  lemma ZeroesIsGo(s: State, t: Step)
    requires Zeroes(s, t)
    ensures t == ByReader(Go)
  {
  }

  /** When a live continuous session announces an update, exactly one request is outstanding if and only
      if, since the step in which that update zeroed the counter, neither `connect` nor any `refresh` has
      counted one. Every announcement has such a step before it (`LastZeroing`). */
  lemma OneOutstandingIff(size: Size, before: seq<Step>, later: seq<Step>)
    requires CanRun(Start(true, size), before)
    requires var s := After(Start(true, size), before); Can(s, ByReader(Go)) && Zeroes(s, ByReader(Go))
    requires var z := Do(After(Start(true, size), before), ByReader(Go)); CanRun(z, later) && NeverZeroes(z, later)
    ensures var z := Do(After(Start(true, size), before), ByReader(Go)); var e := After(z, later);
            e.reader.EmittingPainted? && e.Connected() ==> (e.shared.outstanding == 1 <==> NobodyElseCounts(z, later))
  {
    hide Can, Do, Zeroes;
    var first := Start(true, size);
    var s := After(first, before);
    var z := Do(s, ByReader(Go));
    RunCounts(first, before);
    SameMode(first, before);
    CountsKept(s, ByReader(Go));
    ModeKept(s, ByReader(Go));
    ForeignMoves(s, ByReader(Go));
    RunCounts(z, later);
    SameMode(z, later);
    ForeignOnTheRun(z, later);
  }

  // ---------------------------------------------------------------- what callers can rely on

  /** `connect` has returned, and no `refresh` is still on its way to asking. */
  predicate Quiet(s: State) {
    s.opener.Returned? && forall id :: id in s.calls ==> !Asking(s.calls[id])
  }

  predicate Asking(c: Call) {
    c.Subscribed? || c.Floored? || c.CallCounting?
  }

  predicate NoNewRefresh(steps: seq<Step>) {
    forall i :: 0 <= i < |steps| ==> !(steps[i].ByCall? && steps[i].c.Subscribe?)
  }

  /** A session that is quiet, and has zeroed the counter since: nothing but the reader's own is counted. */
  predicate Settled(s: State, begun: nat) {
    Quiet(s) && (PastRects(s.reader) && s.reader.u > begun ==> s.past.foreign == 0)
  }

  lemma SettledKept(s: State, t: Step, begun: nat)
    requires Settled(s, begun) && Can(s, t) && !(t.ByCall? && t.c.Subscribe?)
    ensures Settled(Do(s, t), begun)
  {
    hide ReaderDo, CallDo, WriterDo;
    ForeignMoves(s, t);
    match t
    case ByReader(r) => ReaderSettled(s, r, begun);
    case ByCall(id, c) => CallSettled(s, id, c);
    case _ =>
  }

  lemma ReaderSettled(s: State, t: ReaderStep, begun: nat)
    requires ReaderCan(s, t)
    ensures var r := ReaderDo(s, t).reader;
            PastRects(r) ==> (t.Go? && s.reader.Rects?) || (PastRects(s.reader) && r.u == s.reader.u)
  {
  }

  lemma CallSettled(s: State, id: nat, t: CallStep)
    requires Quiet(s) && CallCan(s, id, t) && !t.Subscribe?
    ensures !Asking(CallDo(s, id, t).calls[id])
  {
    hide Push;
  }

  lemma {:induction false} RunSettled(s: State, steps: seq<Step>, begun: nat)
    requires Settled(s, begun) && CanRun(s, steps) && NoNewRefresh(steps)
    ensures Settled(After(s, steps), begun)
    decreases |steps|
  {
    hide Can, Do, Settled;
    if |steps| > 0 {
      assert !(steps[0].ByCall? && steps[0].c.Subscribe?);
      SettledKept(s, steps[0], begun);
      assert NoNewRefresh(steps[1..]);
      RunSettled(Do(s, steps[0]), steps[1..], begun);
    }
  }

  /** What the documentation promises of continuous mode, and from when: once `connect` has returned and
      while no `refresh` is asking, every update begun from then on is announced with exactly one request
      outstanding, for as long as the session lives. Calls already waiting for an answer do not matter. */
  lemma QuietSessionsHaveOne(size: Size, before: seq<Step>, later: seq<Step>)
    requires CanRun(Start(true, size), before) && Quiet(After(Start(true, size), before))
    requires CanRun(After(Start(true, size), before), later) && NoNewRefresh(later)
    ensures var s := After(Start(true, size), before); var e := After(s, later);
            e.reader.EmittingPainted? && e.reader.u > s.shared.updatesBegun && e.Connected() ==>
              e.shared.outstanding == 1
  {
    hide Can, Do, Quiet, CanRun, After;
    var first := Start(true, size);
    var s := After(first, before);
    RunCounts(first, before);
    SameMode(first, before);
    RunCounts(s, later);
    SameMode(s, later);
    ReaderIsCurrent(first, before);
    RunSettled(s, later, s.shared.updatesBegun);
  }

  /** The update being read is the latest begun. */
  lemma {:induction false} ReaderIsCurrent(s: State, steps: seq<Step>)
    requires CanRun(s, steps) && (InUpdate(s.reader) ==> s.reader.u == s.shared.updatesBegun)
    ensures InUpdate(After(s, steps).reader) ==> After(s, steps).reader.u == After(s, steps).shared.updatesBegun
    decreases |steps|
  {
    hide Can, Do;
    if |steps| > 0 {
      CurrentKept(s, steps[0]);
      ReaderIsCurrent(Do(s, steps[0]), steps[1..]);
    }
  }

  lemma CurrentKept(s: State, t: Step)
    requires Can(s, t) && (InUpdate(s.reader) ==> s.reader.u == s.shared.updatesBegun)
    ensures InUpdate(Do(s, t).reader) ==> Do(s, t).reader.u == Do(s, t).shared.updatesBegun
  {
    hide ReaderDo, CallDo, WriterDo;
    if t.ByReader? { ReaderCurrent(s, t.r); }
  }

  lemma ReaderCurrent(s: State, t: ReaderStep)
    requires ReaderCan(s, t) && (InUpdate(s.reader) ==> s.reader.u == s.shared.updatesBegun)
    ensures InUpdate(ReaderDo(s, t).reader) ==> ReaderDo(s, t).reader.u == ReaderDo(s, t).shared.updatesBegun
  {
  }

  lemma {:induction false} SameMode(s: State, steps: seq<Step>)
    requires CanRun(s, steps)
    ensures After(s, steps).continuous == s.continuous
    decreases |steps|
  {
    hide Can, Do;
    if |steps| > 0 {
      ModeKept(s, steps[0]);
      SameMode(Do(s, steps[0]), steps[1..]);
    }
  }

  lemma ModeKept(s: State, t: Step)
    requires Can(s, t)
    ensures Do(s, t).continuous == s.continuous
  {
    hide CallDo, ReaderDo, WriterDo;
  }

  /** That nobody else counted is not implied by `connect` having returned and no `refresh` ever
      having been called: an unsolicited update can zero the counter just before `connect` counts
      the opening request, and be announced just after `connect` returns. Two are outstanding then. */
  lemma OpeningRace(size: Size) returns (steps: seq<Step>)
    ensures CanRun(Start(true, size), steps)
    ensures var s := After(Start(true, size), steps);
            s.opener.Returned? && s.calls == map[] && s.Connected() && s.reader.EmittingPainted?
                && s.shared.outstanding == 2
  {
    var middle, early := UpToReturn(size);
    var late := UpToAnnouncement(middle);
    RunsJoin(Start(true, size), early, late);
    steps := early + late;
  }

  /** The update zeroes the counter, then `connect` counts and returns. */
  lemma UpToReturn(size: Size) returns (s: State, steps: seq<Step>)
    ensures CanRun(Start(true, size), steps) && s == After(Start(true, size), steps)
    ensures s.opener == Returned && s.calls == map[] && s.Connected() && s.writer == Waiting
    ensures s.reader == AskLoading(1, true) && s.shared.outstanding == 1
  {
    hide CanRun, After, CallDo, WriterDo;
    var s0 := Start(true, size);
    var s1 := Do(s0, ServerVolunteers);
    var s2 := Do(s1, ByReader(Begin(1)));
    var s3 := Do(s2, ByReader(Paint));
    var s4 := Do(s3, ByReader(Go));
    var s5 := Do(s4, Opens);
    var s6 := Do(s5, Opens);
    s := Do(s6, Opens);
    Nothing(s);
    steps := First(s6, Opens, []);
    steps := First(s5, Opens, steps);
    steps := First(s4, Opens, steps);
    steps := First(s3, ByReader(Go), steps);
    steps := First(s2, ByReader(Paint), steps);
    steps := First(s1, ByReader(Begin(1)), steps);
    steps := First(s0, ServerVolunteers, steps);
  }

  /** The reader asks for its own and announces. */
  lemma UpToAnnouncement(s: State) returns (steps: seq<Step>)
    requires s.opener == Returned && s.calls == map[] && s.Connected() && s.writer == Waiting
    requires s.reader == AskLoading(1, true) && s.shared.outstanding == 1
    ensures CanRun(s, steps)
    ensures var e := After(s, steps);
            e.opener == Returned && e.calls == map[] && e.Connected() && e.reader.EmittingPainted?
                && e.shared.outstanding == 2
  {
    hide CanRun, After, CallDo, WriterDo;
    var go := ByReader(Go);
    var s1 := Do(s, go);
    var s2 := Do(s1, go);
    var s3 := Do(s2, go);
    var s4 := Do(s3, go);
    var s5 := Do(s4, go);
    Nothing(Do(s5, go));
    steps := First(s5, go, []);
    steps := First(s4, go, steps);
    steps := First(s3, go, steps);
    steps := First(s2, go, steps);
    steps := First(s1, go, steps);
    steps := First(s, go, steps);
  }

  /** One step in front of a run. */
  lemma First(s: State, t: Step, more: seq<Step>) returns (steps: seq<Step>)
    requires Can(s, t) && CanRun(Do(s, t), more)
    ensures steps == [t] + more && CanRun(s, steps) && After(s, steps) == After(Do(s, t), more)
  {
    hide Can, Do;
    steps := [t] + more;
    assert steps[1..] == more;
  }

  lemma Nothing(s: State)
    ensures CanRun(s, []) && After(s, []) == s
  {
  }
}
