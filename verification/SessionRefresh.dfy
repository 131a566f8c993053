/** `refresh` is fresh and loses no wake-up, in every interleaving. */
module SessionRefresh {
  import opened Sessions

  // ---------------------------------------------------------------- what the shared state promises

  /** The update is announced to nobody yet but its reader is on the way to doing so. */
  predicate Announcing(r: Reader, u: nat) {
    PastRects(r) && r.u == u
  }

  /** Update numbers count first bytes, in order; only applied updates are ever reported as painted. */
  predicate Chronicle(s: State) {
    && |s.past.begunAt| == s.shared.updatesBegun
    && (forall i :: 0 <= i < |s.past.begunAt| ==> s.past.begunAt[i] < s.past.now)
    && s.shared.lastPainted <= s.shared.updatesBegun
        && (s.shared.lastPainted > 0 ==> s.shared.lastPainted in s.past.applied)
    && (forall u :: u in s.past.applied ==> 0 < u <= s.shared.updatesBegun && s.past.applied[u] <= s.shared.version)
    && (InUpdate(s.reader) ==>
          s.reader.u == s.shared.updatesBegun > 0 && (PastRects(s.reader) <==> s.reader.u in s.past.applied))
    && (s.reader.MarkingPainted? || s.reader.EmittingPainted? ==> s.shared.lastPainted == s.reader.u)
  }

  predicate Told(events: seq<Event>, u: nat) {
    exists i :: 0 <= i < |events| && events[i].Painted? && events[i].update == u
  }

  predicate ToldDead(events: seq<Event>) {
    exists i :: 0 <= i < |events| && events[i].Disconnected?
  }

  /** The events say nothing early, and leave nothing out. */
  predicate Bulletin(s: State) {
    && (forall i :: 0 <= i < |s.shared.events| && s.shared.events[i].Painted? ==>
          s.shared.events[i].update <= s.shared.lastPainted)
    && (forall u :: u in s.past.owed ==> Told(s.shared.events, u) || (Announcing(s.reader, u) && Paints(s.reader)))
    && (ToldDead(s.shared.events) <==> s.shared.death.Announced? || s.shared.death.Shut?)
  }

  /** Past its rects, the reader is going to announce a paint. */
  predicate Paints(r: Reader) {
    match r
    case AskLoading(_, painted) => painted
    case AskCounting(_, painted) => painted
    case AskPushing(_, painted) => painted
    case Finishing(_, painted, _) => painted
    case StoringPainted(_, _, _) => true
    case MarkingPainted(_, _, _) => true
    case EmittingPainted(_, _, _) => true
    case _ => false
  }

  // ---------------------------------------------------------------- what every call relies on

  /** The floor separates the updates begun before it was read from those begun after. */
  predicate Floor(s: State, floor: nat, at: nat) {
    && floor <= |s.past.begunAt| && at < s.past.now
    && (forall i :: 0 <= i < floor ==> s.past.begunAt[i] < at)
    && (forall i :: floor <= i < |s.past.begunAt| ==> at < s.past.begunAt[i])
  }

  /** Nothing read so far should have ended the wait. */
  predicate Unanswered(s: State, pos: nat, floor: nat) {
    && pos <= |s.shared.events|
    && (forall i :: 0 <= i < pos && s.shared.events[i].Painted? ==> s.shared.events[i].update <= floor)
  }

  predicate NoObituary(s: State, pos: nat) {
    pos <= |s.shared.events| && forall i :: 0 <= i < pos ==> !s.shared.events[i].Disconnected?
  }

  /** An update begun after the floor was read, all of whose rects are in. */
  predicate Answers(s: State, seen: nat, floor: nat, at: nat) {
    floor < seen <= |s.past.begunAt| && at < s.past.begunAt[seen - 1] && seen in s.past.applied
  }

  predicate CallIsSound(s: State, c: Call) {
    match c
    case Subscribed(_, pos) => pos <= |s.shared.events|
    case Floored(_, pos, floor, at) => Floor(s, floor, at) && Unanswered(s, pos, floor)
    case CallCounting(_, pos, floor, at) => Floor(s, floor, at) && Unanswered(s, pos, floor) && NoObituary(s, pos)
    case CallPushing(_, pos, floor, at) => Floor(s, floor, at) && Unanswered(s, pos, floor) && NoObituary(s, pos)
    case Listening(pos, floor, at) => Floor(s, floor, at) && Unanswered(s, pos, floor) && NoObituary(s, pos)
    case Checking(pos, floor, at) =>
      && Floor(s, floor, at) && pos > 0 && Unanswered(s, pos - 1, floor) && NoObituary(s, pos)
      && s.shared.events[pos - 1].Painted?
    case Cloning(seen, floor, at) => Answers(s, seen, floor, at)
    case Done(Fresh(seen, floor, at, version)) => Answers(s, seen, floor, at) && s.past.applied[seen] <= version
    case _ => true
  }

  predicate CallsAreSound(s: State) {
    forall id :: id in s.calls ==> CallIsSound(s, s.calls[id])
  }

  predicate Sound(s: State) {
    Chronicle(s) && Bulletin(s) && CallsAreSound(s)
  }

  // ---------------------------------------------------------------- the past only grows

  predicate Later(s: State, r: State) {
    && s.past.now <= r.past.now && s.past.begunAt <= r.past.begunAt && s.shared.events <= r.shared.events
    && (forall i :: |s.past.begunAt| <= i < |r.past.begunAt| ==> s.past.now <= r.past.begunAt[i])
    && (forall u :: u in s.past.applied ==> u in r.past.applied && r.past.applied[u] == s.past.applied[u])
  }

  lemma CallStaysSound(s: State, r: State, c: Call)
    requires Later(s, r) && CallIsSound(s, c)
    ensures CallIsSound(r, c)
  {
    match c
    case Done(a) => if a.Fresh? { assert s.past.begunAt[a.seen - 1] == r.past.begunAt[a.seen - 1]; }
    case Cloning(seen, _, _) => assert s.past.begunAt[seen - 1] == r.past.begunAt[seen - 1];
    case Subscribed(_, _) =>
    case Speaking(_) =>
    case Floored(_, _, floor, at) => FloorStays(s, r, floor, at);
    case CallCounting(_, _, floor, at) => FloorStays(s, r, floor, at);
    case CallPushing(_, _, floor, at) => FloorStays(s, r, floor, at);
    case Listening(_, floor, at) => FloorStays(s, r, floor, at);
    case Checking(_, floor, at) => FloorStays(s, r, floor, at);
  }

  lemma FloorStays(s: State, r: State, floor: nat, at: nat)
    requires Later(s, r) && Floor(s, floor, at)
    ensures Floor(r, floor, at)
  {
    forall i | 0 <= i < floor ensures r.past.begunAt[i] < at { assert r.past.begunAt[i] == s.past.begunAt[i]; }
    forall i | floor <= i < |r.past.begunAt| ensures at < r.past.begunAt[i] {
      if i < |s.past.begunAt| { assert r.past.begunAt[i] == s.past.begunAt[i]; }
    }
  }

  lemma CallsStaySound(s: State, r: State)
    requires Later(s, r) && CallsAreSound(s) && r.calls == s.calls
    ensures CallsAreSound(r)
  {
    hide Later, CallIsSound;
    forall id | id in r.calls ensures CallIsSound(r, r.calls[id]) { CallStaysSound(s, r, r.calls[id]); }
  }

  lemma ToldStays(e: seq<Event>, f: seq<Event>, u: nat)
    requires e <= f
    ensures Told(e, u) ==> Told(f, u)
  {
    if Told(e, u) {
      var i :| 0 <= i < |e| && e[i].Painted? && e[i].update == u;
      assert f[i] == e[i];
    }
  }

  lemma ToldDeadAppend(e: seq<Event>, x: Event)
    ensures ToldDead(e + [x]) <==> ToldDead(e) || x.Disconnected?
  {
    if ToldDead(e) {
      var i :| 0 <= i < |e| && e[i].Disconnected?;
      assert (e + [x])[i] == e[i];
    }
    if x.Disconnected? { assert (e + [x])[|e|].Disconnected?; }
    if ToldDead(e + [x]) {
      var i :| 0 <= i < |e + [x]| && (e + [x])[i].Disconnected?;
      if i < |e| { assert e[i].Disconnected?; }
    }
  }

  // ---------------------------------------------------------------- the shared promises are kept

  lemma ReaderChronicle(s: State, t: ReaderStep)
    requires Chronicle(s) && ReaderCan(s, t)
    ensures Later(s, ReaderDo(s, t)) && Chronicle(Tick(ReaderDo(s, t)))
  {
    hide ReaderGo;
    if t.Go? { GoChronicle(s); }
  }

  lemma GoChronicle(s: State)
    requires Chronicle(s) && ReaderCan(s, Go)
    ensures Later(s, ReaderGo(s)) && Chronicle(Tick(ReaderGo(s)))
  {
    match s.reader
    case Rects(_, _, _, _) => RectsChronicle(s);
    case StoringPainted(_, _, _) =>
    case _ => NextStageChronicle(s);
  }

  /** The reader's other stages leave updates and rects alone. */
  lemma NextStageChronicle(s: State)
    requires Chronicle(s) && ReaderCan(s, Go) && !s.reader.Rects? && !s.reader.StoringPainted?
    ensures Later(s, ReaderGo(s)) && Chronicle(Tick(ReaderGo(s)))
  {
    var r := ReaderGo(s);
    assert r.past.begunAt == s.past.begunAt && r.past.applied == s.past.applied;
    assert r.shared.version == s.shared.version && r.shared.lastPainted == s.shared.lastPainted;
  }

  /** The last rect is in. */
  lemma RectsChronicle(s: State)
    requires Chronicle(s) && s.reader.Rects? && s.reader.left == 0
    ensures Later(s, ReaderGo(s)) && Chronicle(Tick(ReaderGo(s)))
  {
  }

  /** One more event: what it may be, and what it changes about who has been told. */
  lemma OneMoreEvent(s: State, r: State, e: Event)
    requires Bulletin(s) && r.shared.events == s.shared.events + [e] && s.shared.lastPainted <= r.shared.lastPainted
    requires e.Painted? ==> e.update <= r.shared.lastPainted
    requires ToldDead(s.shared.events) || e.Disconnected? <==> r.shared.death.Announced? || r.shared.death.Shut?
    requires forall u :: u in r.past.owed ==> u in s.past.owed
    requires forall u :: u in r.past.owed && Announcing(s.reader, u) && Paints(s.reader) ==>
               (Announcing(r.reader, u) && Paints(r.reader)) || e == Painted(if e.Painted? then e.generation else 0, u)
    ensures Bulletin(r)
  {
    hide Announcing, Paints;
    ToldDeadAppend(s.shared.events, e);
    forall u | u in r.past.owed ensures Told(r.shared.events, u) || (Announcing(r.reader, u) && Paints(r.reader)) {
      ToldStays(s.shared.events, r.shared.events, u);
      if e.Painted? && e.update == u { assert r.shared.events[|s.shared.events|] == e; }
    }
    forall i | 0 <= i < |r.shared.events| && r.shared.events[i].Painted?
      ensures r.shared.events[i].update <= r.shared.lastPainted
    {
      if i < |s.shared.events| { assert r.shared.events[i] == s.shared.events[i]; }
    }
  }

  lemma ReaderBulletin(s: State, t: ReaderStep)
    requires Chronicle(s) && Bulletin(s) && ReaderCan(s, t)
    ensures Bulletin(ReaderDo(s, t))
  {
    hide ReaderGo, Told, ToldDead;
    match t
    case Go => GoBulletin(s);
    case Notice => OneMoreEvent(s, ReaderDo(s, t), Other);
    case _ =>
  }

  lemma GoBulletin(s: State)
    requires Chronicle(s) && Bulletin(s) && ReaderCan(s, Go)
    ensures Bulletin(ReaderGo(s))
  {
    hide Told, ToldDead;
    match s.reader
    case EmittingResized(_, _, _) => OneMoreEvent(s, ReaderGo(s), Resized(s.shared.size));
    case EmittingPainted(u, generation, _) => OneMoreEvent(s, ReaderGo(s), Painted(generation, u));
    case _ => SilentBulletin(s);
  }

  /** The reader's other steps announce nothing. */
  lemma SilentBulletin(s: State)
    requires Chronicle(s) && Bulletin(s) && ReaderCan(s, Go) && !s.reader.EmittingResized? && !s.reader.EmittingPainted?
    ensures Bulletin(ReaderGo(s))
  {
    hide Told, ToldDead, Announcing, Paints;
    var r := ReaderGo(s);
    assert r.shared.events == s.shared.events && s.shared.lastPainted <= r.shared.lastPainted;
    forall u | u in r.past.owed ensures Told(r.shared.events, u) || (Announcing(r.reader, u) && Paints(r.reader)) {
      StillAnnouncing(s, u);
    }
  }

  lemma StillAnnouncing(s: State, u: nat)
    requires ReaderCan(s, Go) && !s.reader.EmittingResized? && !s.reader.EmittingPainted?
    ensures Announcing(s.reader, u) && Paints(s.reader) ==>
              Announcing(ReaderGo(s).reader, u) && Paints(ReaderGo(s).reader)
    ensures u in ReaderGo(s).past.owed && u !in s.past.owed ==>
              Announcing(ReaderGo(s).reader, u) && Paints(ReaderGo(s).reader)
  {
  }

  // ---------------------------------------------------------------- one call moves

  lemma CallMovesSound(s: State, id: nat, t: CallStep)
    requires Sound(s) && CallCan(s, id, t)
    ensures CallIsSound(Tick(s), CallDo(s, id, t).calls[id])
  {
    hide Push, Told;
    match t
    case Subscribe(_) =>
    case Say(_) =>
    case TimeOut =>
    case Forward => ForwardSound(s, id);
  }

  lemma ForwardSound(s: State, id: nat)
    requires Sound(s) && CallCan(s, id, Forward)
    ensures CallIsSound(Tick(s), CallDo(s, id, Forward).calls[id])
  {
    hide Push, Told, ToldDead, Floor;
    var c := s.calls[id];
    assert CallIsSound(s, c);
    match c
    case Subscribed(_, pos) => NewFloor(s, pos);
    case Listening(_, _, _) => HearsSound(s, c);
    case Checking(_, _, _) => ChecksSound(s, c);
    case _ => SendsSound(s, id);
  }

  /** The floor is read: everything already announced is at or below it. */
  lemma NewFloor(s: State, pos: nat)
    requires Chronicle(s) && Bulletin(s) && pos <= |s.shared.events|
    ensures Floor(Tick(s), s.shared.updatesBegun, s.past.now) && Unanswered(Tick(s), pos, s.shared.updatesBegun)
  {
    hide Told, ToldDead;
  }

  lemma FloorTicks(s: State, floor: nat, at: nat)
    requires Floor(s, floor, at)
    ensures Floor(Tick(s), floor, at)
  {
  }

  lemma HearsSound(s: State, c: Call)
    requires c.Listening? && CallIsSound(s, c) && c.pos < |s.shared.events|
    ensures CallIsSound(Tick(s), Heard(s.shared.events[c.pos], c.pos + 1, c.floor, c.floorAt))
  {
    hide Floor;
    FloorTicks(s, c.floor, c.floorAt);
  }

  lemma ChecksSound(s: State, c: Call)
    requires c.Checking? && CallIsSound(s, c) && Chronicle(s) && Bulletin(s)
    ensures s.shared.lastPainted > c.floor ==> Answers(Tick(s), s.shared.lastPainted, c.floor, c.floorAt)
    ensures s.shared.lastPainted <= c.floor ==> CallIsSound(Tick(s), Listening(c.pos, c.floor, c.floorAt))
  {
    hide Told, ToldDead;
    assert s.shared.events[c.pos - 1].update <= s.shared.lastPainted;
  }

  /** The steps of a send. */
  lemma SendsSound(s: State, id: nat)
    requires Sound(s) && CallCan(s, id, Forward)
    requires !s.calls[id].Subscribed? && !s.calls[id].Listening? && !s.calls[id].Checking?
    ensures CallIsSound(Tick(s), CallDo(s, id, Forward).calls[id])
  {
    hide Push, Told, ToldDead, Floor;
    var c := s.calls[id];
    assert CallIsSound(s, c);
    match c
    case Floored(_, pos, floor, at) =>
      FloorTicks(s, floor, at);
      if s.Connected() { NobodyToldDead(s, pos); }
    case CallCounting(_, _, floor, at) => FloorTicks(s, floor, at);
    case CallPushing(_, _, floor, at) => FloorTicks(s, floor, at);
    case _ =>
  }

  lemma NobodyToldDead(s: State, pos: nat)
    requires Bulletin(s) && s.Connected() && pos <= |s.shared.events|
    ensures NoObituary(s, pos)
  {
  }

  lemma CallKeeps(s: State, id: nat, t: CallStep)
    requires Sound(s) && CallCan(s, id, t)
    ensures Sound(Tick(CallDo(s, id, t)))
  {
    var r := Tick(CallDo(s, id, t));
    CallMovesSound(s, id, t);
    hide CallDo, CallIsSound, Told, ToldDead;
    forall k | k in r.calls ensures CallIsSound(r, r.calls[k]) {
      if k == id {
        CallStaysSound(Tick(s), r, r.calls[k]);
      } else {
        assert k in s.calls && s.calls[k] == r.calls[k];
        CallStaysSound(s, r, r.calls[k]);
      }
    }
  }

  // ---------------------------------------------------------------- every step keeps it

  lemma ReaderKeeps(s: State, t: ReaderStep)
    requires Sound(s) && ReaderCan(s, t)
    ensures Sound(Tick(ReaderDo(s, t)))
  {
    hide ReaderDo, Told, ToldDead, CallIsSound;
    ReaderChronicle(s, t);
    ReaderBulletin(s, t);
    CallsStaySound(s, Tick(ReaderDo(s, t)));
  }

  /** A step that touches neither updates, events nor calls. */
  lemma Unremarkable(s: State, r: State)
    requires Sound(s) && r.reader == s.reader && r.calls == s.calls && s.past.now <= r.past.now
    requires r.shared.updatesBegun == s.shared.updatesBegun && r.shared.lastPainted == s.shared.lastPainted
    requires r.shared.version == s.shared.version && r.shared.events == s.shared.events
    requires r.past.begunAt == s.past.begunAt && r.past.applied == s.past.applied && r.past.owed == s.past.owed
    requires r.shared.death.Announced? || r.shared.death.Shut? <==> s.shared.death.Announced? || s.shared.death.Shut?
    ensures Sound(r)
  {
    hide Told, ToldDead, CallIsSound;
    CallsStaySound(s, r);
  }

  lemma WriterKeeps(s: State, t: WriterStep)
    requires Sound(s) && WriterCan(s, t)
    ensures Sound(Tick(WriterDo(s, t)))
  {
    hide Sound;
    Unremarkable(s, Tick(WriterDo(s, t)));
  }

  lemma StepKeepsSound(s: State, t: Step)
    requires Sound(s) && Can(s, t)
    ensures Sound(Do(s, t))
  {
    match t
    case ByReader(r) => ReaderKeeps(s, r);
    case ByWriter(w) => WriterKeeps(s, w);
    case ByCall(id, c) => CallKeeps(s, id, c);
    case Announces => AnnounceKeeps(s);
    case _ => OtherKeeps(s, t);
  }

  lemma AnnounceKeeps(s: State)
    requires Sound(s) && Can(s, Announces)
    ensures Sound(Do(s, Announces))
  {
    hide Told, ToldDead, CallIsSound;
    if s.shared.death.Swapped? { OneMoreEvent(s, Do(s, Announces), Disconnected); }
    CallsStaySound(s, Do(s, Announces));
  }

  lemma OtherKeeps(s: State, t: Step)
    requires Sound(s) && Can(s, t) && !t.ByReader? && !t.ByWriter? && !t.ByCall? && !t.Announces?
    ensures Sound(Do(s, t))
  {
    hide Sound, CallDo, ReaderDo, WriterDo;
    Unremarkable(s, Do(s, t));
  }

  lemma {:induction false} RunSound(s: State, steps: seq<Step>)
    requires Sound(s) && CanRun(s, steps)
    ensures Sound(After(s, steps))
    decreases |steps|
  {
    hide Can, Do, Sound;
    if |steps| > 0 {
      StepKeepsSound(s, steps[0]);
      RunSound(Do(s, steps[0]), steps[1..]);
    }
  }

  // ---------------------------------------------------------------- the two guarantees

  /** Freshness. Whatever the interleaving, when a `refresh` answers with a framebuffer there is an
      update whose first byte was read after the call read its floor, all of whose rects were in the
      framebuffer before the call copied it. */
  lemma RefreshIsFresh(continuous: bool, size: Size, steps: seq<Step>, id: nat)
    requires CanRun(Start(continuous, size), steps)
    ensures var s := After(Start(continuous, size), steps);
            id in s.calls && s.calls[id].Done? && s.calls[id].answer.Fresh? ==>
              var a := s.calls[id].answer;
              && a.floor < a.seen <= |s.past.begunAt| && a.floorAt < s.past.begunAt[a.seen - 1]
              && a.seen in s.past.applied && s.past.applied[a.seen] <= a.version
  {
    hide CanRun, After;
    RunSound(Start(continuous, size), steps);
  }

  /** An event that ends a wait with this floor. */
  predicate Ends(e: Event, floor: nat) {
    e.Disconnected? || (e.Painted? && e.update > floor)
  }

  /** No lost wake-up. While a `refresh` waits, every event that could end the wait is still in front
      of it; every update begun after its floor that painted and has been finished with left such an
      event, and so did the session's death. */
  lemma NoLostWakeUp(continuous: bool, size: Size, steps: seq<Step>, id: nat)
    requires CanRun(Start(continuous, size), steps)
    ensures var s := After(Start(continuous, size), steps);
            id in s.calls && s.calls[id].Listening? ==>
              var c := s.calls[id];
              && (forall i :: 0 <= i < |s.shared.events| && Ends(s.shared.events[i], c.floor) ==> c.pos <= i)
              && (forall u :: u in s.past.owed && u > c.floor && !Announcing(s.reader, u) ==>
                    exists i :: c.pos <= i < |s.shared.events| && Ends(s.shared.events[i], c.floor))
              && (s.shared.death.Announced? || s.shared.death.Shut? ==>
                    exists i :: c.pos <= i < |s.shared.events| && Ends(s.shared.events[i], c.floor))
  {
    hide CanRun, After;
    RunSound(Start(continuous, size), steps);
    var s := After(Start(continuous, size), steps);
    if id in s.calls && s.calls[id].Listening? {
      var c := s.calls[id];
      assert CallIsSound(s, c);
      assert forall i :: 0 <= i < |s.shared.events| && Ends(s.shared.events[i], c.floor) ==> c.pos <= i;
      forall u | u in s.past.owed && u > c.floor && !Announcing(s.reader, u)
        ensures exists i :: c.pos <= i < |s.shared.events| && Ends(s.shared.events[i], c.floor)
      {
        assert Told(s.shared.events, u);
        var i :| 0 <= i < |s.shared.events| && s.shared.events[i].Painted? && s.shared.events[i].update == u;
        assert Ends(s.shared.events[i], c.floor);
      }
      if s.shared.death.Announced? || s.shared.death.Shut? {
        var i :| 0 <= i < |s.shared.events| && s.shared.events[i].Disconnected?;
        assert Ends(s.shared.events[i], c.floor);
      }
    }
  }

  // ---------------------------------------------------------------- what an answer says about the session

  /** A call is told the session is closed only when it is. */
  predicate Honest(s: State) {
    Stops(s) && forall id :: id in s.calls && s.calls[id] == Done(Closed) ==> !s.Connected()
  }

  lemma DeadStaysDead(s: State, t: Step)
    requires Can(s, t) && !s.Connected()
    ensures !Do(s, t).Connected()
  {
    hide CallDo, ReaderDo;
    match t
    case ByReader(r) => ReaderKills(s, r);
    case _ =>
  }

  lemma ReaderKills(s: State, t: ReaderStep)
    requires ReaderCan(s, t) && !s.Connected()
    ensures !ReaderDo(s, t).Connected()
  {
  }

  lemma HonestKept(s: State, t: Step)
    requires Sound(s) && Honest(s) && Can(s, t)
    ensures Honest(Do(s, t))
  {
    StopsKept(s, t);
    if !s.Connected() { DeadStaysDead(s, t); }
    if t.ByCall? { ClosedIsTrue(s, t.id, t.c); }
    hide CallDo, ReaderDo, WriterDo, Stops, Sound;
  }

  lemma ClosedIsTrue(s: State, id: nat, t: CallStep)
    requires Sound(s) && Stops(s) && CallCan(s, id, t)
    ensures CallDo(s, id, t).calls[id] == Done(Closed) && (id in s.calls ==> s.calls[id] != Done(Closed)) ==>
        !s.Connected()
  {
    hide Chronicle, Told, Floor;
    if id in s.calls { assert CallIsSound(s, s.calls[id]); }
  }

  lemma {:induction false} RunHonest(s: State, steps: seq<Step>)
    requires Sound(s) && Honest(s) && CanRun(s, steps)
    ensures Honest(After(s, steps))
    decreases |steps|
  {
    hide Can, Do, Sound, Honest;
    if |steps| > 0 {
      HonestKept(s, steps[0]);
      StepKeepsSound(s, steps[0]);
      RunHonest(Do(s, steps[0]), steps[1..]);
    }
  }

  /** Whatever the interleaving, a call that was told the session is closed finds it so. */
  lemma ClosedMeansDead(continuous: bool, size: Size, steps: seq<Step>, id: nat)
    requires CanRun(Start(continuous, size), steps)
    ensures var s := After(Start(continuous, size), steps);
            id in s.calls && s.calls[id] == Done(Closed) ==> !s.Connected()
  {
    hide CanRun, After;
    RunHonest(Start(continuous, size), steps);
  }

  /** And one that was told it timed out did time out. */
  lemma {:induction false} TimedOutMeansLate(s: State, steps: seq<Step>, id: nat)
    requires CanRun(s, steps) && (id in s.calls ==> s.calls[id] != Done(TimedOut))
    ensures var e := After(s, steps); id in e.calls && e.calls[id] == Done(TimedOut) ==> ByCall(id, TimeOut) in steps
    decreases |steps|
  {
    hide Can, Do;
    if |steps| > 0 {
      if steps[0] != ByCall(id, TimeOut) {
        OneTimesOut(s, steps[0], id);
        TimedOutMeansLate(Do(s, steps[0]), steps[1..], id);
      }
      assert steps == [steps[0]] + steps[1..];
    }
  }

  lemma OneTimesOut(s: State, t: Step, id: nat)
    requires Can(s, t) && (id in s.calls ==> s.calls[id] != Done(TimedOut)) && t != ByCall(id, TimeOut)
    ensures id in Do(s, t).calls ==> Do(s, t).calls[id] != Done(TimedOut)
  {
    hide ReaderDo, WriterDo;
  }

  // ---------------------------------------------------------------- a wait with its event in front of it ends

  /** The most turns a waiting call needs to act on event `j` and answer. */
  function Turns(c: Call, j: nat): nat {
    match c
    case Listening(pos, _, _) => if pos <= j then 2 * (j - pos) + 3 else 0
    case Checking(pos, _, _) => if pos <= j + 1 then 2 * (j + 1 - pos) + 2 else 0
    case Cloning(_, _, _) => 1
    case _ => 0
  }

  /** Waiting with the ending event `j` not yet acted on, or past it with the right answer. */
  predicate InFront(s: State, id: nat, floor: nat, j: nat) {
    && id in s.calls && j < |s.shared.events| && Ends(s.shared.events[j], floor)
    && match s.calls[id]
       case Listening(pos, f, _) => f == floor && pos <= j
       case Checking(pos, f, _) => f == floor && pos <= j + 1
       case Cloning(seen, f, _) => f == floor
       case Done(Fresh(_, f, _, _)) => f == floor
       case Done(Closed) => true
       case Done(TimedOut) => true
       case _ => false
  }

  /** How often a call got a turn. */
  function TurnsOf(steps: seq<Step>, id: nat): nat {
    if |steps| == 0 then 0
    else (if steps[0] == ByCall(id, Forward) then 1 else 0) + TurnsOf(steps[1..], id)
  }

  lemma InFrontKept(s: State, t: Step, id: nat, floor: nat, j: nat)
    requires Sound(s) && Can(s, t) && InFront(s, id, floor, j)
    ensures InFront(Do(s, t), id, floor, j)
    ensures Turns(Do(s, t).calls[id], j) <= Turns(s.calls[id], j)
    ensures t == ByCall(id, Forward) ==> Turns(Do(s, t).calls[id], j) < Turns(s.calls[id], j)
  {
    hide Told, ToldDead, Chronicle, ReaderDo, WriterDo, Turns, InFront;
    InFrontKnows(s, id, floor, j);
    assert CallIsSound(s, s.calls[id]);
    match t
    case ByReader(r) => OthersTurn(s, Do(s, t), id, floor, j);
    case ByCall(k, c) =>
      if k == id {
        OwnTurn(s, id, c, floor, j);
        OthersTurn(CallDo(s, id, c), Do(s, t), id, floor, j);
      } else {
        hide CallDo;
        OthersTurn(s, Do(s, t), id, floor, j);
      }
    case _ => OthersTurn(s, Do(s, t), id, floor, j);
  }

  lemma InFrontKnows(s: State, id: nat, floor: nat, j: nat)
    requires InFront(s, id, floor, j)
    ensures id in s.calls
  {
  }

  /** Somebody else's step leaves a call where it was. */
  lemma OthersTurn(s: State, r: State, id: nat, floor: nat, j: nat)
    requires InFront(s, id, floor, j) && id in r.calls && r.calls[id] == s.calls[id]
        && s.shared.events <= r.shared.events
    ensures InFront(r, id, floor, j) && Turns(r.calls[id], j) == Turns(s.calls[id], j)
  {
  }

  lemma OwnTurn(s: State, id: nat, t: CallStep, floor: nat, j: nat)
    requires Bulletin(s) && CallCan(s, id, t) && InFront(s, id, floor, j) && CallIsSound(s, s.calls[id])
    ensures InFront(CallDo(s, id, t), id, floor, j)
    ensures Turns(CallDo(s, id, t).calls[id], j) <= Turns(s.calls[id], j)
    ensures t.Forward? ==> Turns(CallDo(s, id, t).calls[id], j) < Turns(s.calls[id], j)
  {
    hide Told, ToldDead, Floor;
  }

  /** Whatever else runs in between, a `refresh` with an ending event in front of it has answered once it
      has had a bounded number of turns: with a framebuffer newer than its floor, or, only if the session
      is dead or the call timed out, with that. */
  lemma WaitEnds(s: State, steps: seq<Step>, id: nat, floor: nat, j: nat)
    requires Sound(s) && Honest(s) && CanRun(s, steps) && InFront(s, id, floor, j) && !s.calls[id].Done?
    requires TurnsOf(steps, id) >= Turns(s.calls[id], j)
    ensures var e := After(s, steps);
      && id in e.calls && e.calls[id].Done? && !e.calls[id].answer.Sent?
      && (e.calls[id].answer.Fresh? ==> e.calls[id].answer.floor == floor)
      && (e.Connected() && ByCall(id, TimeOut) !in steps ==> e.calls[id].answer.Fresh?)
  {
    hide CanRun, After, Sound, Turns;
    InFrontRuns(s, steps, id, floor, j);
    RunHonest(s, steps);
    TimedOutMeansLate(s, steps, id);
  }

  lemma {:induction false} InFrontRuns(s: State, steps: seq<Step>, id: nat, floor: nat, j: nat)
    requires Sound(s) && CanRun(s, steps) && InFront(s, id, floor, j)
    requires TurnsOf(steps, id) >= Turns(s.calls[id], j)
    ensures InFront(After(s, steps), id, floor, j) && After(s, steps).calls[id].Done?
    decreases |steps|
  {
    hide Can, Do, Sound, Turns, InFront;
    InFrontKnows(s, id, floor, j);
    if |steps| > 0 {
      InFrontKept(s, steps[0], id, floor, j);
      StepKeepsSound(s, steps[0]);
      InFrontRuns(Do(s, steps[0]), steps[1..], id, floor, j);
    } else {
      InFrontRanks(s, id, floor, j);
    }
  }

  lemma InFrontRanks(s: State, id: nat, floor: nat, j: nat)
    requires InFront(s, id, floor, j)
    ensures Turns(s.calls[id], j) == 0 ==> s.calls[id].Done?
  {
  }

  lemma StartSound(continuous: bool, size: Size)
    ensures Sound(Start(continuous, size)) && Honest(Start(continuous, size))
  {
  }

  /** What a caller gets. When some update begun after a waiting `refresh` read its floor has painted and
      been finished with, then however the rest of the run interleaves, the call has answered once it has
      had two turns for every event in front of it and one more; and unless it timed out or the session
      died, its answer is a framebuffer. */
  lemma RefreshAnswers(continuous: bool, size: Size, before: seq<Step>, later: seq<Step>, id: nat, u: nat)
    requires CanRun(Start(continuous, size), before) && CanRun(After(Start(continuous, size), before), later)
    requires var s := After(Start(continuous, size), before);
      && id in s.calls && s.calls[id].Listening? && s.calls[id].pos <= |s.shared.events|
      && u in s.past.owed && u > s.calls[id].floor && !Announcing(s.reader, u)
      && TurnsOf(later, id) >= 2 * (|s.shared.events| - s.calls[id].pos) + 1
    ensures var e := After(After(Start(continuous, size), before), later);
      && id in e.calls && e.calls[id].Done?
      && (e.Connected() && ByCall(id, TimeOut) !in later ==> e.calls[id].answer.Fresh?)
  {
    hide CanRun, After, Sound, Announcing, TurnsOf;
    var s := After(Start(continuous, size), before);
    StartSound(continuous, size);
    RunSound(Start(continuous, size), before);
    RunHonest(Start(continuous, size), before);
    NoLostWakeUp(continuous, size, before, id);
    var c := s.calls[id];
    var j :| c.pos <= j < |s.shared.events| && Ends(s.shared.events[j], c.floor);
    WaitEnds(s, later, id, c.floor, j);
  }
}
