/** Every resize is followed by a request for the whole of the new screen. */
module SessionResizes {
  import opened Sessions
  import opened SessionProgress

  // ---------------------------------------------------------------- the ledger of built requests

  /** How many resizes had set the flag when it was last taken, or -1 before the first time. */
  function LastTaken(s: State): int {
    if s.writer.Sizing? then s.writer.stamp else LastBuilt(s.past.built)
  }

  function LastBuilt(built: seq<Built>): int {
    if |built| == 0 then -1 else built[|built| - 1].stamp
  }

  /** A request at `i` goes out incremental exactly when its caller asked for that, some request went
      before it, and no resize set the flag in between. */
  predicate Entry(built: seq<Built>, i: nat)
    requires i < |built|
  {
    && LastBuilt(built[..i]) <= built[i].stamp
    && (built[i].incremental <==> built[i].asked && LastBuilt(built[..i]) == built[i].stamp)
  }

  /** A request carries a size the framebuffer had at or after the last resize it accounts for. */
  predicate Sized(sizes: seq<Size>, b: Built) {
    b.stamp < b.sizeAt <= |sizes| && b.size == sizes[b.sizeAt - 1]
  }

  predicate Ledger(s: State) {
    && (forall i :: 0 <= i < |s.past.built| ==> Entry(s.past.built, i))
    && (forall i :: 0 <= i < |s.past.built| ==> Sized(s.past.sizes, s.past.built[i]))
    && |s.past.sizes| == s.past.stores + (if s.reader.StoringFull? then 2 else 1)
    && s.past.sizes[|s.past.sizes| - 1] == s.shared.size
    && LastBuilt(s.past.built) <= LastTaken(s) <= s.past.stores
    && (s.shared.needsFull <==> LastTaken(s) < s.past.stores)
    && (s.writer.Sizing? ==> (s.writer.first <==> LastBuilt(s.past.built) < s.writer.stamp))
  }

  lemma ReaderLedger(s: State, t: ReaderStep)
    requires Ledger(s) && ReaderCan(s, t)
    ensures Ledger(ReaderDo(s, t))
  {
    hide ReaderGo, Entry, LastBuilt;
    match t
    case Go => GoLedger(s);
    case Resize(size) => SizedStay(s, s.past.sizes + [size]);
    case _ =>
  }

  lemma SizedStay(s: State, sizes: seq<Size>)
    requires Ledger(s) && s.past.sizes <= sizes
    ensures forall i :: 0 <= i < |s.past.built| ==> Sized(sizes, s.past.built[i])
  {
    hide Entry, LastBuilt;
    forall i | 0 <= i < |s.past.built| ensures Sized(sizes, s.past.built[i]) {
      assert Sized(s.past.sizes, s.past.built[i]);
    }
  }

  lemma GoLedger(s: State)
    requires Ledger(s) && ReaderCan(s, Go)
    ensures Ledger(ReaderGo(s))
  {
    hide Entry, Sized, LastBuilt;
    var r := ReaderGo(s);
    assert r.past.built == s.past.built && r.past.sizes == s.past.sizes && r.shared.size == s.shared.size;
  }

  lemma WriterLedger(s: State, t: WriterStep)
    requires Ledger(s) && WriterCan(s, t)
    ensures Ledger(WriterDo(s, t))
  {
    if t.Advance? && s.writer.Sizing? {
      NewEntry(s);
    } else {
      hide Entry, Sized;
    }
  }

  lemma NewEntry(s: State)
    requires Ledger(s) && s.writer.Sizing?
    ensures Ledger(WriterDo(s, Advance))
  {
    var was, r := s.past.built, WriterDo(s, Advance);
    var now := r.past.built;
    assert now[..|was|] == was;
    OldEntries(was, now[|was|]);
    assert now == was + [now[|was|]];
    assert Entry(now, |was|) && Sized(r.past.sizes, now[|was|]);
  }

  lemma OldEntries(was: seq<Built>, last: Built)
    requires forall i :: 0 <= i < |was| ==> Entry(was, i)
    ensures forall i :: 0 <= i < |was| ==> Entry(was + [last], i)
  {
    var now := was + [last];
    forall i | 0 <= i < |was| ensures Entry(now, i) {
      assert Entry(was, i) && now[..i] == was[..i];
    }
  }

  lemma LedgerKept(s: State, t: Step)
    requires Ledger(s) && Can(s, t)
    ensures Ledger(Do(s, t))
  {
    hide CallDo, ReaderDo, WriterDo, Ledger;
    match t
    case ByReader(r) =>
      ReaderLedger(s, r);
      SameLedger(ReaderDo(s, r), Do(s, t));
    case ByWriter(w) =>
      WriterLedger(s, w);
      SameLedger(WriterDo(s, w), Do(s, t));
    case _ => SameLedger(s, Do(s, t));
  }

  lemma SameLedger(s: State, r: State)
    requires Ledger(s) && r.past.built == s.past.built && r.past.sizes == s.past.sizes && r.past.stores == s.past.stores
    requires r.shared.size == s.shared.size && r.shared.needsFull == s.shared.needsFull
    requires r.reader == s.reader && r.writer == s.writer
    ensures Ledger(r)
  {
    hide Entry, Sized, LastBuilt;
  }

  lemma {:induction false} RunLedger(s: State, steps: seq<Step>)
    requires Ledger(s) && CanRun(s, steps)
    ensures Ledger(After(s, steps))
    decreases |steps|
  {
    hide Can, Do, Ledger;
    if |steps| > 0 {
      LedgerKept(s, steps[0]);
      RunLedger(Do(s, steps[0]), steps[1..]);
    }
  }

  /** The first request ever built asks for everything; and of the requests whose flag was taken after
      the `k`-th resize set it, the first asks for everything and carries that resize's size or a
      later one. Incremental requests whose flag was taken earlier may still be built in between. */
  lemma FullAfterResize(continuous: bool, size: Size, steps: seq<Step>, k: nat, i: nat)
    requires CanRun(Start(continuous, size), steps)
    ensures var s := After(Start(continuous, size), steps);
            i < |s.past.built| && s.past.built[i].stamp >= k
                && (forall j :: 0 <= j < i ==> s.past.built[j].stamp < k) ==>
              && !s.past.built[i].incremental
              && k < s.past.built[i].sizeAt <= |s.past.sizes|
              && s.past.built[i].size == s.past.sizes[s.past.built[i].sizeAt - 1]
  {
    hide CanRun, After;
    RunLedger(Start(continuous, size), steps);
    var s := After(Start(continuous, size), steps);
    if i < |s.past.built| && s.past.built[i].stamp >= k && (forall j :: 0 <= j < i ==> s.past.built[j].stamp < k) {
      assert Entry(s.past.built, i) && Sized(s.past.sizes, s.past.built[i]);
      if i > 0 { assert s.past.built[..i][i - 1] == s.past.built[i - 1]; }
    }
  }

  /** Exactly when a request goes out incremental. */
  lemma IncrementalIff(continuous: bool, size: Size, steps: seq<Step>, i: nat)
    requires CanRun(Start(continuous, size), steps)
    ensures var built := After(Start(continuous, size), steps).past.built;
            i < |built| ==>
              (built[i].incremental <==> built[i].asked && i > 0 && built[i - 1].stamp == built[i].stamp)
  {
    hide CanRun, After;
    RunLedger(Start(continuous, size), steps);
    var built := After(Start(continuous, size), steps).past.built;
    if i < |built| {
      assert Entry(built, i);
      if i > 0 { assert built[..i][i - 1] == built[i - 1]; }
    }
  }

  // ---------------------------------------------------------------- the request a resize earns

  /** The reader is in an update whose request is still to come. */
  predicate Owes(r: Reader) {
    r.StoringFull? || r.EmittingResized? || (r.Rects? && r.resized) || r.AskLoading? || r.AskCounting? || r.AskPushing?
  }

  /** The latest resize has its request: built, being built, in the writer's hand or queued. */
  predicate Pledged(s: State) {
    LastTaken(s) == s.past.stores || s.writer.Swapping? || Asked(s.shared.queue)
  }

  /** Outside such an update, a live session that has been resized is pledged. */
  predicate Pledge(s: State) {
    s.Connected() && !Failed(s) && s.past.stores > 0 && !Owes(s.reader) ==> Pledged(s)
  }

  lemma PledgeKept(s: State, t: Step)
    requires Pledge(s) && Stops(s) && Ledger(s) && Can(s, t)
    ensures Pledge(Do(s, t))
  {
    hide CallDo, ReaderDo, WriterDo, Asked, Ledger, LastTaken;
    match t
    case ByReader(r) =>
      ReaderPledge(s, r);
      SameTaken(ReaderDo(s, r), Do(s, t));
    case ByWriter(w) =>
      WriterPledge(s, w);
      SameTaken(WriterDo(s, w), Do(s, t));
    case ByCall(id, c) =>
      AskedStays(s.shared.queue, CallDo(s, id, c).shared.queue);
      SameTaken(s, Do(s, t));
    case Opens =>
      AskedPush(s.shared.queue, true);
      SameTaken(s, Do(s, t));
    case _ => SameTaken(s, Do(s, t));
  }

  lemma SameTaken(s: State, r: State)
    requires s.writer == r.writer && s.past.built == r.past.built
    ensures LastTaken(s) == LastTaken(r)
  {
  }

  lemma ReaderPledge(s: State, t: ReaderStep)
    requires Pledge(s) && Stops(s) && ReaderCan(s, t)
    ensures Pledge(ReaderDo(s, t))
  {
    hide Asked, LastTaken;
    AskedStays(s.shared.queue, ReaderDo(s, t).shared.queue);
    AskedPush(s.shared.queue, true);
    SameTaken(s, ReaderDo(s, t));
  }

  lemma WriterPledge(s: State, t: WriterStep)
    requires Pledge(s) && Stops(s) && Ledger(s) && WriterCan(s, t)
    ensures Pledge(WriterDo(s, t))
  {
    hide Asked, Entry, Sized;
    if Asked(s.shared.queue) { AskedPop(s.shared.queue); }
  }

  lemma {:induction false} RunPledge(s: State, steps: seq<Step>)
    requires Pledge(s) && Stops(s) && Ledger(s) && CanRun(s, steps)
    ensures Pledge(After(s, steps)) && Ledger(After(s, steps))
    decreases |steps|
  {
    hide Can, Do, Ledger, Pledge, Stops;
    if |steps| > 0 {
      LedgerKept(s, steps[0]);
      StopsKept(s, steps[0]);
      PledgeKept(s, steps[0]);
      RunPledge(Do(s, steps[0]), steps[1..]);
    }
  }

  /** Once the update that brought the `k`-th resize is over and the session is alive, a request that
      accounts for that resize has been built, is being built, or is certain to be: it is in the
      writer's hand with the flag not yet taken, or still queued. */
  lemma ResizeIsFollowedUp(continuous: bool, size: Size, steps: seq<Step>, k: nat)
    requires CanRun(Start(continuous, size), steps)
    ensures var s := After(Start(continuous, size), steps);
            s.Connected() && !Failed(s) && s.reader.Idle? && 0 < k <= s.past.stores ==>
              || (exists i :: 0 <= i < |s.past.built| && s.past.built[i].stamp >= k)
              || (s.writer.Sizing? && s.writer.stamp >= k)
              || s.writer.Swapping? || Asked(s.shared.queue)
  {
    hide CanRun, After, Asked;
    RunPledge(Start(continuous, size), steps);
    var s := After(Start(continuous, size), steps);
    if s.Connected() && !Failed(s) && s.reader.Idle? && 0 < k <= s.past.stores && !s.writer.Sizing?
        && LastTaken(s) == s.past.stores {
      assert s.past.built[|s.past.built| - 1].stamp >= k;
    }
  }
}
