/** A live session as a step system: one reader task, one writer task, `connect`'s opening send, any
    number of concurrent calls, whoever announces death, and a server that may fold requests. Every
    access to a shared atomic, queue, lock or event stream is a step of its own. */
module Sessions {
  import opened Bytes

  datatype Size = Size(width: u16, height: u16)

  datatype Command = Request(incremental: bool) | Write(data: seq<byte>)

  /** What subscribers receive. `update` is history: which update the event reports. */
  datatype Event = Painted(generation: nat, update: nat) | Resized(size: Size) | Disconnected | Other

  /** Where the read loop is. In an update, `u` is its number, `left` the rects still to come. */
  datatype Reader =
    | Idle
    | Rects(u: nat, left: nat, painted: bool, resized: bool)
    | StoringFull(u: nat, left: nat, painted: bool)       // the new framebuffer is in; needs_full is not yet set
    | EmittingResized(u: nat, left: nat, painted: bool)
    | AskLoading(u: nat, painted: bool)                   // outstanding has been zeroed
    | AskCounting(u: nat, painted: bool)
    | AskPushing(u: nat, painted: bool)
    | Finishing(u: nat, painted: bool, asked: bool)
    | StoringPainted(u: nat, generation: nat, asked: bool)
    | MarkingPainted(u: nat, generation: nat, asked: bool)
    | EmittingPainted(u: nat, generation: nat, asked: bool)
    | Failing                                             // an error is about to be announced
    | Stopped

  /** Where the writer task is. `stamp` is history: how many resizes had set the flag at the swap; so is
      `asked`, what the request's caller wanted. */
  datatype Writer =
    | Waiting
    | Swapping(incremental: bool)
    | Sizing(incremental: bool, first: bool, stamp: nat)
    | WritingRequest(asked: bool)
    | WritingData(data: seq<byte>)
    | WriteFailed
    | WriterStopped

  /** `connect`'s own send of the opening request. */
  datatype Opener = Loading | Counting | Pushing | Returned

  /** The one-shot `connected` flag and the announcement its one winner owes. */
  datatype Death = Alive | Swapped | Announced | Shut

  datatype Answer = Fresh(seen: nat, floor: nat, floorAt: nat, version: nat) | Sent | Closed | TimedOut

  /** One call. `pos` is a `refresh`'s next unread event; `floorAt`, the moment its floor was read, is history. */
  datatype Call =
    | Subscribed(incremental: bool, pos: nat)
    | Floored(incremental: bool, pos: nat, floor: nat, floorAt: nat)
    | CallCounting(incremental: bool, pos: nat, floor: nat, floorAt: nat)
    | CallPushing(incremental: bool, pos: nat, floor: nat, floorAt: nat)
    | Listening(pos: nat, floor: nat, floorAt: nat)
    | Checking(pos: nat, floor: nat, floorAt: nat)
    | Cloning(seen: nat, floor: nat, floorAt: nat)
    | Speaking(data: seq<byte>)                           // a pointer, key or cut-text send past its check
    | Done(answer: Answer)

  /** A request as it was built. The rest is history: what its caller asked for, how many resizes had
      set the flag at the swap, and how many framebuffers there had been when the size was read. */
  datatype Built = Built(incremental: bool, size: Size, asked: bool, stamp: nat, sizeAt: nat)

  /** What the tasks and the callers share. `version` counts writes to the framebuffer. */
  datatype Shared = Shared(
    death: Death, updatesBegun: nat, lastPainted: nat, outstanding: nat, needsFull: bool, generation: nat,
    size: Size, version: nat, queue: seq<Command>, events: seq<Event>)

  /** Requests on the wire, requests the server has read, updates on the way. */
  datatype Net = Net(wire: nat, pending: nat, transit: nat)

  /** History: no step reads it back. When each update's first byte was read, the framebuffer version
      once all its rects were in, which of those painted, how many requests others counted since the
      counter was zeroed, how many resizes set the flag, every framebuffer size, every request built, every
      command ever queued, every command written out. */
  datatype Past = Past(
    now: nat, begunAt: seq<nat>, applied: map<nat, nat>, owed: set<nat>, foreign: nat, stores: nat,
    sizes: seq<Size>, built: seq<Built>, queued: seq<Command>, wrote: seq<Command>)

  datatype State = State(
    continuous: bool, shared: Shared, net: Net, past: Past,
    reader: Reader, writer: Writer, opener: Opener, calls: map<nat, Call>)
  {
    predicate Connected() { shared.death.Alive? }
  }

  function Start(continuous: bool, size: Size): State {
    State(continuous, Shared(Alive, 0, 0, 0, true, 0, size, 0, [], []), Net(0, 0, 0),
          Past(0, [], map[], {}, 0, 0, [size], [], [], []),
          Idle, Waiting, if continuous then Loading else Returned, map[])
  }

  /** Time passes. */
  function Tick(s: State): State {
    s.(past := s.past.(now := s.past.now + 1))
  }

  // ---------------------------------------------------------------- shared operations

  /** `connected.swap(false)`: the first to do it owes the announcement. */
  function Kill(s: State): State {
    if s.shared.death.Alive? then s.(shared := s.shared.(death := Swapped)) else s
  }

  /** Push onto the queue; a stopped writer has dropped its end. */
  function Push(s: State, c: Command): State {
    if s.writer.WriterStopped? then s
    else s.(shared := s.shared.(queue := s.shared.queue + [c]), past := s.past.(queued := s.past.queued + [c]))
  }

  function Emit(s: State, e: Event): State {
    s.(shared := s.shared.(events := s.shared.events + [e]))
  }

  // ---------------------------------------------------------------- the read loop

  datatype ReaderStep =
    | Begin(count: nat)      // the first byte of an update
    | Paint                  // a Raw, ZRLE or CopyRect rect lands
    | Resize(size: Size)     // a DesktopSize rect
    | Go                     // whatever comes next
    | Notice                 // a bell or a cut text
    | Fail
    | Cancel

  predicate ReaderCan(s: State, t: ReaderStep) {
    match t
    case Begin(_) => s.reader.Idle? && s.net.transit > 0
    case Paint => s.reader.Rects? && s.reader.left > 0
    case Resize(_) => s.reader.Rects? && s.reader.left > 0
    case Go => !s.reader.Idle? && !s.reader.Stopped? && (s.reader.Rects? ==> s.reader.left == 0)
    case Notice => s.reader.Idle?
    case Fail => s.reader.Idle? || s.reader.Rects?
    case Cancel => s.shared.death.Shut? && (s.reader.Idle? || s.reader.Rects?)
  }

  /** The reader's next step where there is no choice. */
  function ReaderGo(s: State): (r: State)
    ensures r.continuous == s.continuous && r.writer == s.writer && r.opener == s.opener && r.calls == s.calls
    ensures r.net == s.net && r.past.built == s.past.built && r.past.now == s.past.now
    ensures s.shared.queue <= r.shared.queue && s.shared.events <= r.shared.events
        && s.shared.updatesBegun == r.shared.updatesBegun
  {
    match s.reader
    case StoringFull(u, left, painted) =>
      s.(shared := s.shared.(needsFull := true), past := s.past.(stores := s.past.stores + 1),
          reader := EmittingResized(u, left, painted))
    case EmittingResized(u, left, painted) =>
      Emit(s, Resized(s.shared.size)).(reader := Rects(u, left, painted, true))
    case Rects(u, _, painted, resized) =>
      s.(shared := s.shared.(outstanding := 0),
         past := s.past.(foreign := 0, applied := s.past.applied[u := s.shared.version],
                         owed := if painted then s.past.owed + {u} else s.past.owed),
         reader := if resized || s.continuous then AskLoading(u, painted) else Finishing(u, painted, false))
    case AskLoading(u, painted) =>
      s.(reader := if s.Connected() then AskCounting(u, painted) else Finishing(u, painted, false))
    case AskCounting(u, painted) =>
      s.(shared := s.shared.(outstanding := s.shared.outstanding + 1), reader := AskPushing(u, painted))
    case AskPushing(u, painted) =>
      Push(s, Request(true)).(reader := Finishing(u, painted, true))
    case Finishing(u, painted, asked) =>
      if painted then
        s.(shared := s.shared.(generation := s.shared.generation + 1),
           reader := StoringPainted(u, s.shared.generation + 1, asked))
      else s.(reader := Idle)
    case StoringPainted(u, generation, asked) =>
      s.(shared := s.shared.(lastPainted := u), reader := MarkingPainted(u, generation, asked))
    case MarkingPainted(u, generation, asked) =>
      s.(reader := EmittingPainted(u, generation, asked))
    case EmittingPainted(u, generation, _) =>
      Emit(s, Painted(generation, u)).(reader := Idle)
    case Failing => Kill(s).(reader := Stopped)
    case _ => s
  }

  function ReaderDo(s: State, t: ReaderStep): (r: State)
    requires ReaderCan(s, t)
    ensures r.continuous == s.continuous && r.writer == s.writer && r.opener == s.opener && r.calls == s.calls
    ensures r.net.wire == s.net.wire && r.net.pending == s.net.pending && r.past.built == s.past.built
        && r.past.now == s.past.now
    ensures s.shared.queue <= r.shared.queue && s.shared.events <= r.shared.events
        && s.shared.updatesBegun <= r.shared.updatesBegun
  {
    match t
    case Begin(count) =>
      s.(net := s.net.(transit := s.net.transit - 1), shared := s.shared.(updatesBegun := s.shared.updatesBegun + 1),
          past := s.past.(begunAt := s.past.begunAt + [s.past.now]),
          reader := Rects(s.shared.updatesBegun + 1, count, false, false))
    case Paint =>
      s.(shared := s.shared.(version := s.shared.version + 1),
          reader := Rects(s.reader.u, s.reader.left - 1, true, s.reader.resized))
    case Resize(size) =>
      s.(shared := s.shared.(version := s.shared.version + 1, size := size),
          past := s.past.(sizes := s.past.sizes + [size]),
          reader := StoringFull(s.reader.u, s.reader.left - 1, s.reader.painted))
    case Notice => Emit(s, Other)
    case Fail => s.(reader := Failing)
    case Cancel => s.(reader := Stopped)
    case Go => ReaderGo(s)
  }

  // ---------------------------------------------------------------- the writer

  datatype WriterStep = Advance | WriteFails | WriterCancel

  predicate WriterCan(s: State, t: WriterStep) {
    match t
    case Advance => !s.writer.WriterStopped? && (s.writer.Waiting? ==> s.shared.queue != [])
    case WriteFails => s.writer.WritingRequest? || s.writer.WritingData?
    case WriterCancel => s.shared.death.Shut? && s.writer.Waiting?
  }

  function WriterDo(s: State, t: WriterStep): (r: State)
    requires WriterCan(s, t)
    ensures r == s.(writer := r.writer,
        shared := s.shared.(death := r.shared.death, queue := r.shared.queue, needsFull := r.shared.needsFull),
        net := s.net.(wire := r.net.wire), past := s.past.(built := r.past.built, wrote := r.past.wrote))
    ensures s.past.built <= r.past.built
  {
    match t
    case WriteFails => s.(writer := WriteFailed)
    case WriterCancel => s.(writer := WriterStopped)
    case Advance =>
      match s.writer
      case Waiting =>
        s.(shared := s.shared.(queue := s.shared.queue[1..]),
            writer := match s.shared.queue[0] case Request(i) => Swapping(i) case Write(data) => WritingData(data))
      case Swapping(i) => s.(shared := s.shared.(needsFull := false),
          writer := Sizing(i, s.shared.needsFull, s.past.stores))
      case Sizing(i, first, stamp) =>
        s.(writer := WritingRequest(i),
            past := s.past.(built := s.past.built + [Built(i && !first, s.shared.size, i, stamp, |s.past.sizes|)]))
      case WritingRequest(asked) =>
        s.(writer := Waiting, net := s.net.(wire := s.net.wire + 1),
            past := s.past.(wrote := s.past.wrote + [Request(asked)]))
      case WritingData(data) => s.(writer := Waiting, past := s.past.(wrote := s.past.wrote + [Write(data)]))
      case WriteFailed => Kill(s).(writer := WriterStopped)
      case WriterStopped => s
  }

  // ---------------------------------------------------------------- calls

  datatype CallStep = Subscribe(incremental: bool) | Say(data: seq<byte>) | Forward | TimeOut

  predicate CallCan(s: State, id: nat, t: CallStep) {
    match t
    case Subscribe(_) => s.opener.Returned? && id !in s.calls
    case Say(_) => s.opener.Returned? && id !in s.calls && s.Connected()
    case TimeOut => id in s.calls && s.calls[id].Listening?
    case Forward =>
      && id in s.calls && !s.calls[id].Done?
      && (s.calls[id].Listening? ==> s.calls[id].pos < |s.shared.events|)
  }

  function CallDo(s: State, id: nat, t: CallStep): (r: State)
    requires CallCan(s, id, t)
    ensures r == s.(calls := r.calls,
        shared := s.shared.(outstanding := r.shared.outstanding, queue := r.shared.queue),
        past := s.past.(foreign := r.past.foreign, queued := r.past.queued))
    ensures id in r.calls && r.calls == s.calls[id := r.calls[id]] && s.shared.queue <= r.shared.queue
    ensures r.shared.outstanding - r.past.foreign == s.shared.outstanding - s.past.foreign
  {
    match t
    case Subscribe(incremental) => s.(calls := s.calls[id := Subscribed(incremental, |s.shared.events|)])
    case Say(data) => s.(calls := s.calls[id := Speaking(data)])
    case TimeOut => s.(calls := s.calls[id := Done(TimedOut)])
    case Forward =>
      match s.calls[id]
      case Subscribed(i, pos) => s.(calls := s.calls[id := Floored(i, pos, s.shared.updatesBegun, s.past.now)])
      case Floored(i, pos, floor, at) =>
        s.(calls := s.calls[id := if s.Connected() then CallCounting(i, pos, floor, at) else Done(Closed)])
      case CallCounting(i, pos, floor, at) =>
        s.(shared := s.shared.(outstanding := s.shared.outstanding + 1),
            past := s.past.(foreign := s.past.foreign + 1), calls := s.calls[id := CallPushing(i, pos, floor, at)])
      case CallPushing(i, pos, floor, at) =>
        Push(s, Request(i)).(calls :=
          s.calls[id := if s.writer.WriterStopped? then Done(Closed) else Listening(pos, floor, at)])
      case Listening(pos, floor, at) =>
        s.(calls := s.calls[id := Heard(s.shared.events[pos], pos + 1, floor, at)])
      case Checking(pos, floor, at) =>
        var seen := s.shared.lastPainted;
        s.(calls := s.calls[id := if seen > floor then Cloning(seen, floor, at) else Listening(pos, floor, at)])
      case Cloning(seen, floor, at) => s.(calls := s.calls[id := Done(Fresh(seen, floor, at, s.shared.version))])
      case Speaking(data) =>
        Push(s, Write(data)).(calls := s.calls[id := Done(if s.writer.WriterStopped? then Closed else Sent)])
      case Done(_) => s
  }

  /** What receiving one event makes of a waiting call. */
  function Heard(e: Event, pos: nat, floor: nat, at: nat): Call {
    match e
    case Painted(_, _) => Checking(pos, floor, at)
    case Disconnected => Done(Closed)
    case _ => Listening(pos, floor, at)
  }

  // ---------------------------------------------------------------- everything

  datatype Step =
    | ByReader(r: ReaderStep)
    | ByWriter(w: WriterStep)
    | ByCall(id: nat, c: CallStep)
    | Opens                          // `connect`'s opening send moves on
    | Close                          // `close`, or the last handle dropped
    | Announces                      // the winner of the swap moves on
    | ServerReads
    | ServerAnswers(n: nat)          // one update for any number of the requests it holds
    | ServerVolunteers

  predicate Can(s: State, t: Step) {
    match t
    case ByReader(r) => ReaderCan(s, r)
    case ByWriter(w) => WriterCan(s, w)
    case ByCall(id, c) => CallCan(s, id, c)
    case Opens => !s.opener.Returned?
    case Close => s.opener.Returned?
    case Announces => s.shared.death.Swapped? || s.shared.death.Announced?
    case ServerReads => s.net.wire > 0
    case ServerAnswers(n) => 0 < n <= s.net.pending
    case ServerVolunteers => true
  }

  function OpenerDo(s: State): State {
    match s.opener
    case Loading => s.(opener := if s.Connected() then Counting else Returned)
    case Counting => s.(shared := s.shared.(outstanding := s.shared.outstanding + 1),
        past := s.past.(foreign := s.past.foreign + 1), opener := Pushing)
    case Pushing => Push(s, Request(true)).(opener := Returned)
    case Returned => s
  }

  function Moved(s: State, t: Step): State
    requires Can(s, t)
  {
    match t
    case ByReader(r) => ReaderDo(s, r)
    case ByWriter(w) => WriterDo(s, w)
    case ByCall(id, c) => CallDo(s, id, c)
    case Opens => OpenerDo(s)
    case Close => Kill(s)
    case Announces =>
      if s.shared.death.Swapped? then Emit(s.(shared := s.shared.(death := Announced)), Disconnected)
          else s.(shared := s.shared.(death := Shut))
    case ServerReads => s.(net := s.net.(wire := s.net.wire - 1, pending := s.net.pending + 1))
    case ServerAnswers(n) => s.(net := s.net.(pending := s.net.pending - n, transit := s.net.transit + 1))
    case ServerVolunteers => s.(net := s.net.(transit := s.net.transit + 1))
  }

  function Do(s: State, t: Step): State
    requires Can(s, t)
  {
    Tick(Moved(s, t))
  }

  predicate CanRun(s: State, steps: seq<Step>)
    decreases |steps|
  {
    |steps| == 0 || (Can(s, steps[0]) && CanRun(Do(s, steps[0]), steps[1..]))
  }

  function After(s: State, steps: seq<Step>): State
    requires CanRun(s, steps)
    decreases |steps|
  {
    if |steps| == 0 then s else After(Do(s, steps[0]), steps[1..])
  }

  /** Runs compose. */
  lemma {:induction false} RunsJoin(s: State, a: seq<Step>, b: seq<Step>)
    requires CanRun(s, a) && CanRun(After(s, a), b)
    ensures CanRun(s, a + b) && After(s, a + b) == After(After(s, a), b)
    decreases |a|
  {
    hide Can, Do;
    if |a| == 0 {
      assert a + b == b;
    } else {
      assert (a + b)[1..] == a[1..] + b;
      RunsJoin(Do(s, a[0]), a[1..], b);
    }
  }

  // ---------------------------------------------------------------- who is where

  /** A task has failed and is about to say so. */
  predicate Failed(s: State) {
    s.reader.Failing? || s.writer.WriteFailed?
  }

  /** Tasks only stop once the session is dead. */
  predicate Stops(s: State) {
    && (s.reader.Stopped? ==> !s.Connected())
    && (s.writer.WriterStopped? ==> !s.Connected())
  }

  lemma StopsKept(s: State, t: Step)
    requires Stops(s) && Can(s, t)
    ensures Stops(Do(s, t))
  {
    hide CallDo, ReaderDo, WriterDo;
    match t
    case ByReader(r) => ReaderStops(s, r);
    case ByWriter(w) => WriterStops(s, w);
    case _ =>
  }

  lemma ReaderStops(s: State, t: ReaderStep)
    requires Stops(s) && ReaderCan(s, t)
    ensures Stops(ReaderDo(s, t))
  {
  }

  lemma WriterStops(s: State, t: WriterStep)
    requires Stops(s) && WriterCan(s, t)
    ensures Stops(WriterDo(s, t))
  {
  }

  /** The reader has begun an update and not yet finished with it. */
  predicate InUpdate(r: Reader) {
    !r.Idle? && !r.Failing? && !r.Stopped?
  }

  /** The update the read loop is in has had all its rects applied. */
  predicate PastRects(r: Reader) {
    InUpdate(r) && !r.Rects? && !r.StoringFull? && !r.EmittingResized?
  }
}
