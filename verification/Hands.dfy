/** One pair of hands: what plans do to the pointer and the keyboard, and any number of requests taking
    turns behind one lock. */
module Hands {
  import opened Bytes
  import opened Text
  import opened Drags
  import opened Actions
  import Chord

  // ---------------------------------------------------------------- the pointer and the keyboard

  /** Where the pointer was last put, which buttons are down, and which keys, oldest press first. */
  datatype Feel = Feel(pointer: Option<(u16, u16)>, buttons: byte, keys: seq<u32>)

  /** Nothing is being held. */
  predicate Empty(f: Feel) {
    f.buttons == 0 && f.keys == []
  }

  /** One operation on the desktop, or `None` for one that lands wrong: a button pressed anywhere but
      where the previous pointer event left the pointer, or a key released that was not the latest
      one pressed. */
  function Touch(f: Feel, op: RfbOp): Option<Feel> {
    match op
    case Pointer(x, y, buttons) =>
      if BitAnd(buttons, f.buttons) != buttons && f.pointer != Some((x, y)) then None
      else Some(Feel(Some((x, y)), buttons, f.keys))
    case Key(keysym, true) => Some(f.(keys := f.keys + [keysym]))
    case Key(keysym, false) =>
      if |f.keys| == 0 || f.keys[|f.keys| - 1] != keysym then None
      else Some(f.(keys := f.keys[..|f.keys| - 1]))
    case Sleep(_) => Some(f)
  }

  function TouchAll(f: Feel, ops: seq<RfbOp>): Option<Feel>
    decreases |ops|
  {
    if |ops| == 0 then Some(f)
    else match TouchAll(f, ops[..|ops| - 1]) case None => None case Some(g) => Touch(g, ops[|ops| - 1])
  }

  lemma {:induction false} TouchJoin(f: Feel, a: seq<RfbOp>, b: seq<RfbOp>)
    ensures TouchAll(f, a + b) == match TouchAll(f, a) case None => None case Some(g) => TouchAll(g, b)
    decreases |b|
  {
    hide Touch;
    if |b| == 0 {
      assert a + b == a;
    } else {
      assert (a + b)[..|a + b| - 1] == a + b[..|b| - 1];
      TouchJoin(f, a, b[..|b| - 1]);
    }
  }

  lemma TouchOne(f: Feel, op: RfbOp)
    ensures TouchAll(f, [op]) == Touch(f, op)
  {
    assert [op][..0] == [];
    assert TouchAll(f, []) == Some(f);
  }

  /** Two states that hold the same keys, the second with no button down that the first did not have. */
  predicate HoldsNoMore(f: Feel, g: Feel) {
    g.keys == f.keys && (f.buttons == 0 ==> g.buttons == 0)
  }

  /** A plan is well behaved: whatever is held when it begins, it never lands wrong, and it ends holding
      the same keys and, if it began with no button down, none. */
  ghost predicate WellBehaved(ops: seq<RfbOp>) {
    forall f: Feel :: TouchAll(f, ops).Some? && HoldsNoMore(f, TouchAll(f, ops).value)
  }

  lemma {:induction false} AndSelf(a: nat)
    ensures BitAnd(a, a) == a
  {
    if a > 0 { AndSelf(a / 2); }
  }

  lemma AndZero(a: nat)
    ensures BitAnd(0, a) == 0
  {
  }

  // ---------------------------------------------------------------- every plan is well behaved

  lemma {:induction false} PressesTouch(f: Feel, x: u16, y: u16, buttons: byte, count: nat)
    requires f.pointer == Some((x, y)) && f.buttons == 0
    ensures TouchAll(f, Presses(x, y, buttons, count)) == Some(f)
  {
    if count > 0 {
      PressesTouch(f, x, y, buttons, count - 1);
      var press, release := Pointer(x, y, buttons), Pointer(x, y, 0);
      TouchJoin(f, Presses(x, y, buttons, count - 1), [press, release]);
      AndZero(buttons);
      TouchPair(f, press, release);
    }
  }

  lemma TouchPair(f: Feel, a: RfbOp, b: RfbOp)
    ensures TouchAll(f, [a, b]) == match Touch(f, a) case None => None case Some(g) => Touch(g, b)
  {
    assert [a, b] == [a] + [b];
    TouchJoin(f, [a], [b]);
    TouchOne(f, a);
    if Touch(f, a).Some? { TouchOne(Touch(f, a).value, b); }
  }

  lemma ClicksBehave(x: u16, y: u16, buttons: byte, count: nat)
    ensures WellBehaved(Clicks(x, y, buttons, count))
  {
    forall f: Feel
      ensures TouchAll(f, Clicks(x, y, buttons, count)).Some?
           && HoldsNoMore(f, TouchAll(f, Clicks(x, y, buttons, count)).value)
    {
      var there := Feel(Some((x, y)), 0, f.keys);
      TouchJoin(f, [Pointer(x, y, 0)], Presses(x, y, buttons, count));
      TouchOne(f, Pointer(x, y, 0));
      AndZero(f.buttons);
      PressesTouch(there, x, y, buttons, count);
    }
  }

  lemma PauseTouch(f: Feel, ms: nat)
    ensures TouchAll(f, Pause(ms)) == Some(f)
  {
    if ms > 0 { TouchOne(f, Sleep(ms)); }
  }

  /** Held moves move the pointer and hold the button. */
  lemma {:induction false} WalkTouch(f: Feel, sx: u16, sy: u16, ex: u16, ey: u16, i: nat, n: nat, stepMs: nat)
    requires n > 0 && f.buttons == LEFT
    ensures TouchAll(f, Walk(sx, sy, ex, ey, i, n, stepMs))
         == Some(if i == 0 then f else f.(pointer := Some((Along(sx, ex, i, n), Along(sy, ey, i, n)))))
    decreases i
  {
    hide Along;
    if i > 0 {
      WalkTouch(f, sx, sy, ex, ey, i - 1, n, stepMs);
      var before := Walk(sx, sy, ex, ey, i - 1, n, stepMs);
      var rest := if i > 1 then Pause(stepMs) else [];
      var move := Pointer(Along(sx, ex, i, n), Along(sy, ey, i, n), LEFT);
      var g := TouchAll(f, before).value;
      TouchJoin(f, before, rest);
      PauseTouch(g, stepMs);
      TouchJoin(f, before + rest, [move]);
      TouchOne(g, move);
      AndSelf(LEFT);
    }
  }

  /** A drag ends with no button down, and where it was asked to end. */
  lemma DragTouch(f: Feel, sx: u16, sy: u16, ex: u16, ey: u16, p: DragPacing)
    ensures TouchAll(f, DragOps(sx, sy, ex, ey, p)) == Some(Feel(Some((ex, ey)), 0, f.keys))
  {
    hide Along, Touch, TouchAll, Walk;
    var press := [Pointer(sx, sy, 0), Pointer(sx, sy, LEFT)];
    var walk := Walk(sx, sy, ex, ey, Steps(p), Steps(p), p.stepMs);
    var down := Feel(Some((sx, sy)), LEFT, f.keys);
    PressTouch(f, sx, sy);
    TouchJoin(f, press, Pause(p.dwellMs));
    PauseTouch(down, p.dwellMs);
    WalkTouch(down, sx, sy, ex, ey, Steps(p), Steps(p), p.stepMs);
    TouchJoin(f, press + Pause(p.dwellMs), walk);
    PointOnTheLine(sx, ex, Steps(p), Steps(p));
    PointOnTheLine(sy, ey, Steps(p), Steps(p));
    var held := Feel(Some((ex, ey)), LEFT, f.keys);
    TouchJoin(f, press + Pause(p.dwellMs) + walk, Pause(p.dwellMs));
    PauseTouch(held, p.dwellMs);
    TouchJoin(f, press + Pause(p.dwellMs) + walk + Pause(p.dwellMs), [Pointer(ex, ey, 0)]);
    ReleaseTouch(held, ex, ey);
  }

  lemma PressTouch(f: Feel, sx: u16, sy: u16)
    ensures TouchAll(f, [Pointer(sx, sy, 0), Pointer(sx, sy, LEFT)]) == Some(Feel(Some((sx, sy)), LEFT, f.keys))
  {
    TouchPair(f, Pointer(sx, sy, 0), Pointer(sx, sy, LEFT));
    AndZero(f.buttons);
  }

  lemma ReleaseTouch(f: Feel, x: u16, y: u16)
    ensures TouchAll(f, [Pointer(x, y, 0)]) == Some(Feel(Some((x, y)), 0, f.keys))
  {
    TouchOne(f, Pointer(x, y, 0));
    AndZero(f.buttons);
  }

  lemma {:induction false} TypeTouch(keysymFor: Chord.Lookup, f: Feel, text: string)
    requires TypeOps(keysymFor, text).Ok?
    ensures TouchAll(f, TypeOps(keysymFor, text).ops) == Some(f)
  {
    hide KeysymForTyped;
    if |text| > 0 {
      var k := KeysymForTyped(keysymFor, text[0]).value;
      TypeTouch(keysymFor, f, text[1..]);
      TouchPair(f, Key(k, true), Key(k, false));
      assert (f.keys + [k])[..|f.keys|] == f.keys;
      TouchJoin(f, [Key(k, true), Key(k, false)], TypeOps(keysymFor, text[1..]).ops);
    }
  }

  lemma {:induction false} DownsTouch(f: Feel, syms: seq<u32>)
    ensures TouchAll(f, Downs(syms)) == Some(f.(keys := f.keys + syms))
  {
    if |syms| == 0 {
      assert f.keys + [] == f.keys;
    } else {
      var fewer, last := syms[..|syms| - 1], syms[|syms| - 1];
      DownsTouch(f, fewer);
      TouchJoin(f, Downs(fewer), [Key(last, true)]);
      TouchOne(f.(keys := f.keys + fewer), Key(last, true));
      assert fewer + [last] == syms;
      assert f.keys + fewer + [last] == f.keys + syms;
    }
  }

  lemma {:induction false} UpsTouch(f: Feel, syms: seq<u32>)
    ensures TouchAll(f.(keys := f.keys + syms), Ups(syms)) == Some(f)
  {
    if |syms| == 0 {
      assert f.keys + [] == f.keys;
    } else {
      var fewer, last := syms[..|syms| - 1], syms[|syms| - 1];
      UpsTouch(f, fewer);
      var g := f.(keys := f.keys + syms);
      TouchJoin(g, [Key(last, false)], Ups(fewer));
      TouchOne(g, Key(last, false));
      assert g.keys[..|g.keys| - 1] == f.keys + fewer;
    }
  }

  /** A chord's releases undo its presses, innermost first. */
  lemma ChordTouch(f: Feel, syms: seq<u32>)
    ensures TouchAll(f, Downs(syms) + Ups(syms)) == Some(f)
  {
    TouchJoin(f, Downs(syms), Ups(syms));
    DownsTouch(f, syms);
    UpsTouch(f, syms);
  }

  lemma TypeBehaves(keysymFor: Chord.Lookup, text: string)
    requires TypeOps(keysymFor, text).Ok?
    ensures WellBehaved(TypeOps(keysymFor, text).ops)
  {
    forall f: Feel
      ensures TouchAll(f, TypeOps(keysymFor, text).ops).Some?
           && HoldsNoMore(f, TouchAll(f, TypeOps(keysymFor, text).ops).value)
    {
      TypeTouch(keysymFor, f, text);
    }
  }

  lemma ChordBehaves(syms: seq<u32>)
    ensures WellBehaved(Downs(syms) + Ups(syms))
  {
    forall f: Feel
      ensures TouchAll(f, Downs(syms) + Ups(syms)).Some? && HoldsNoMore(f, TouchAll(f, Downs(syms) + Ups(syms)).value)
    {
      ChordTouch(f, syms);
    }
  }

  lemma DragBehaves(sx: u16, sy: u16, ex: u16, ey: u16, p: DragPacing)
    ensures WellBehaved(DragOps(sx, sy, ex, ey, p))
  {
    hide DragOps;
    forall f: Feel
      ensures TouchAll(f, DragOps(sx, sy, ex, ey, p)).Some?
           && HoldsNoMore(f, TouchAll(f, DragOps(sx, sy, ex, ey, p)).value)
    {
      DragTouch(f, sx, sy, ex, ey, p);
    }
  }

  lemma ShortBehaves()
    ensures WellBehaved([])
    ensures forall x, y :: WellBehaved([Pointer(x, y, 0)])
    ensures forall ms :: WellBehaved([Sleep(ms)])
  {
    forall x, y, f: Feel
      ensures TouchAll(f, [Pointer(x, y, 0)]).Some? && HoldsNoMore(f, TouchAll(f, [Pointer(x, y, 0)]).value)
    {
      ReleaseTouch(f, x, y);
    }
    forall ms, f: Feel ensures TouchAll(f, [Sleep(ms)]).Some? && HoldsNoMore(f, TouchAll(f, [Sleep(ms)]).value) {
      TouchOne(f, Sleep(ms));
    }
  }

  /** Whatever the action and the screen, and whatever was held before, a plan presses only where the
      pointer already is, releases keys in the reverse of the order they were pressed, and adds nothing
      to what is held. */
  lemma PlanBehaves(keysymFor: Chord.Lookup, a: Action, ctx: Context)
    ensures match PlanFor(keysymFor, a, ctx) case Ok(ops) => WellBehaved(ops) case Err(_) => true
  {
    hide WellBehaved, DragOps, Clicks, TypeOps;
    match a
    case LeftClick(at) => if OnScreen(ctx, at) { ClicksBehave(at.x, at.y, LEFT, 1); }
    case RightClick(at) => if OnScreen(ctx, at) { ClicksBehave(at.x, at.y, RIGHT, 1); }
    case MiddleClick(at) => if OnScreen(ctx, at) { ClicksBehave(at.x, at.y, MIDDLE, 1); }
    case DoubleClick(at) => if OnScreen(ctx, at) { ClicksBehave(at.x, at.y, LEFT, 2); }
    case TripleClick(at) => if OnScreen(ctx, at) { ClicksBehave(at.x, at.y, LEFT, 3); }
    case LeftClickDrag(start, at) =>
      if OnScreen(ctx, start) && OnScreen(ctx, at) { DragBehaves(start.x, start.y, at.x, at.y, ctx.drag); }
    case Scroll(at, up, amount) =>
      ShortBehaves();
      if OnScreen(ctx, at) { ClicksBehave(at.x, at.y, Wheel(up), amount); }
    case Type(text) => if TypeOps(keysymFor, text).Ok? { TypeBehaves(keysymFor, text); }
    case Chord(text) =>
      match Chord.ParseSegments(keysymFor, Split(text, '+')) {
        case UnknownKey(_) =>
        case Ok(syms) => ChordBehaves(syms);
      }
    case _ => ShortBehaves();
  }

  // ---------------------------------------------------------------- executing a plan

  /** Where the last pointer event among `ops` put the cursor. */
  function CursorAfter(cursor: (int, int), ops: seq<RfbOp>): (int, int) {
    if |ops| == 0 then cursor
    else if ops[|ops| - 1].Pointer? then (ops[|ops| - 1].x, ops[|ops| - 1].y)
    else CursorAfter(cursor, ops[..|ops| - 1])
  }

  /** A session that takes so many more operations before it fails, and what it has been sent. */
  class Desk {
    var log: seq<RfbOp>
    var patience: nat
    var cursor: (int, int)

    constructor (patience: nat)
      ensures log == [] && cursor == (0, 0) && this.patience == patience
    {
      log := [];
      cursor := (0, 0);
      this.patience := patience;
    }

    method Send(op: RfbOp) returns (ok: bool)
      modifies this`log, this`patience
      ensures ok == (old(patience) > 0)
      ensures ok ==> log == old(log) + [op] && patience == old(patience) - 1
      ensures !ok ==> log == old(log) && patience == old(patience)
    {
      ok := patience > 0;
      if ok {
        log := log + [op];
        patience := patience - 1;
      }
    }

    /** `execute`: op by op, stopping at the first failure; the cursor follows every pointer event that
        went out, those before a failure included. Sleeps cannot fail; the log keeps them too. */
    method Execute(ops: seq<RfbOp>) returns (done: nat)
      modifies this`log, this`patience, this`cursor
      ensures done <= |ops| && log == old(log) + ops[..done]
      ensures cursor == CursorAfter(old(cursor), ops[..done])
      ensures done < |ops| ==> !ops[done].Sleep? && patience == 0
    {
      done := 0;
      assert ops[..0] == [];
      while done < |ops|
        decreases |ops| - done
        invariant done <= |ops| && log == old(log) + ops[..done]
        invariant cursor == CursorAfter(old(cursor), ops[..done])
      {
        var op := ops[done];
        assert ops[..done + 1] == ops[..done] + [op];
        assert ops[..done + 1][..done] == ops[..done];
        if op.Sleep? {
          log := log + [op];
        } else {
          var ok := Send(op);
          if !ok {
            return;
          }
          if op.Pointer? {
            cursor := (op.x, op.y);
          }
        }
        done := done + 1;
      }
    }
  }

  // ---------------------------------------------------------------- many requests, one lock

  /** Whose plan it is, the plan, the screen it was made for, and how much of it has been sent. */
  datatype Turn = Turn(id: nat, ops: seq<RfbOp>, ctx: Context, sent: nat)
  {
    predicate Bounded() { sent <= |ops| }

    /** What reached the desktop. */
    function Sent(): seq<RfbOp>
      requires Bounded()
    {
      ops[..sent]
    }

    /** The plan went out to its end. */
    predicate Whole() { sent == |ops| }
  }

  datatype Request = Planned(turn: Turn) | Acting(turn: Turn) | Finished

  /** `turns` are the requests that have had the lock and let it go, in that order. */
  datatype World = World(log: seq<RfbOp>, cursor: (int, int), holder: Option<nat>, requests: map<nat, Request>,
      turns: seq<Turn>)

  /** A request is planned against the size of the moment, waits for the lock, sends its operations one
      at a time, and lets the lock go: at the end of its plan, or before it when an operation fails or
      the request is dropped. Requests interleave in every way the lock allows. */
  datatype Move =
    | Arrive(id: nat, action: Action, ctx: Context)
    | Lock(id: nat)
    | SendNext(id: nat)
    | Unlock(id: nat)

  predicate Allowed(keysymFor: Chord.Lookup, w: World, m: Move) {
    match m
    case Arrive(id, a, ctx) => id !in w.requests && PlanFor(keysymFor, a, ctx).Ok?
    case Lock(id) => w.holder == None && id in w.requests && w.requests[id].Planned?
    case SendNext(id) =>
      id in w.requests && w.requests[id].Acting? && w.requests[id].turn.sent < |w.requests[id].turn.ops|
    case Unlock(id) => id in w.requests && w.requests[id].Acting?
  }

  function Next(keysymFor: Chord.Lookup, w: World, m: Move): World
    requires Allowed(keysymFor, w, m)
  {
    match m
    case Arrive(id, a, ctx) =>
      w.(requests := w.requests[id := Planned(Turn(id, PlanFor(keysymFor, a, ctx).ops, ctx, 0))])
    case Lock(id) => w.(holder := Some(id), requests := w.requests[id := Acting(w.requests[id].turn)])
    case SendNext(id) =>
      var t := w.requests[id].turn;
      var op := t.ops[t.sent];
      w.(log := w.log + [op], cursor := if op.Pointer? then (op.x, op.y) else w.cursor,
         requests := w.requests[id := Acting(t.(sent := t.sent + 1))])
    case Unlock(id) =>
      w.(holder := None, turns := w.turns + [w.requests[id].turn], requests := w.requests[id := Finished])
  }

  function Opening(): World {
    World([], (0, 0), None, map[], [])
  }

  predicate AllBounded(turns: seq<Turn>) {
    forall i :: 0 <= i < |turns| ==> turns[i].Bounded()
  }

  predicate AllWhole(turns: seq<Turn>) {
    forall i :: 0 <= i < |turns| ==> turns[i].Whole()
  }

  /** What a list of turns sent, one after another. */
  function Concat(turns: seq<Turn>): seq<RfbOp>
    requires AllBounded(turns)
  {
    if |turns| == 0 then [] else Concat(turns[..|turns| - 1]) + turns[|turns| - 1].Sent()
  }

  lemma ConcatOneMore(turns: seq<Turn>, t: Turn)
    requires AllBounded(turns) && t.Bounded()
    ensures Concat(turns + [t]) == Concat(turns) + t.Sent()
  {
    assert (turns + [t])[..|turns|] == turns;
  }

  lemma ConcatNothing()
    ensures Concat([]) == []
  {
  }

  lemma CursorOneMore(cursor: (int, int), ops: seq<RfbOp>, op: RfbOp)
    ensures CursorAfter(cursor, ops + [op]) == if op.Pointer? then (op.x, op.y) else CursorAfter(cursor, ops)
  {
    assert (ops + [op])[..|ops|] == ops;
  }

  /** The lock's holder, if there is one, is acting, and nobody else is. */
  predicate LockHeld(w: World) {
    && (forall id :: id in w.requests && w.requests[id].Acting? ==> w.holder == Some(id))
    && (w.holder.Some? ==> w.holder.value in w.requests && w.requests[w.holder.value].Acting?)
  }

  /** What the holder of the lock has sent so far. */
  function InHand(w: World): seq<RfbOp>
    requires LockHeld(w) && (w.holder.Some? ==> w.requests[w.holder.value].turn.Bounded())
  {
    if w.holder.Some? then w.requests[w.holder.value].turn.Sent() else []
  }

  /** A plan does no harm and stays on the screen it was made for. */
  ghost predicate Sound(t: Turn) {
    t.Bounded() && WellBehaved(t.ops) && Inside(t.ops, t.ctx)
  }

  ghost predicate AllSound(w: World) {
    && (forall i :: 0 <= i < |w.turns| ==> Sound(w.turns[i]))
    && (forall id :: id in w.requests && !w.requests[id].Finished? ==> Sound(w.requests[id].turn))
    && (forall id :: id in w.requests && w.requests[id].Planned? ==> w.requests[id].turn.sent == 0)
  }

  lemma SoundIsBounded(w: World)
    requires AllSound(w)
    ensures AllBounded(w.turns)
    ensures forall id :: id in w.requests && !w.requests[id].Finished? ==> w.requests[id].turn.Bounded()
  {
    hide WellBehaved, Inside;
  }

  ghost predicate Orderly(w: World) {
    LockHeld(w) && AllSound(w) &&
    (SoundIsBounded(w);
     w.log == Concat(w.turns) + InHand(w) && w.cursor == CursorAfter((0, 0), w.log))
  }

  lemma OrderlyKept(keysymFor: Chord.Lookup, w: World, m: Move)
    requires Orderly(w) && Allowed(keysymFor, w, m)
    ensures Orderly(Next(keysymFor, w, m))
  {
    match m
    case Arrive(id, a, ctx) => ArriveOrderly(keysymFor, w, id, a, ctx);
    case Lock(id) => LockOrderly(keysymFor, w, id);
    case SendNext(id) => SendOrderly(keysymFor, w, id);
    case Unlock(id) => UnlockOrderly(keysymFor, w, id);
  }

  lemma ArriveOrderly(keysymFor: Chord.Lookup, w: World, id: nat, a: Action, ctx: Context)
    requires Orderly(w) && Allowed(keysymFor, w, Arrive(id, a, ctx))
    ensures Orderly(Next(keysymFor, w, Arrive(id, a, ctx)))
  {
    hide WellBehaved, PlanFor, Inside, Concat, CursorAfter;
    PlanBehaves(keysymFor, a, ctx);
    PlanIsInside(keysymFor, a, ctx);
    var n := Next(keysymFor, w, Arrive(id, a, ctx));
    SoundIsBounded(w);
    SoundIsBounded(n);
    assert InHand(n) == InHand(w);
  }

  lemma LockOrderly(keysymFor: Chord.Lookup, w: World, id: nat)
    requires Orderly(w) && Allowed(keysymFor, w, Lock(id))
    ensures Orderly(Next(keysymFor, w, Lock(id)))
  {
    hide Sound, PlanFor, Concat, CursorAfter;
    var n := Next(keysymFor, w, Lock(id));
    SoundIsBounded(w);
    SoundIsBounded(n);
    assert InHand(w) == [] == InHand(n);
  }

  lemma SendOrderly(keysymFor: Chord.Lookup, w: World, id: nat)
    requires Orderly(w) && Allowed(keysymFor, w, SendNext(id))
    ensures Orderly(Next(keysymFor, w, SendNext(id)))
  {
    hide Sound, PlanFor, Concat, CursorAfter;
    var n := Next(keysymFor, w, SendNext(id));
    var t := w.requests[id].turn;
    var op := t.ops[t.sent];
    OneMoreSent(t);
    SoundIsBounded(w);
    SoundIsBounded(n);
    assert InHand(w) == t.Sent() && InHand(n) == t.Sent() + [op];
    Regroup(Concat(w.turns), t.Sent(), [op]);
    CursorOneMore((0, 0), w.log, op);
  }

  lemma OneMoreSent(t: Turn)
    requires Sound(t) && t.sent < |t.ops|
    ensures var u := t.(sent := t.sent + 1); Sound(u) && u.Sent() == t.Sent() + [t.ops[t.sent]]
  {
    hide WellBehaved, Inside;
  }

  lemma UnlockOrderly(keysymFor: Chord.Lookup, w: World, id: nat)
    requires Orderly(w) && Allowed(keysymFor, w, Unlock(id))
    ensures Orderly(Next(keysymFor, w, Unlock(id)))
  {
    hide Sound, PlanFor, Concat, CursorAfter;
    var n := Next(keysymFor, w, Unlock(id));
    var t := w.requests[id].turn;
    SoundIsBounded(w);
    SoundIsBounded(n);
    assert InHand(w) == t.Sent() && InHand(n) == [];
    ConcatOneMore(w.turns, t);
    assert Concat(n.turns) + [] == Concat(n.turns);
  }

  predicate CanRun(keysymFor: Chord.Lookup, w: World, moves: seq<Move>)
    decreases |moves|
  {
    |moves| == 0 || (Allowed(keysymFor, w, moves[0]) && CanRun(keysymFor, Next(keysymFor, w, moves[0]), moves[1..]))
  }

  function After(keysymFor: Chord.Lookup, w: World, moves: seq<Move>): World
    requires CanRun(keysymFor, w, moves)
    decreases |moves|
  {
    if |moves| == 0 then w else After(keysymFor, Next(keysymFor, w, moves[0]), moves[1..])
  }

  lemma {:induction false} RunOrderly(keysymFor: Chord.Lookup, w: World, moves: seq<Move>)
    requires Orderly(w) && CanRun(keysymFor, w, moves)
    ensures Orderly(After(keysymFor, w, moves))
    decreases |moves|
  {
    hide Orderly, Allowed, Next;
    if |moves| > 0 {
      OrderlyKept(keysymFor, w, moves[0]);
      RunOrderly(keysymFor, Next(keysymFor, w, moves[0]), moves[1..]);
    }
  }

  // ---------------------------------------------------------------- whose turn it was

  /** The turn is the plan of a request that arrived, made for the screen it arrived to. */
  ghost predicate Theirs(keysymFor: Chord.Lookup, moves: seq<Move>, t: Turn) {
    exists k, a :: 0 <= k < |moves| && moves[k] == Arrive(t.id, a, t.ctx) && PlanFor(keysymFor, a, t.ctx) == Ok(t.ops)
  }

  /** Every turn is its own request's, and no request has two. */
  ghost predicate EachItsOwn(keysymFor: Chord.Lookup, moves: seq<Move>, w: World) {
    && (forall id :: id in w.requests && !w.requests[id].Finished? ==>
          w.requests[id].turn.id == id && Theirs(keysymFor, moves, w.requests[id].turn))
    && (forall i :: 0 <= i < |w.turns| ==>
          && Theirs(keysymFor, moves, w.turns[i])
          && w.turns[i].id in w.requests && w.requests[w.turns[i].id].Finished?)
    && (forall i, j :: 0 <= i < j < |w.turns| ==> w.turns[i].id != w.turns[j].id)
  }

  lemma StillTheirs(keysymFor: Chord.Lookup, moves: seq<Move>, m: Move, t: Turn)
    requires Theirs(keysymFor, moves, t)
    ensures Theirs(keysymFor, moves + [m], t)
  {
    var k, a :| 0 <= k < |moves| && moves[k] == Arrive(t.id, a, t.ctx) && PlanFor(keysymFor, a, t.ctx) == Ok(t.ops);
    assert (moves + [m])[k] == Arrive(t.id, a, t.ctx);
  }

  lemma SentIsTheirs(keysymFor: Chord.Lookup, moves: seq<Move>, t: Turn, sent: nat)
    requires Theirs(keysymFor, moves, t)
    ensures Theirs(keysymFor, moves, t.(sent := sent))
  {
    var k, a :| 0 <= k < |moves| && moves[k] == Arrive(t.id, a, t.ctx) && PlanFor(keysymFor, a, t.ctx) == Ok(t.ops);
  }

  lemma ItsOwnKept(keysymFor: Chord.Lookup, past: seq<Move>, w: World, m: Move)
    requires EachItsOwn(keysymFor, past, w) && Allowed(keysymFor, w, m)
    ensures EachItsOwn(keysymFor, past + [m], Next(keysymFor, w, m))
  {
    var n := Next(keysymFor, w, m);
    var all := past + [m];
    if m.Arrive? {
      assert all[|past|] == m;
      assert Theirs(keysymFor, all, n.requests[m.id].turn);
    } else if m.SendNext? {
      SentIsTheirs(keysymFor, past, w.requests[m.id].turn, w.requests[m.id].turn.sent + 1);
    }
    hide PlanFor, Theirs;
    forall id | id in n.requests && !n.requests[id].Finished? ensures Theirs(keysymFor, all, n.requests[id].turn) {
      if !(m.Arrive? && m.id == id) { StillTheirs(keysymFor, past, m, n.requests[id].turn); }
    }
    forall i | 0 <= i < |n.turns| ensures Theirs(keysymFor, all, n.turns[i]) {
      StillTheirs(keysymFor, past, m, n.turns[i]);
    }
  }

  lemma {:induction false} RunItsOwn(keysymFor: Chord.Lookup, past: seq<Move>, w: World, moves: seq<Move>)
    requires EachItsOwn(keysymFor, past, w) && CanRun(keysymFor, w, moves)
    ensures EachItsOwn(keysymFor, past + moves, After(keysymFor, w, moves))
    decreases |moves|
  {
    hide EachItsOwn, Allowed, Next;
    if |moves| == 0 {
      assert past + [] == past;
    } else {
      ItsOwnKept(keysymFor, past, w, moves[0]);
      RunItsOwn(keysymFor, past + [moves[0]], Next(keysymFor, w, moves[0]), moves[1..]);
      assert past + [moves[0]] + moves[1..] == past + moves;
    }
  }

  // ---------------------------------------------------------------- what the desktop feels

  /** A plan cut anywhere lands right as far as it went; a whole one adds nothing to what is held. */
  lemma TurnTouch(f: Feel, t: Turn)
    requires Sound(t)
    ensures TouchAll(f, t.Sent()).Some?
    ensures t.Whole() ==> HoldsNoMore(f, TouchAll(f, t.Sent()).value)
  {
    hide TouchAll, Inside;
    assert t.Sent() + t.ops[t.sent..] == t.ops;
    TouchJoin(f, t.Sent(), t.ops[t.sent..]);
    assert t.Whole() ==> t.Sent() == t.ops;
  }

  lemma {:induction false} TurnsTouch(f: Feel, turns: seq<Turn>)
    requires AllBounded(turns) && forall i :: 0 <= i < |turns| ==> Sound(turns[i])
    ensures TouchAll(f, Concat(turns)).Some?
    ensures AllWhole(turns) ==> HoldsNoMore(f, TouchAll(f, Concat(turns)).value)
  {
    hide TouchAll, WellBehaved, Inside;
    if |turns| == 0 {
      TouchNothing(f);
    } else {
      var fewer, last := turns[..|turns| - 1], turns[|turns| - 1];
      TurnsTouch(f, fewer);
      TouchJoin(f, Concat(fewer), last.Sent());
      assert Sound(last);
      TurnTouch(TouchAll(f, Concat(fewer)).value, last);
    }
  }

  lemma TouchNothing(f: Feel)
    ensures TouchAll(f, []) == Some(f)
  {
  }

  const AT_REST: Feel := Feel(None, 0, [])

  /** However requests interleave, and wherever operations fail or requests are dropped: what reached the
      desktop is each lock holder's own plan, made of the action it arrived with, cut at most at its end, in
      the order they took the lock, one turn a request; nothing ever landed wrong, not even after a plan that
      was cut; every turn stayed on the screen its plan was made for; the cursor record is the last pointer
      event; and while the lock is free nothing is held, unless some plan was cut. */
  lemma OnePairOfHands(keysymFor: Chord.Lookup, moves: seq<Move>)
    requires CanRun(keysymFor, Opening(), moves)
    ensures var w := After(keysymFor, Opening(), moves);
      && LockHeld(w) && AllBounded(w.turns) && (w.holder.Some? ==> w.requests[w.holder.value].turn.Bounded())
      && w.log == Concat(w.turns) + InHand(w) && EachItsOwn(keysymFor, moves, w)
      && w.cursor == CursorAfter((0, 0), w.log)
      && TouchAll(AT_REST, w.log).Some?
      && (forall i :: 0 <= i < |w.turns| ==> Inside(w.turns[i].Sent(), w.turns[i].ctx))
      && (w.holder.Some? ==> Inside(InHand(w), w.requests[w.holder.value].turn.ctx))
      && (w.holder == None && AllWhole(w.turns) ==> Empty(TouchAll(AT_REST, w.log).value))
  {
    hide CanRun, After, TouchAll, WellBehaved, Concat, Inside, Theirs;
    ConcatNothing();
    RunOrderly(keysymFor, Opening(), moves);
    RunItsOwn(keysymFor, [], Opening(), moves);
    assert [] + moves == moves;
    var w := After(keysymFor, Opening(), moves);
    SoundIsBounded(w);
    TurnsTouch(AT_REST, w.turns);
    forall i | 0 <= i < |w.turns| ensures Inside(w.turns[i].Sent(), w.turns[i].ctx) {
      assert Sound(w.turns[i]);
      InsidePrefix(w.turns[i].ops, w.turns[i].sent, w.turns[i].ctx);
    }
    TouchJoin(AT_REST, Concat(w.turns), InHand(w));
    if w.holder.Some? {
      var t := w.requests[w.holder.value].turn;
      InsidePrefix(t.ops, t.sent, t.ctx);
      TurnTouch(TouchAll(AT_REST, Concat(w.turns)).value, t);
    } else {
      TouchNothing(TouchAll(AT_REST, Concat(w.turns)).value);
    }
  }

  lemma InsidePrefix(ops: seq<RfbOp>, k: nat, ctx: Context)
    requires Inside(ops, ctx) && k <= |ops|
    ensures Inside(ops[..k], ctx)
  {
  }
}
