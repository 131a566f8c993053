/** What each action's plan does, said of the action itself: which points the pointer visits and for how
    long, which keysyms are pressed, how long it takes, and exactly which actions are refused. */
module Plans {
  import opened Bytes
  import opened Text
  import opened Drags
  import opened Actions
  import Chord

  // ---------------------------------------------------------------- where the pointer goes, and for how long

  /** Every pointer event, and how long the plan rests before the next one. */
  function Paced(ops: seq<RfbOp>): seq<(RfbOp, nat)> {
    if |ops| == 0 then []
    else
      var before, op := Paced(ops[..|ops| - 1]), ops[|ops| - 1];
      if op.Pointer? then before + [(op, 0)] else if op.Sleep? then Rested(before, op.ms) else before
  }

  /** A longer rest after the last event. */
  function Rested(stops: seq<(RfbOp, nat)>, ms: nat): seq<(RfbOp, nat)> {
    if |stops| == 0 then []
    else
      var last := stops[|stops| - 1];
      stops[..|stops| - 1] + [(last.0, last.1 + ms)]
  }

  lemma PacedMore(ops: seq<RfbOp>, op: RfbOp)
    ensures Paced(ops + [op])
         == if op.Pointer? then Paced(ops) + [(op, 0)] else if op.Sleep? then Rested(Paced(ops), op.ms) else Paced(ops)
  {
    assert (ops + [op])[..|ops|] == ops;
  }

  lemma PacedPause(ops: seq<RfbOp>, ms: nat)
    requires |Paced(ops)| > 0
    ensures Paced(ops + Pause(ms)) == Rested(Paced(ops), ms)
  {
    hide Paced, Rested;
    if ms > 0 {
      PacedMore(ops, Sleep(ms));
    } else {
      assert ops + [] == ops;
      RestedIs(Paced(ops), 0);
    }
  }

  lemma RestedIs(stops: seq<(RfbOp, nat)>, ms: nat)
    requires |stops| > 0
    ensures var r := Rested(stops, ms); var last := |stops| - 1;
      |r| == |stops| && r[..last] == stops[..last] && r[last] == (stops[last].0, stops[last].1 + ms)
    ensures Rested(stops, 0) == stops
  {
  }

  /** The first `i` held points of a drag, each with the rest after it. */
  function Held(sx: u16, sy: u16, ex: u16, ey: u16, i: nat, n: nat, stepMs: nat): (stops: seq<(RfbOp, nat)>)
    requires n > 0
    ensures |stops| == i
  {
    seq(i, k requires 0 <= k < i =>
        (Pointer(Along(sx, ex, k + 1, n), Along(sy, ey, k + 1, n), LEFT), if k + 1 < i then stepMs else 0))
  }

  lemma {:induction false} WalkPaced(head: seq<RfbOp>, sx: u16, sy: u16, ex: u16, ey: u16, i: nat, n: nat, stepMs: nat)
    requires n > 0 && |Paced(head)| > 0
    ensures Paced(head + Walk(sx, sy, ex, ey, i, n, stepMs)) == Paced(head) + Held(sx, sy, ex, ey, i, n, stepMs)
    decreases i
  {
    hide Along, Paced;
    if i == 0 {
      assert head + [] == head;
    } else {
      var before := Walk(sx, sy, ex, ey, i - 1, n, stepMs);
      var rest := if i > 1 then Pause(stepMs) else [];
      var move := Pointer(Along(sx, ex, i, n), Along(sy, ey, i, n), LEFT);
      WalkPaced(head, sx, sy, ex, ey, i - 1, n, stepMs);
      assert head + Walk(sx, sy, ex, ey, i, n, stepMs) == (head + before) + rest + [move];
      if i > 1 { PacedPause(head + before, stepMs); } else { assert (head + before) + [] == head + before; }
      PacedMore((head + before) + rest, move);
      HeldMore(sx, sy, ex, ey, i, n, stepMs);
      assert Paced(head) + Held(sx, sy, ex, ey, i - 1, n, stepMs) == Paced(head + before);
    }
  }

  lemma HeldMore(sx: u16, sy: u16, ex: u16, ey: u16, i: nat, n: nat, stepMs: nat)
    requires n > 0 && i > 0
    ensures var move := Pointer(Along(sx, ex, i, n), Along(sy, ey, i, n), LEFT);
            var before := Held(sx, sy, ex, ey, i - 1, n, stepMs);
            Held(sx, sy, ex, ey, i, n, stepMs) == (if i > 1 then Rested(before, stepMs) else before) + [(move, 0)]
  {
    hide Along;
  }

  lemma DragPaced(sx: u16, sy: u16, ex: u16, ey: u16, p: DragPacing)
    ensures Paced(DragOps(sx, sy, ex, ey, p))
         == [(Pointer(sx, sy, 0), 0), (Pointer(sx, sy, LEFT), p.dwellMs)]
            + Rested(Held(sx, sy, ex, ey, Steps(p), Steps(p), p.stepMs), p.dwellMs) + [(Pointer(ex, ey, 0), 0)]
  {
    hide Along, Walk, Paced, Held, Rested;
    var a, b, n := Pointer(sx, sy, 0), Pointer(sx, sy, LEFT), Steps(p);
    var walk := Walk(sx, sy, ex, ey, n, n, p.stepMs);
    var held := Held(sx, sy, ex, ey, n, n, p.stepMs);
    PacedPress(a, b, p.dwellMs);
    var head := [a, b] + Pause(p.dwellMs);
    WalkPaced(head, sx, sy, ex, ey, n, n, p.stepMs);
    PacedPause(head + walk, p.dwellMs);
    RestedLast([(a, 0), (b, p.dwellMs)], held, p.dwellMs);
    PacedMore(head + walk + Pause(p.dwellMs), Pointer(ex, ey, 0));
    assert DragOps(sx, sy, ex, ey, p) == head + walk + Pause(p.dwellMs) + [Pointer(ex, ey, 0)];
  }

  lemma PacedPress(a: RfbOp, b: RfbOp, ms: nat)
    requires a.Pointer? && b.Pointer?
    ensures Paced([a, b] + Pause(ms)) == [(a, 0), (b, ms)]
  {
    assert Paced([]) == [];
    PacedMore([], a);
    PacedMore([a], b);
    assert [] + [a] == [a] && [a] + [b] == [a, b];
    PacedPause([a, b], ms);
  }

  lemma RestedLast(stops: seq<(RfbOp, nat)>, more: seq<(RfbOp, nat)>, ms: nat)
    requires |more| > 0
    ensures Rested(stops + more, ms) == stops + Rested(more, ms)
  {
  }

  /** `v` is within half a pixel of the `i`-th of `n` even steps from `a` to `b`: of `a + (b - a) * i / n`. */
  predicate NearLine(a: int, b: int, i: int, n: int, v: int) {
    -n <= 2 * ((v - a) * n - (b - a) * i) <= n
  }

  /** A drag, from the action's own two points: move to the start, press the left button there, rest; then as
      many held points as the pacing asks for, at least one, each within half a pixel of the straight line from
      start to end, never turning back, the pacing's pause after each but the last, which is the end itself and
      rests as long as the press did; and release at the end. */
  lemma DragPlan(keysymFor: Chord.Lookup, start: Coordinate, at: Coordinate, ctx: Context)
    requires OnScreen(ctx, start) && OnScreen(ctx, at)
    ensures PlanFor(keysymFor, LeftClickDrag(start, at), ctx).Ok?
    ensures var stops := Paced(PlanFor(keysymFor, LeftClickDrag(start, at), ctx).ops);
            var n := if ctx.drag.steps == 0 then 1 else ctx.drag.steps as int;
      && |stops| == n + 3
      && stops[0] == (Pointer(start.x, start.y, 0), 0) && stops[1] == (Pointer(start.x, start.y, 1), ctx.drag.dwellMs)
      && stops[n + 2] == (Pointer(at.x, at.y, 0), 0)
      && (forall i :: 2 <= i < n + 2 ==> stops[i].0.Pointer? && stops[i].0.buttons == 1)
      && (forall i :: 2 <= i < n + 2 ==>
            NearLine(start.x, at.x, i - 1, n, stops[i].0.x) && NearLine(start.y, at.y, i - 1, n, stops[i].0.y))
      && (forall i, j :: 2 <= i < j < n + 2 ==>
            && Towards(start.x, at.x, stops[i].0.x, stops[j].0.x)
            && Towards(start.y, at.y, stops[i].0.y, stops[j].0.y))
      && (forall i :: 2 <= i < n + 1 ==> stops[i].1 == ctx.drag.stepMs)
      && stops[n + 1] == (Pointer(at.x, at.y, 1), ctx.drag.dwellMs)
  {
    hide Along, DragOps, Paced, Pause, Walk, NearLine, Towards;
    var n := Steps(ctx.drag);
    var (sx, sy, ex, ey) := (start.x as u16, start.y as u16, at.x as u16, at.y as u16);
    DragPaced(sx, sy, ex, ey, ctx.drag);
    HeldOnTheLine(sx, sy, ex, ey, n, ctx.drag.stepMs);
    RestedIs(Held(sx, sy, ex, ey, n, n, ctx.drag.stepMs), ctx.drag.dwellMs);
    hide Held, Rested;
  }

  lemma HeldOnTheLine(sx: u16, sy: u16, ex: u16, ey: u16, n: int, stepMs: nat)
    requires n > 0
    ensures var held := Held(sx, sy, ex, ey, n, n, stepMs);
      && (forall i :: 0 <= i < n ==> held[i].0.Pointer? && held[i].0.buttons == LEFT)
      && (forall i :: 0 <= i < n ==>
            NearLine(sx, ex, i + 1, n, held[i].0.x) && NearLine(sy, ey, i + 1, n, held[i].0.y))
      && (forall i, j :: 0 <= i < j < n ==>
            Towards(sx, ex, held[i].0.x, held[j].0.x) && Towards(sy, ey, held[i].0.y, held[j].0.y))
      && (forall i :: 0 <= i < n - 1 ==> held[i].1 == stepMs)
      && held[n - 1] == (Pointer(ex, ey, LEFT), 0)
  {
    hide Along;
    var held := Held(sx, sy, ex, ey, n, n, stepMs);
    forall i | 0 <= i < n
      ensures NearLine(sx, ex, i + 1, n, held[i].0.x) && NearLine(sy, ey, i + 1, n, held[i].0.y)
    {
      PointOnTheLine(sx, ex, i + 1, n);
      PointOnTheLine(sy, ey, i + 1, n);
    }
    forall i, j | 0 <= i < j < n
      ensures Towards(sx, ex, held[i].0.x, held[j].0.x) && Towards(sy, ey, held[i].0.y, held[j].0.y)
    {
      WalkIsMonotone(sx, ex, i + 1, j + 1, n);
      WalkIsMonotone(sy, ey, i + 1, j + 1, n);
    }
    PointOnTheLine(sx, ex, n, n);
    PointOnTheLine(sy, ey, n, n);
  }

  /** `b` is no nearer the start than `a`. */
  predicate Towards(from: int, to: int, a: int, b: int) {
    (from <= to ==> a <= b) && (from >= to ==> a >= b)
  }

  // ---------------------------------------------------------------- clicks

  /** The stops of so many clicks after the move. */
  function ClickStops(x: u16, y: u16, buttons: byte, count: nat): seq<(RfbOp, nat)> {
    if count == 0 then [(Pointer(x, y, 0), 0)]
    else ClickStops(x, y, buttons, count - 1) + [(Pointer(x, y, buttons), 0), (Pointer(x, y, 0), 0)]
  }

  lemma {:induction false} ClicksPaced(x: u16, y: u16, buttons: byte, count: nat)
    ensures Paced(Clicks(x, y, buttons, count)) == ClickStops(x, y, buttons, count)
    ensures Pressed(Clicks(x, y, buttons, count)) == []
  {
    hide Paced, Pressed;
    var move, press := Pointer(x, y, 0), Pointer(x, y, buttons);
    OnePointer(move);
    if count == 0 {
      assert [move] + [] == [move];
    } else {
      var before := Clicks(x, y, buttons, count - 1);
      ClicksPaced(x, y, buttons, count - 1);
      assert Clicks(x, y, buttons, count) == before + [press] + [move];
      PacedMore(before, press);
      PacedMore(before + [press], move);
      OnePointer(press);
      PressedJoin(before, [press]);
      PressedJoin(before + [press], [move]);
      hide Clicks;
      var stops := ClickStops(x, y, buttons, count - 1);
      assert stops + [(press, 0)] + [(move, 0)] == stops + [(press, 0), (move, 0)];
    }
  }

  lemma OnePointer(op: RfbOp)
    requires op.Pointer?
    ensures Paced([op]) == [(op, 0)] && Pressed([op]) == []
  {
    assert [op][..0] == [] && [op][1..] == [] && Paced([]) == [] && Pressed([]) == [];
    assert Paced([op]) == [] + [(op, 0)];
  }

  /** A click goes to its point and nowhere else: the move, then every press of its own button and its release,
      without a rest and without a key. */
  lemma ClickPlans(keysymFor: Chord.Lookup, at: Coordinate, up: bool, amount: u32, ctx: Context)
    requires OnScreen(ctx, at)
    ensures Stops(PlanFor(keysymFor, LeftClick(at), ctx)) == ClickStops(at.x, at.y, 1, 1)
    ensures Stops(PlanFor(keysymFor, DoubleClick(at), ctx)) == ClickStops(at.x, at.y, 1, 2)
    ensures Stops(PlanFor(keysymFor, TripleClick(at), ctx)) == ClickStops(at.x, at.y, 1, 3)
    ensures Stops(PlanFor(keysymFor, MiddleClick(at), ctx)) == ClickStops(at.x, at.y, 2, 1)
    ensures Stops(PlanFor(keysymFor, RightClick(at), ctx)) == ClickStops(at.x, at.y, 4, 1)
    ensures amount > 0 ==>
      Stops(PlanFor(keysymFor, Scroll(at, up, amount), ctx)) == ClickStops(at.x, at.y, if up then 8 else 16, amount)
  {
    hide Clicks, ClickStops, Paced, Pressed;
    ClicksPaced(at.x, at.y, LEFT, 1);
    ClicksPaced(at.x, at.y, LEFT, 2);
    ClicksPaced(at.x, at.y, LEFT, 3);
    ClicksPaced(at.x, at.y, MIDDLE, 1);
    ClicksPaced(at.x, at.y, RIGHT, 1);
    ClicksPaced(at.x, at.y, Wheel(up), amount);
  }

  /** The stops of a plan that presses no keys; a plan that does, or is refused, has none. */
  function Stops(p: Plan): seq<(RfbOp, nat)> {
    if p.Ok? && Pressed(p.ops) == [] then Paced(p.ops) else []
  }

  // ---------------------------------------------------------------- moves, waits, and nothing at all

  /** A move is one pointer event with no button, where it was asked to be. */
  lemma MovePlan(keysymFor: Chord.Lookup, at: Coordinate, ctx: Context)
    requires OnScreen(ctx, at)
    ensures var p := PlanFor(keysymFor, MouseMove(at), ctx);
      p.Ok? && Paced(p.ops) == [(Pointer(at.x, at.y, 0), 0)] && TotalSleep(p.ops) == 0 && Pressed(p.ops) == []
  {
    OnePointer(Pointer(at.x, at.y, 0));
    OneSleeps(Pointer(at.x, at.y, 0));
  }

  /** A wait sleeps its duration to the whole millisecond below, or as long as 64 bits can say; a negative one
      and one that is no number do not sleep at all. */
  lemma WaitPlan(keysymFor: Chord.Lookup, duration: Duration, ctx: Context)
    ensures var p := PlanFor(keysymFor, Wait(duration), ctx);
      && p.Ok? && |p.ops| == 1 && p.ops[0].Sleep?
      && var ms := p.ops[0].ms;
         match duration
         case NaN => ms == 0
         case Seconds(s) =>
           if s < 0.0 then ms == 0
           else if s * 1000.0 < 18446744073709551616.0 then ms as real <= s * 1000.0 < ms as real + 1.0
           else ms == 0xFFFF_FFFF_FFFF_FFFF
  {
    if duration.Seconds? && duration.s > 0.0 {
      var t := duration.s * 1000.0;
      FloorBounds(t);
      if t < 18446744073709551616.0 { FloorBelow(t, 0x1_0000_0000_0000_0000); } else { FloorAbove(t, U64_MAX + 1); }
    }
  }

  lemma FloorBounds(t: real)
    ensures t.Floor as real <= t < t.Floor as real + 1.0
  {
  }

  lemma FloorBelow(t: real, n: int)
    requires t < n as real
    ensures t.Floor < n
  {
  }

  lemma FloorAbove(t: real, n: int)
    requires t >= n as real
    ensures t.Floor >= n
  {
  }

  /** How long each plan sleeps: only a drag and a wait sleep at all. */
  lemma PlanSleeps(keysymFor: Chord.Lookup, a: Action, ctx: Context)
    requires PlanFor(keysymFor, a, ctx).Ok? && !a.LeftClickDrag? && !a.Wait?
    ensures TotalSleep(PlanFor(keysymFor, a, ctx).ops) == 0
  {
    hide TotalSleep, Clicks, TypeOps, ChordOps;
    NothingSleeps();
    match a
    case LeftClick(at) => ClicksSleep(at.x, at.y, LEFT, 1);
    case RightClick(at) => ClicksSleep(at.x, at.y, RIGHT, 1);
    case MiddleClick(at) => ClicksSleep(at.x, at.y, MIDDLE, 1);
    case DoubleClick(at) => ClicksSleep(at.x, at.y, LEFT, 2);
    case TripleClick(at) => ClicksSleep(at.x, at.y, LEFT, 3);
    case Scroll(at, up, amount) => ClicksSleep(at.x, at.y, Wheel(up), amount);
    case MouseMove(at) => OneSleeps(Pointer(at.x, at.y, 0));
    case Type(text) => TypeSleeps(keysymFor, text);
    case Chord(text) => ChordSleeps(keysymFor, text);
    case _ =>
  }

  lemma NothingSleeps()
    ensures TotalSleep([]) == 0
  {
  }

  lemma {:induction false} ClicksSleep(x: u16, y: u16, buttons: byte, count: nat)
    ensures TotalSleep(Clicks(x, y, buttons, count)) == 0
  {
    hide TotalSleep;
    OneSleeps(Pointer(x, y, 0));
    OneSleeps(Pointer(x, y, buttons));
    if count == 0 {
      assert [Pointer(x, y, 0)] + [] == [Pointer(x, y, 0)];
    } else {
      var before := Clicks(x, y, buttons, count - 1);
      ClicksSleep(x, y, buttons, count - 1);
      SleepAppend(before, [Pointer(x, y, buttons)]);
      SleepAppend(before + [Pointer(x, y, buttons)], [Pointer(x, y, 0)]);
      assert Clicks(x, y, buttons, count) == before + [Pointer(x, y, buttons)] + [Pointer(x, y, 0)];
    }
  }

  lemma {:induction false} TypeSleeps(keysymFor: Chord.Lookup, text: string)
    requires TypeOps(keysymFor, text).Ok?
    ensures TotalSleep(TypeOps(keysymFor, text).ops) == 0
  {
    hide TotalSleep, KeysymForTyped;
    NothingSleeps();
    if |text| > 0 {
      TypeSleeps(keysymFor, text[1..]);
      var k := KeysymForTyped(keysymFor, text[0]).value;
      OneSleeps(Key(k, true));
      OneSleeps(Key(k, false));
      SleepAppend([Key(k, true)], [Key(k, false)]);
      assert [Key(k, true), Key(k, false)] == [Key(k, true)] + [Key(k, false)];
      SleepAppend([Key(k, true), Key(k, false)], TypeOps(keysymFor, text[1..]).ops);
    }
  }

  lemma ChordSleeps(keysymFor: Chord.Lookup, text: string)
    requires ChordOps(keysymFor, text).Ok?
    ensures TotalSleep(ChordOps(keysymFor, text).ops) == 0
  {
    hide TotalSleep, Chord.ParseSegments, Split;
    var syms := Chord.ParseSegments(keysymFor, Split(text, '+')).keysyms;
    KeysSleep(syms);
    SleepAppend(Downs(syms), Ups(syms));
  }

  lemma {:induction false} KeysSleep(syms: seq<u32>)
    ensures TotalSleep(Downs(syms)) == 0 && TotalSleep(Ups(syms)) == 0
  {
    hide TotalSleep;
    NothingSleeps();
    if |syms| > 0 {
      var fewer, last := syms[..|syms| - 1], syms[|syms| - 1];
      KeysSleep(fewer);
      OneSleeps(Key(last, true));
      OneSleeps(Key(last, false));
      SleepAppend(Downs(fewer), [Key(last, true)]);
      SleepAppend([Key(last, false)], Ups(fewer));
    }
  }

  /** Asking for the screen or the cursor plans nothing, and neither does a scroll of nothing. */
  lemma IdlePlan(keysymFor: Chord.Lookup, at: Coordinate, up: bool, ctx: Context)
    ensures PlanFor(keysymFor, Screenshot, ctx) == Ok([]) == PlanFor(keysymFor, CursorPosition, ctx)
    ensures OnScreen(ctx, at) ==> PlanFor(keysymFor, Scroll(at, up, 0), ctx) == Ok([])
  {
  }

  // ---------------------------------------------------------------- what is typed

  /** The key of a typed character: Return for either line end, Tab for a tab, and for any other character its
      X keysym, which for Latin-1 is the character itself but for backspace and delete, and beyond it the code
      point in the Unicode range. */
  predicate IsKeyOf(keysymFor: Chord.Lookup, c: char, k: u32) {
    && (c in "\n\r" ==> keysymFor("Return") == Some(k)) && (c == '\t' ==> keysymFor("Tab") == Some(k))
    && (c !in "\n\r\t" ==>
          var n := c as int;
          && (n == 0x08 ==> k == 0xff08) && (n == 0x7f ==> k == 0xffff)
          && (n < 0x100 && n != 0x08 && n != 0x7f ==> k == n)
          && (n >= 0x100 ==> k == 0x0100_0000 + n))
  }

  /** Typing presses one key per character, in order, that character's own, and releases it before the next;
      and does nothing else. */
  lemma {:induction false} TypedKeys(keysymFor: Chord.Lookup, text: string)
    requires TypeOps(keysymFor, text).Ok?
    ensures var ops := TypeOps(keysymFor, text).ops;
      && |ops| == 2 * |text|
      && forall i :: 0 <= i < |text| ==>
           ops[2 * i].Key? && ops[2 * i].down && ops[2 * i + 1] == Key(ops[2 * i].keysym, false)
           && IsKeyOf(keysymFor, text[i], ops[2 * i].keysym)
  {
    if |text| > 0 {
      TypedKeys(keysymFor, text[1..]);
      FirstKey(keysymFor, text[0]);
      hide KeysymForTyped, IsKeyOf;
      var k, tail := KeysymForTyped(keysymFor, text[0]).value, TypeOps(keysymFor, text[1..]).ops;
      var ops := TypeOps(keysymFor, text).ops;
      assert ops == [Key(k, true), Key(k, false)] + tail;
      forall i | 1 <= i < |text|
        ensures ops[2 * i].Key? && ops[2 * i].down && ops[2 * i + 1] == Key(ops[2 * i].keysym, false)
        ensures IsKeyOf(keysymFor, text[i], ops[2 * i].keysym)
      {
        assert ops[2 * i] == tail[2 * (i - 1)] && ops[2 * i + 1] == tail[2 * (i - 1) + 1];
        assert text[i] == text[1..][i - 1];
      }
    }
  }

  lemma FirstKey(keysymFor: Chord.Lookup, c: char)
    ensures KeysymForTyped(keysymFor, c).Some? ==> IsKeyOf(keysymFor, c, KeysymForTyped(keysymFor, c).value)
  {
  }

  /** A chord presses its keys in the order it names them, then releases them in reverse, and nothing else. */
  lemma ChordPlan(keysymFor: Chord.Lookup, names: seq<string>, ctx: Context)
    requires Chord.IsChord(keysymFor, names)
    ensures var p := PlanFor(keysymFor, Chord(Join(names, '+')), ctx); var syms := Chord.Keysyms(keysymFor, names);
      && p.Ok? && |p.ops| == 2 * |syms|
      && forall i :: 0 <= i < |syms| ==>
           p.ops[i] == Key(syms[i], true) && p.ops[2 * |syms| - 1 - i] == Key(syms[i], false)
  {
    hide Split, Join, Chord.ParseSegments, Chord.Keysyms, Chord.IsKey;
    Chord.JoinedParses(keysymFor, names);
    DownsAndUps(Chord.Keysyms(keysymFor, names));
  }

  lemma {:induction false} DownsAndUps(syms: seq<u32>)
    ensures |Downs(syms)| == |Ups(syms)| == |syms|
    ensures forall i :: 0 <= i < |syms| ==> Downs(syms)[i] == Key(syms[i], true)
    ensures forall i :: 0 <= i < |syms| ==> Ups(syms)[|syms| - 1 - i] == Key(syms[i], false)
  {
    if |syms| > 0 {
      var n := |syms| - 1;
      var fewer := syms[..n];
      DownsAndUps(fewer);
      assert Downs(syms) == Downs(fewer) + [Key(syms[n], true)];
      assert Ups(syms) == [Key(syms[n], false)] + Ups(fewer);
      hide Downs, Ups;
      forall i | 0 <= i < n ensures Ups(syms)[n - i] == Key(syms[i], false) {
        assert Ups(syms)[n - i] == Ups(fewer)[n - 1 - i] && fewer[i] == syms[i];
      }
    }
  }

  /** So different texts press different keys, up to which line end was typed, as long as Return and Tab have
      their X keysyms. */
  lemma TypingIsInjective(keysymFor: Chord.Lookup, a: string, b: string)
    requires keysymFor("Return") == Some(0xff0d) && keysymFor("Tab") == Some(0xff09)
    requires TypeOps(keysymFor, a).Ok? && TypeOps(keysymFor, b).Ok?
    requires TypeOps(keysymFor, a) == TypeOps(keysymFor, b)
    requires '\r' !in a && '\r' !in b
    ensures a == b
  {
    hide TypeOps, IsKeyOf;
    TypedKeys(keysymFor, a);
    TypedKeys(keysymFor, b);
    var ops := TypeOps(keysymFor, a).ops;
    forall i | 0 <= i < |a| ensures a[i] == b[i] {
      assert a[i] in a && b[i] in b;
      SameKeySameChar(keysymFor, a[i], b[i], ops[2 * i].keysym);
    }
  }

  lemma SameKeySameChar(keysymFor: Chord.Lookup, c: char, d: char, k: u32)
    requires keysymFor("Return") == Some(0xff0d) && keysymFor("Tab") == Some(0xff09)
    requires c != '\r' && d != '\r' && IsKeyOf(keysymFor, c, k) && IsKeyOf(keysymFor, d, k)
    ensures c == d
  {
  }

  /** A text that cannot be typed fails at its first control character whose key nobody knows, by name. */
  lemma {:induction false} UntypedNames(keysymFor: Chord.Lookup, text: string) returns (i: nat)
    requires TypeOps(keysymFor, text).Err?
    ensures i < |text| && TypeOps(keysymFor, text[..i]).Ok?
    ensures text[i] in "\n\r\t"
    ensures var name := if text[i] == '\t' then "Tab" else "Return";
      keysymFor(name) == None && TypeOps(keysymFor, text) == Err(UnknownKey(name))
  {
    if KeysymForTyped(keysymFor, text[0]) == None {
      i := 0;
    } else {
      var j := UntypedNames(keysymFor, text[1..]);
      i := j + 1;
      assert text[..i][1..] == text[1..][..j];
    }
  }

  // ---------------------------------------------------------------- what is refused

  /** The points an action names, in the order they are checked. */
  function Points(a: Action): seq<Coordinate> {
    match a
    case LeftClick(at) => [at]
    case RightClick(at) => [at]
    case MiddleClick(at) => [at]
    case DoubleClick(at) => [at]
    case TripleClick(at) => [at]
    case LeftClickDrag(start, at) => [start, at]
    case MouseMove(at) => [at]
    case Scroll(at, _, _) => [at]
    case _ => []
  }

  predicate On(ctx: Context, c: Coordinate) {
    0 <= c.x < ctx.width as int && 0 <= c.y < ctx.height as int
  }

  /** A plan is refused for a coordinate exactly when the action names one off the screen, and then for the
      first it names; the only other refusal is a key nobody knows, for a text or a chord. */
  lemma RefusedIff(keysymFor: Chord.Lookup, a: Action, ctx: Context)
    ensures var p := PlanFor(keysymFor, a, ctx);
      && (forall i ::
            0 <= i < |Points(a)| && !On(ctx, Points(a)[i]) && (forall j :: 0 <= j < i ==> On(ctx, Points(a)[j]))
            ==> p == Err(OutOfBounds(Points(a)[i])))
      && ((forall i :: 0 <= i < |Points(a)| ==> On(ctx, Points(a)[i])) ==>
            p.Ok? || ((a.Type? || a.Chord?) && p.error.UnknownKey?))
  {
    hide DragOps, Clicks, TypeOps, ChordOps;
    var points := Points(a);
    assert |points| > 0 ==> points[0] in points;
    assert |points| > 1 ==> points[1] in points;
    match a
    case Type(text) => TypeFailsByName(keysymFor, text);
    case Chord(text) => ChordInside(keysymFor, text, ctx);
    case _ =>
  }
}
