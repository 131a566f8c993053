/** Computer-use actions as pointer, key and sleep operations. */
module Actions {
  import opened Bytes
  import opened Text
  import opened Drags
  import Chord

  datatype RfbOp = Pointer(x: u16, y: u16, buttons: byte) | Key(keysym: u32, down: bool) | Sleep(ms: nat)

  const LEFT: byte := 1
  const MIDDLE: byte := 2
  const RIGHT: byte := 4
  const WHEEL_UP: byte := 8
  const WHEEL_DOWN: byte := 16

  const U64_MAX: nat := 0xFFFF_FFFF_FFFF_FFFF

  datatype DragPacing = DragPacing(steps: u16, stepMs: nat, dwellMs: nat)
  datatype Context = Context(width: u16, height: u16, drag: DragPacing)

  /** A point as a caller names it. */
  datatype Coordinate = At(x: int, y: int)

  /** A duration in seconds, which may not be a number. */
  datatype Duration = NaN | Seconds(s: real)

  datatype Action =
    | Screenshot
    | CursorPosition
    | LeftClick(at: Coordinate)
    | RightClick(at: Coordinate)
    | MiddleClick(at: Coordinate)
    | DoubleClick(at: Coordinate)
    | TripleClick(at: Coordinate)
    | LeftClickDrag(start: Coordinate, at: Coordinate)
    | MouseMove(at: Coordinate)
    | Scroll(at: Coordinate, up: bool, amount: u32)
    | Type(text: string)
    | Chord(text: string)
    | Wait(duration: Duration)

  datatype ActionError = OutOfBounds(at: Coordinate) | UnknownKey(name: string)
  datatype Plan = Ok(ops: seq<RfbOp>) | Err(error: ActionError)

  // ---------------------------------------------------------------- what each action plans

  predicate OnScreen(ctx: Context, c: Coordinate) {
    0 <= c.x < ctx.width && 0 <= c.y < ctx.height
  }

  /** `count` presses and releases of one button. */
  function Presses(x: u16, y: u16, buttons: byte, count: nat): seq<RfbOp> {
    if count == 0 then [] else Presses(x, y, buttons, count - 1) + [Pointer(x, y, buttons), Pointer(x, y, 0)]
  }

  function Clicks(x: u16, y: u16, buttons: byte, count: nat): seq<RfbOp> {
    [Pointer(x, y, 0)] + Presses(x, y, buttons, count)
  }

  function Pause(ms: nat): seq<RfbOp> {
    if ms > 0 then [Sleep(ms)] else []
  }

  /** The first `i` held moves, with the pauses between them. */
  function Walk(sx: u16, sy: u16, ex: u16, ey: u16, i: nat, n: nat, stepMs: nat): seq<RfbOp>
    requires n > 0
  {
    if i == 0 then []
    else
      Walk(sx, sy, ex, ey, i - 1, n, stepMs) + (if i > 1 then Pause(stepMs) else [])
      + [Pointer(Along(sx, ex, i, n), Along(sy, ey, i, n), LEFT)]
  }

  function Steps(p: DragPacing): (n: nat)
    ensures n > 0
  {
    Max(p.steps, 1)
  }

  function DragOps(sx: u16, sy: u16, ex: u16, ey: u16, p: DragPacing): seq<RfbOp> {
    [Pointer(sx, sy, 0), Pointer(sx, sy, LEFT)] + Pause(p.dwellMs)
    + Walk(sx, sy, ex, ey, Steps(p), Steps(p), p.stepMs)
    + Pause(p.dwellMs) + [Pointer(ex, ey, 0)]
  }

  function KeysymForChar(c: char): u32 {
    if c == '\n' || c == '\r' then 0xff0d
    else if c == '\t' then 0xff09
    else if c as int == 0x08 then 0xff08
    else if c as int == 0x7f then 0xffff
    else if (c as int) < 0x100 then c as int
    else 0x0100_0000 + c as int
  }

  /** A typed character's keysym, control characters going through their key names. */
  function KeysymForTyped(keysymFor: Chord.Lookup, c: char): Option<u32> {
    if c == '\n' || c == '\r' then keysymFor("Return")
    else if c == '\t' then keysymFor("Tab")
    else Some(KeysymForChar(c))
  }

  function TypedName(c: char): string {
    if c == '\t' then "Tab" else "Return"
  }

  /** The keysyms of a text, or the first key name nobody knows. */
  function TypeOps(keysymFor: Chord.Lookup, text: string): Plan {
    if |text| == 0 then Ok([])
    else match KeysymForTyped(keysymFor, text[0])
      case None => Err(UnknownKey(TypedName(text[0])))
      case Some(k) => After([Key(k, true), Key(k, false)], TypeOps(keysymFor, text[1..]))
  }

  function After(head: seq<RfbOp>, p: Plan): Plan {
    match p
    case Ok(ops) => Ok(head + ops)
    case Err(e) => Err(e)
  }

  function Downs(syms: seq<u32>): seq<RfbOp> {
    if |syms| == 0 then [] else Downs(syms[..|syms| - 1]) + [Key(syms[|syms| - 1], true)]
  }

  /** The releases, last key first. */
  function Ups(syms: seq<u32>): seq<RfbOp> {
    if |syms| == 0 then [] else [Key(syms[|syms| - 1], false)] + Ups(syms[..|syms| - 1])
  }

  function ChordOps(keysymFor: Chord.Lookup, text: string): Plan {
    match Chord.ParseSegments(keysymFor, Split(text, '+'))
    case UnknownKey(name) => Err(UnknownKey(name))
    case Ok(syms) => Ok(Downs(syms) + Ups(syms))
  }

  /** Whole milliseconds, as a saturating cast makes them. */
  function Millis(d: Duration): nat {
    match d
    case NaN => 0
    case Seconds(s) => if s <= 0.0 then 0 else Min((s * 1000.0).Floor, U64_MAX)
  }

  function Wheel(up: bool): byte {
    if up then WHEEL_UP else WHEEL_DOWN
  }

  function ClickPlan(ctx: Context, at: Coordinate, buttons: byte, count: nat): Plan {
    if OnScreen(ctx, at) then Ok(Clicks(at.x, at.y, buttons, count)) else Err(OutOfBounds(at))
  }

  /** `plan`. */
  function PlanFor(keysymFor: Chord.Lookup, a: Action, ctx: Context): Plan {
    match a
    case Screenshot => Ok([])
    case CursorPosition => Ok([])
    case LeftClick(at) => ClickPlan(ctx, at, LEFT, 1)
    case RightClick(at) => ClickPlan(ctx, at, RIGHT, 1)
    case MiddleClick(at) => ClickPlan(ctx, at, MIDDLE, 1)
    case DoubleClick(at) => ClickPlan(ctx, at, LEFT, 2)
    case TripleClick(at) => ClickPlan(ctx, at, LEFT, 3)
    case LeftClickDrag(start, at) =>
      if !OnScreen(ctx, start) then Err(OutOfBounds(start))
      else if !OnScreen(ctx, at) then Err(OutOfBounds(at))
      else Ok(DragOps(start.x, start.y, at.x, at.y, ctx.drag))
    case MouseMove(at) => if OnScreen(ctx, at) then Ok([Pointer(at.x, at.y, 0)]) else Err(OutOfBounds(at))
    case Scroll(at, up, amount) =>
      if !OnScreen(ctx, at) then Err(OutOfBounds(at))
      else if amount == 0 then Ok([])
      else Ok(Clicks(at.x, at.y, Wheel(up), amount))
    case Type(text) => TypeOps(keysymFor, text)
    case Chord(text) => ChordOps(keysymFor, text)
    case Wait(duration) => Ok([Sleep(Millis(duration))])
  }

  // ---------------------------------------------------------------- the loops

  /** `clicks_at`. */
  method ClicksAt(x: u16, y: u16, buttons: byte, count: nat) returns (ops: seq<RfbOp>)
    ensures ops == Clicks(x, y, buttons, count)
  {
    ops := [Pointer(x, y, 0)];
    for i := 0 to count
      invariant ops == Clicks(x, y, buttons, i)
    {
      ops := ops + [Pointer(x, y, buttons)];
      ops := ops + [Pointer(x, y, 0)];
    }
  }

  /** `drag`. */
  method Drag(sx: u16, sy: u16, ex: u16, ey: u16, pacing: DragPacing) returns (ops: seq<RfbOp>)
    ensures ops == DragOps(sx, sy, ex, ey, pacing)
  {
    hide Along;
    ops := [Pointer(sx, sy, 0)];
    ops := ops + [Pointer(sx, sy, LEFT)];
    ops := ops + Pause(pacing.dwellMs);
    var n := Steps(pacing);
    ghost var head := ops;
    for i := 1 to n + 1
      invariant ops == head + Walk(sx, sy, ex, ey, i - 1, n, pacing.stepMs)
    {
      if i > 1 {
        ops := ops + Pause(pacing.stepMs);
      }
      ops := ops + [Pointer(Along(sx, ex, i, n), Along(sy, ey, i, n), LEFT)];
    }
    ops := ops + Pause(pacing.dwellMs);
    ops := ops + [Pointer(ex, ey, 0)];
  }

  /** The `type` arm. */
  method TypeText(keysymFor: Chord.Lookup, text: string) returns (r: Plan)
    ensures r == TypeOps(keysymFor, text)
  {
    hide KeysymForTyped;
    var ops := [];
    assert text[0..] == text;
    AfterNothing(TypeOps(keysymFor, text));
    for i := 0 to |text|
      invariant TypeOps(keysymFor, text) == After(ops, TypeOps(keysymFor, text[i..]))
    {
      assert text[i..][1..] == text[i + 1..];
      var keysym := KeysymForTyped(keysymFor, text[i]);
      if keysym.None? {
        return Err(UnknownKey(TypedName(text[i])));
      }
      AfterNext(ops, [Key(keysym.value, true), Key(keysym.value, false)], TypeOps(keysymFor, text[i + 1..]));
      ops := ops + [Key(keysym.value, true), Key(keysym.value, false)];
    }
    assert ops + [] == ops;
    r := Ok(ops);
  }

  lemma AfterNothing(p: Plan)
    ensures After([], p) == p
  {
    match p
    case Ok(ops) => assert [] + ops == ops;
    case Err(_) =>
  }

  lemma AfterNext(a: seq<RfbOp>, b: seq<RfbOp>, p: Plan)
    ensures After(a, After(b, p)) == After(a + b, p)
  {
    match p
    case Ok(ops) => assert a + (b + ops) == a + b + ops;
    case Err(_) =>
  }

  /** The `key` arm, against `ChordOps`. */
  method PressChord(keysymFor: Chord.Lookup, text: string) returns (r: Plan)
    ensures r == ChordOps(keysymFor, text)
  {
    hide Downs, Ups, Chord.ParseSegments, Split;
    var parsed := Chord.ParseChord(keysymFor, text);
    if parsed.UnknownKey? {
      return Err(UnknownKey(parsed.name));
    }
    var syms := parsed.keysyms;
    var ops := [];
    NoKeys();
    for i := 0 to |syms|
      invariant ops == Downs(syms[..i])
    {
      OneMoreKey(syms, i);
      ops := ops + [Key(syms[i], true)];
    }
    assert syms[..|syms|] == syms;
    for i := |syms| downto 0
      invariant ops + Ups(syms[..i]) == Downs(syms) + Ups(syms)
    {
      OneMoreKey(syms, i);
      ops := ops + [Key(syms[i], false)];
    }
    assert ops + [] == ops;
    r := Ok(ops);
  }

  lemma NoKeys()
    ensures Downs([]) == [] && Ups([]) == []
  {
  }

  lemma OneMoreKey(syms: seq<u32>, i: nat)
    requires i < |syms|
    ensures Downs(syms[..i + 1]) == Downs(syms[..i]) + [Key(syms[i], true)]
    ensures Ups(syms[..i + 1]) == [Key(syms[i], false)] + Ups(syms[..i])
  {
    assert syms[..i + 1][..i] == syms[..i];
  }

  // ---------------------------------------------------------------- how long an action takes

  function TotalSleep(ops: seq<RfbOp>): nat {
    if |ops| == 0 then 0 else TotalSleep(ops[..|ops| - 1]) + (if ops[|ops| - 1].Sleep? then ops[|ops| - 1].ms else 0)
  }

  lemma {:induction false} SleepAppend(a: seq<RfbOp>, b: seq<RfbOp>)
    ensures TotalSleep(a + b) == TotalSleep(a) + TotalSleep(b)
    decreases |b|
  {
    if |b| == 0 {
      assert a + b == a;
    } else {
      assert (a + b)[..|a + b| - 1] == a + b[..|b| - 1];
      SleepAppend(a, b[..|b| - 1]);
    }
  }

  lemma PauseSleeps(ms: nat)
    ensures TotalSleep(Pause(ms)) == ms
  {
    if ms > 0 { assert [Sleep(ms)][..0] == []; }
  }

  lemma OneSleeps(op: RfbOp)
    requires !op.Sleep?
    ensures TotalSleep([op]) == 0
  {
    assert [op][..0] == [];
  }

  lemma {:induction false} WalkSleeps(sx: u16, sy: u16, ex: u16, ey: u16, i: nat, n: nat, stepMs: nat)
    requires n > 0
    ensures i > 0 ==> 0 <= (i - 1) * stepMs && TotalSleep(Walk(sx, sy, ex, ey, i, n, stepMs)) == (i - 1) * stepMs
    decreases i
  {
    hide Along, TotalSleep;
    if i > 0 {
      var last := Pointer(Along(sx, ex, i, n), Along(sy, ey, i, n), LEFT);
      var before := Walk(sx, sy, ex, ey, i - 1, n, stepMs);
      OneSleeps(last);
      PauseSleeps(stepMs);
      MulMono(0, i - 1, stepMs);
      if i > 1 {
        WalkSleeps(sx, sy, ex, ey, i - 1, n, stepMs);
        SleepAppend(before, Pause(stepMs));
        SleepAppend(before + Pause(stepMs), [last]);
        assert (i - 1) * stepMs == (i - 2) * stepMs + stepMs;
      } else {
        assert before + [] + [last] == [last];
      }
    }
  }

  /** A drag rests twice for its dwell and once between any two of its moves. */
  lemma DragSleeps(sx: u16, sy: u16, ex: u16, ey: u16, p: DragPacing)
    ensures 0 <= (Steps(p) - 1) * p.stepMs
    ensures TotalSleep(DragOps(sx, sy, ex, ey, p)) == 2 * p.dwellMs + (Steps(p) - 1) * p.stepMs
  {
    hide Along, TotalSleep, Walk;
    var press := [Pointer(sx, sy, 0), Pointer(sx, sy, LEFT)];
    var walk := Walk(sx, sy, ex, ey, Steps(p), Steps(p), p.stepMs);
    WalkSleeps(sx, sy, ex, ey, Steps(p), Steps(p), p.stepMs);
    PauseSleeps(p.dwellMs);
    OneSleeps(Pointer(sx, sy, 0));
    OneSleeps(Pointer(sx, sy, LEFT));
    OneSleeps(Pointer(ex, ey, 0));
    SleepAppend([Pointer(sx, sy, 0)], [Pointer(sx, sy, LEFT)]);
    assert press == [Pointer(sx, sy, 0)] + [Pointer(sx, sy, LEFT)];
    SleepAppend(press, Pause(p.dwellMs));
    SleepAppend(press + Pause(p.dwellMs), walk);
    SleepAppend(press + Pause(p.dwellMs) + walk, Pause(p.dwellMs));
    SleepAppend(press + Pause(p.dwellMs) + walk + Pause(p.dwellMs), [Pointer(ex, ey, 0)]);
  }

  // ---------------------------------------------------------------- what a plan presses

  /** Where and with which mask buttons go down: pointer events with a mask after one without. */
  function Clicked(ops: seq<RfbOp>): seq<(u16, u16, byte)> {
    if |ops| < 2 then []
    else
      var a, b := ops[|ops| - 2], ops[|ops| - 1];
      Clicked(ops[..|ops| - 1])
      + (if a.Pointer? && b.Pointer? && a.buttons == 0 && b.buttons != 0 then [(b.x, b.y, b.buttons)] else [])
  }

  /** The same thing so many times. */
  function Times<T>(x: T, n: nat): seq<T> {
    if n == 0 then [] else Times(x, n - 1) + [x]
  }

  lemma {:induction false} ClicksClick(x: u16, y: u16, buttons: byte, count: nat)
    requires buttons != 0
    ensures Clicked(Clicks(x, y, buttons, count)) == Times((x, y, buttons), count)
  {
    var ops := Clicks(x, y, buttons, count);
    if count == 0 {
      assert Clicked(ops) == [];
    } else {
      ClicksClick(x, y, buttons, count - 1);
      var before := Clicks(x, y, buttons, count - 1);
      var press, release := Pointer(x, y, buttons), Pointer(x, y, 0);
      assert ops == before + [press] + [release];
      assert (before + [press] + [release])[..|ops| - 1] == before + [press];
      assert (before + [press])[..|ops| - 2] == before;
      EndsReleased(x, y, buttons, count - 1);
    }
  }

  lemma EndsReleased(x: u16, y: u16, buttons: byte, count: nat)
    ensures var ops := Clicks(x, y, buttons, count); |ops| > 0 && ops[|ops| - 1] == Pointer(x, y, 0)
  {
  }

  /** Each click action presses its own button at its own point as often as its name says. */
  lemma ActionClicks(keysymFor: Chord.Lookup, at: Coordinate, ctx: Context)
    requires OnScreen(ctx, at)
    ensures var left := (at.x as u16, at.y as u16, 1);
      && Clicked(PlanFor(keysymFor, LeftClick(at), ctx).ops) == [left]
      && Clicked(PlanFor(keysymFor, DoubleClick(at), ctx).ops) == [left, left]
      && Clicked(PlanFor(keysymFor, TripleClick(at), ctx).ops) == [left, left, left]
      && Clicked(PlanFor(keysymFor, RightClick(at), ctx).ops) == [(at.x as u16, at.y as u16, 4)]
      && Clicked(PlanFor(keysymFor, MiddleClick(at), ctx).ops) == [(at.x as u16, at.y as u16, 2)]
  {
    hide Clicked, Clicks;
    ClicksClick(at.x, at.y, LEFT, 1);
    ClicksClick(at.x, at.y, LEFT, 2);
    ClicksClick(at.x, at.y, LEFT, 3);
    ClicksClick(at.x, at.y, RIGHT, 1);
    ClicksClick(at.x, at.y, MIDDLE, 1);
  }

  /** A scroll presses its wheel button once a notch, and nothing at all for no notches. */
  lemma ScrollClicks(keysymFor: Chord.Lookup, at: Coordinate, ctx: Context, up: bool, amount: u32)
    requires OnScreen(ctx, at)
    ensures var ops := PlanFor(keysymFor, Scroll(at, up, amount), ctx).ops;
            var button: byte := if up then 8 else 16;
      && Clicked(ops) == Times((at.x as u16, at.y as u16, button), amount)
      && (amount == 0 ==> ops == [])
  {
    hide Clicked, Clicks;
    if amount == 0 { NothingClicked(); } else { ClicksClick(at.x, at.y, Wheel(up), amount); }
  }

  lemma NothingClicked()
    ensures Clicked([]) == []
  {
  }

  /** The keys a plan presses, in order. */
  function Pressed(ops: seq<RfbOp>): seq<u32> {
    if |ops| == 0 then []
    else (if ops[0].Key? && ops[0].down then [ops[0].keysym] else []) + Pressed(ops[1..])
  }

  /** Typing presses one key per character, that character's own. */
  lemma {:induction false} TypePresses(keysymFor: Chord.Lookup, text: string)
    requires TypeOps(keysymFor, text).Ok?
    ensures var keys := Pressed(TypeOps(keysymFor, text).ops);
      |keys| == |text| && forall i :: 0 <= i < |text| ==> KeysymForTyped(keysymFor, text[i]) == Some(keys[i])
  {
    hide KeysymForTyped;
    if |text| > 0 {
      TypePresses(keysymFor, text[1..]);
      var ops, tail := TypeOps(keysymFor, text).ops, TypeOps(keysymFor, text[1..]).ops;
      assert ops[1..][1..] == tail;
      assert Pressed(ops) == [ops[0].keysym] + Pressed(tail);
    }
  }

  lemma {:induction false} PressedJoin(a: seq<RfbOp>, b: seq<RfbOp>)
    ensures Pressed(a + b) == Pressed(a) + Pressed(b)
  {
    if |a| == 0 {
      assert a + b == b;
    } else {
      assert (a + b)[1..] == a[1..] + b;
      PressedJoin(a[1..], b);
    }
  }

  lemma PressedOne(op: RfbOp, rest: seq<RfbOp>)
    ensures Pressed([op] + rest) == (if op.Key? && op.down then [op.keysym] else []) + Pressed(rest)
  {
    assert ([op] + rest)[1..] == rest;
  }

  lemma {:induction false} DownsPress(syms: seq<u32>)
    ensures Pressed(Downs(syms)) == syms && Pressed(Ups(syms)) == []
  {
    if |syms| > 0 {
      var fewer, last := syms[..|syms| - 1], syms[|syms| - 1];
      DownsPress(fewer);
      PressedJoin(Downs(fewer), [Key(last, true)]);
      PressedOne(Key(last, true), []);
      PressedOne(Key(last, false), Ups(fewer));
      hide Pressed;
      assert fewer + [last] == syms;
    }
  }

  /** A chord presses its keysyms in the order its text names them. */
  lemma ChordPresses(keysymFor: Chord.Lookup, text: string)
    requires ChordOps(keysymFor, text).Ok?
    ensures Chord.ParseSegments(keysymFor, Split(text, '+')) == Chord.Ok(Pressed(ChordOps(keysymFor, text).ops))
  {
    var syms := Chord.ParseSegments(keysymFor, Split(text, '+')).keysyms;
    PressedJoin(Downs(syms), Ups(syms));
    DownsPress(syms);
  }

  // ---------------------------------------------------------------- plans stay on the screen

  /** Every pointer event is inside the screen. */
  predicate Inside(ops: seq<RfbOp>, ctx: Context) {
    forall i :: 0 <= i < |ops| && ops[i].Pointer? ==> ops[i].x < ctx.width && ops[i].y < ctx.height
  }

  lemma {:induction false} PressesInside(x: u16, y: u16, buttons: byte, count: nat, ctx: Context)
    requires x < ctx.width && y < ctx.height
    ensures Inside(Presses(x, y, buttons, count), ctx)
  {
    if count > 0 { PressesInside(x, y, buttons, count - 1, ctx); }
  }

  lemma {:induction false} WalkInside(sx: u16, sy: u16, ex: u16, ey: u16, i: nat, n: nat, stepMs: nat, ctx: Context)
    requires i <= n && n > 0 && sx < ctx.width && ex < ctx.width && sy < ctx.height && ey < ctx.height
    ensures Inside(Walk(sx, sy, ex, ey, i, n, stepMs), ctx)
    decreases i
  {
    hide Along;
    if i > 0 {
      WalkInside(sx, sy, ex, ey, i - 1, n, stepMs, ctx);
      PointOnTheLine(sx, ex, i, n);
      PointOnTheLine(sy, ey, i, n);
    }
  }

  lemma {:induction false} TypeHasNoPointer(keysymFor: Chord.Lookup, text: string, ctx: Context)
    ensures TypeOps(keysymFor, text).Ok? ==> Inside(TypeOps(keysymFor, text).ops, ctx)
  {
    hide KeysymForTyped;
    if |text| > 0 { TypeHasNoPointer(keysymFor, text[1..], ctx); }
  }

  lemma {:induction false} KeysHaveNoPointer(syms: seq<u32>, ctx: Context)
    ensures Inside(Downs(syms), ctx) && Inside(Ups(syms), ctx)
  {
    if |syms| > 0 { KeysHaveNoPointer(syms[..|syms| - 1], ctx); }
  }

  /** No plan puts the pointer outside the screen it was planned for; a coordinate off it is refused. */
  lemma PlanIsInside(keysymFor: Chord.Lookup, a: Action, ctx: Context)
    ensures match PlanFor(keysymFor, a, ctx)
            case Ok(ops) => Inside(ops, ctx)
            case Err(OutOfBounds(at)) => !OnScreen(ctx, at)
            case Err(UnknownKey(_)) => a.Type? || a.Chord?
  {
    hide Presses, Walk, TypeOps, ChordOps, Along;
    match a
    case LeftClick(at) => if OnScreen(ctx, at) { PressesInside(at.x, at.y, LEFT, 1, ctx); }
    case RightClick(at) => if OnScreen(ctx, at) { PressesInside(at.x, at.y, RIGHT, 1, ctx); }
    case MiddleClick(at) => if OnScreen(ctx, at) { PressesInside(at.x, at.y, MIDDLE, 1, ctx); }
    case DoubleClick(at) => if OnScreen(ctx, at) { PressesInside(at.x, at.y, LEFT, 2, ctx); }
    case TripleClick(at) => if OnScreen(ctx, at) { PressesInside(at.x, at.y, LEFT, 3, ctx); }
    case LeftClickDrag(start, at) =>
      if OnScreen(ctx, start) && OnScreen(ctx, at) {
        WalkInside(start.x, start.y, at.x, at.y, Steps(ctx.drag), Steps(ctx.drag), ctx.drag.stepMs, ctx);
      }
    case Scroll(at, up, amount) =>
      if OnScreen(ctx, at) { PressesInside(at.x, at.y, Wheel(up), amount, ctx); }
    case Type(text) => TypeHasNoPointer(keysymFor, text, ctx); TypeFailsByName(keysymFor, text);
    case Chord(text) => ChordInside(keysymFor, text, ctx);
    case _ =>
  }

  lemma {:induction false} TypeFailsByName(keysymFor: Chord.Lookup, text: string)
    ensures TypeOps(keysymFor, text).Err? ==> TypeOps(keysymFor, text).error.UnknownKey?
  {
    hide KeysymForTyped;
    if |text| > 0 { TypeFailsByName(keysymFor, text[1..]); }
  }

  lemma ChordInside(keysymFor: Chord.Lookup, text: string, ctx: Context)
    ensures match ChordOps(keysymFor, text) case Ok(ops) => Inside(ops, ctx) case Err(e) => e.UnknownKey?
  {
    match Chord.ParseSegments(keysymFor, Split(text, '+'))
    case UnknownKey(_) =>
    case Ok(syms) => KeysHaveNoPointer(syms, ctx);
  }
}
