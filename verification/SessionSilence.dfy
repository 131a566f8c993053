/** What a dead session still says: nothing but the sends that were past their check when it died. */
module SessionSilence {
  import opened Sessions

  /** A call that has passed its check and not yet queued its command. */
  predicate PastCheck(call: Call) {
    call.CallCounting? || call.CallPushing? || call.Speaking?
  }

  function Passed(calls: map<nat, Call>): set<nat> {
    set id | id in calls && PastCheck(calls[id])
  }

  function OpenerSends(o: Opener): nat {
    if o.Counting? || o.Pushing? then 1 else 0
  }

  function ReaderSends(r: Reader): nat {
    if r.AskCounting? || r.AskPushing? then 1 else 0
  }

  /** Every send past its check: the calls', the reader's own and `connect`'s. */
  function Sending(s: State): nat {
    |Passed(s.calls)| + OpenerSends(s.opener) + ReaderSends(s.reader)
  }

  lemma CallSilence(s: State, id: nat, t: CallStep)
    requires CallCan(s, id, t) && !s.Connected()
    ensures var r := CallDo(s, id, t);
      && Passed(r.calls) <= Passed(s.calls)
      && (r.past.queued == s.past.queued
          || (id in Passed(s.calls) - Passed(r.calls) && |r.past.queued| == |s.past.queued| + 1))
  {
  }

  lemma {:induction false} Fewer(a: set<nat>, b: set<nat>)
    requires a <= b
    ensures |a| <= |b| && (a != b ==> |a| < |b|)
    decreases |a|
  {
    if a != {} {
      var x :| x in a;
      Fewer(a - {x}, b - {x});
      assert a == (a - {x}) + {x} && b == (b - {x}) + {x};
    }
  }

  lemma StepSilence(s: State, t: Step)
    requires Can(s, t) && !s.Connected()
    ensures !Do(s, t).Connected()
    ensures |Do(s, t).past.queued| + Sending(Do(s, t)) <= |s.past.queued| + Sending(s)
  {
    hide CallDo, ReaderDo, WriterDo, Passed;
    match t
    case ByCall(id, c) =>
      CallSilence(s, id, c);
      Fewer(Passed(CallDo(s, id, c).calls), Passed(s.calls));
    case ByReader(r) => ReaderSilence(s, r);
    case ByWriter(w) => WriterSilence(s, w);
    case _ =>
  }

  lemma ReaderSilence(s: State, t: ReaderStep)
    requires ReaderCan(s, t) && !s.Connected()
    ensures var r := ReaderDo(s, t);
      !r.Connected() && |r.past.queued| + ReaderSends(r.reader) <= |s.past.queued| + ReaderSends(s.reader)
  {
  }

  lemma WriterSilence(s: State, t: WriterStep)
    requires WriterCan(s, t) && !s.Connected()
    ensures !WriterDo(s, t).Connected() && WriterDo(s, t).past.queued == s.past.queued
  {
  }

  /** However a dead session goes on, no more commands are queued than there were sends past their check when
      it died, or at any moment since. */
  lemma {:induction false} NothingAfterDeath(s: State, steps: seq<Step>)
    requires CanRun(s, steps) && !s.Connected()
    ensures var e := After(s, steps);
      !e.Connected() && |e.past.queued| + Sending(e) <= |s.past.queued| + Sending(s)
    decreases |steps|
  {
    hide Can, Do, Sending;
    if |steps| > 0 {
      StepSilence(s, steps[0]);
      NothingAfterDeath(Do(s, steps[0]), steps[1..]);
    }
  }

  /** Where a call that a dead session refuses can be. */
  predicate Refused(call: Call) {
    call.Subscribed? || call.Floored? || call == Done(Closed)
  }

  lemma StaysRefused(s: State, t: Step, id: nat)
    requires Can(s, t) && !s.Connected()
    requires (id in s.calls && Refused(s.calls[id])) || (t.ByCall? && t.id == id && id !in s.calls)
    ensures id in Do(s, t).calls && Refused(Do(s, t).calls[id])
  {
    hide ReaderDo, WriterDo;
  }

  lemma {:induction false} RunRefused(s: State, steps: seq<Step>, id: nat)
    requires CanRun(s, steps) && !s.Connected() && id in s.calls && Refused(s.calls[id])
    ensures id in After(s, steps).calls && Refused(After(s, steps).calls[id])
    decreases |steps|
  {
    hide Can, Do, Refused;
    if |steps| > 0 {
      StaysRefused(s, steps[0], id);
      StepSilence(s, steps[0]);
      RunRefused(Do(s, steps[0]), steps[1..], id);
    }
  }

  /** A call made of a dead session is never sent and never waits: it is a `refresh` on its way to its check,
      or it has been answered that the session is closed. */
  lemma {:induction false} LateCallsAreRefused(s: State, steps: seq<Step>, k: nat, id: nat)
    requires CanRun(s, steps) && !s.Connected() && id !in s.calls
    requires k < |steps| && steps[k].ByCall? && steps[k].id == id
    ensures id in After(s, steps).calls && Refused(After(s, steps).calls[id])
    decreases k
  {
    hide Can, Do, Refused;
    StepSilence(s, steps[0]);
    if steps[0].ByCall? && steps[0].id == id {
      StaysRefused(s, steps[0], id);
      RunRefused(Do(s, steps[0]), steps[1..], id);
    } else {
      NotYetMade(s, steps[0], id);
      assert steps[1..][k - 1] == steps[k];
      LateCallsAreRefused(Do(s, steps[0]), steps[1..], k - 1, id);
    }
  }

  lemma NotYetMade(s: State, t: Step, id: nat)
    requires Can(s, t) && id !in s.calls && !(t.ByCall? && t.id == id)
    ensures id !in Do(s, t).calls
  {
    hide ReaderDo, WriterDo;
  }
}
