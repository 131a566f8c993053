/** The session's shared object: each of its methods is the steps of `Sessions` run back to back. */
module SessionInner {
  import opened Bytes
  import opened Sessions
  import M = ClientMessages

  class Inner {
    var connected: bool
    var outstanding: nat
    var needsFull: bool
    var size: Size
    var commands: seq<Command>
    /** The writer has gone and taken its end of the queue with it. */
    var receiverGone: bool
    var events: seq<Event>
    var shutdown: bool

    /** What a state of the step system looks like from here. */
    ghost predicate Shows(s: State)
      reads this
    {
      && connected == s.Connected() && outstanding == s.shared.outstanding && needsFull == s.shared.needsFull
      && size == s.shared.size && commands == s.shared.queue && events == s.shared.events
      && receiverGone == s.writer.WriterStopped? && shutdown == s.shared.death.Shut?
    }

    /** `build_request`: take the flag, then read the size. */
    method BuildRequest(incremental: bool, ghost s: State) returns (asIncremental: bool, asSize: Size)
      requires Shows(s) && s.writer == Swapping(incremental)
      modifies this`needsFull
      ensures var t := WriterDo(WriterDo(s, Advance), Advance);
        && Shows(t) && t.writer == WritingRequest(incremental) && |t.past.built| == |s.past.built| + 1
        && t.past.built[|s.past.built|].incremental == asIncremental && t.past.built[|s.past.built|].size == asSize
    {
      var first := needsFull;
      needsFull := false;
      asSize := size;
      asIncremental := incremental && !first;
    }

    /** `send` as a `refresh` calls it: look at `connected`, count the request, push the command. */
    method Send(incremental: bool, ghost s: State, ghost id: nat) returns (ok: bool)
      requires Shows(s) && id in s.calls && s.calls[id].Floored? && s.calls[id].incremental == incremental
      modifies this`outstanding, this`commands
      ensures var t := CallDo(s, id, Forward);
        if !s.Connected() then !ok && Shows(t) && t.calls[id] == Done(Closed)
        else
          var u := CallDo(CallDo(t, id, Forward), id, Forward);
          && Shows(u)
          && (ok ==> u.calls[id] == Listening(s.calls[id].pos, s.calls[id].floor, s.calls[id].floorAt))
          && (!ok ==> u.calls[id] == Done(Closed))
    {
      if !connected {
        return false;
      }
      outstanding := outstanding + 1;
      if !receiverGone {
        commands := commands + [Request(incremental)];
      }
      ok := !receiverGone;
    }

    /** `mark_dead`: only the first to swap the flag announces the death. */
    method MarkDead(ghost s: State)
      requires Shows(s)
      modifies this`connected, this`events, this`shutdown
      ensures if s.Connected() then Shows(Moved(Moved(Kill(s), Announces), Announces)) else Shows(s)
    {
      if connected {
        connected := false;
        events := events + [Disconnected];
        shutdown := true;
      }
    }

    /** `key_burst`: every key event in one command, so that nothing is written between them. */
    method KeyBurst(keys: seq<(u32, bool)>) returns (ok: bool)
      modifies this`commands
      ensures commands == if ok then old(commands) + [Write(M.EncodeAll(KeyMessages(keys)))] else old(commands)
      ensures ok == (connected && !receiverGone)
    {
      hide M.Encode;
      var bytes: seq<byte> := [];
      assert keys[0..] == keys;
      for i := 0 to |keys|
        invariant commands == old(commands)
        invariant M.EncodeAll(KeyMessages(keys)) == bytes + M.EncodeAll(KeyMessages(keys[i..]))
      {
        KeyNext(keys, i);
        Regroup(bytes, M.Encode(M.Key(keys[i].0, keys[i].1)), M.EncodeAll(KeyMessages(keys[i + 1..])));
        bytes := bytes + M.Encode(M.Key(keys[i].0, keys[i].1));
      }
      assert keys[|keys|..] == [] && bytes + [] == bytes;
      if !connected || receiverGone {
        return false;
      }
      commands := commands + [Write(bytes)];
      ok := true;
    }
  }

  function KeyMessages(keys: seq<(u32, bool)>): (m: seq<M.Message>) {
    if |keys| == 0 then [] else [M.Key(keys[0].0, keys[0].1)] + KeyMessages(keys[1..])
  }

  lemma KeyNext(keys: seq<(u32, bool)>, i: nat)
    requires i < |keys|
    ensures M.EncodeAll(KeyMessages(keys[i..]))
         == M.Encode(M.Key(keys[i].0, keys[i].1)) + M.EncodeAll(KeyMessages(keys[i + 1..]))
  {
    hide M.Encode;
    assert keys[i..][1..] == keys[i + 1..];
    var m := KeyMessages(keys[i..]);
    assert m[1..] == KeyMessages(keys[i + 1..]);
  }

  lemma {:induction false} KeysSeen(keys: seq<(u32, bool)>)
    ensures M.AllSeen(KeyMessages(keys)) == KeyMessages(keys)
    ensures forall i :: 0 <= i < |KeyMessages(keys)| ==> M.Fits(KeyMessages(keys)[i])
  {
    if |keys| > 0 {
      KeysSeen(keys[1..]);
      assert KeyMessages(keys)[1..] == KeyMessages(keys[1..]);
    }
  }

  lemma {:induction false} KeysAre(keys: seq<(u32, bool)>)
    ensures |KeyMessages(keys)| == |keys|
    ensures forall i :: 0 <= i < |keys| ==> KeyMessages(keys)[i] == M.Key(keys[i].0, keys[i].1)
  {
    if |keys| > 0 { KeysAre(keys[1..]); }
  }

  /** The server reads a burst's one write back as exactly its key events, in order and to the byte. */
  lemma BurstIsItsKeys(keys: seq<(u32, bool)>)
    ensures var read := M.ReadAll(M.EncodeAll(KeyMessages(keys)));
      && read == M.Parsed(KeyMessages(keys), []) && |read.messages| == |keys|
      && forall i :: 0 <= i < |keys| ==> read.messages[i] == M.Key(keys[i].0, keys[i].1)
  {
    KeysSeen(keys);
    KeysAre(keys);
    M.StreamRoundTrip(KeyMessages(keys));
  }
}
