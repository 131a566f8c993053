/** Key chords: which texts the parser accepts, what it answers, and that no text is two chords. */
module Chord {
  import opened Bytes
  import opened Text

  /** The key-name tables: what keysym a name stands for, if any. */
  type Lookup = string -> Option<u32>

  const PLUS: u32 := 0x2b

  datatype Parse = Ok(keysyms: seq<u32>) | UnknownKey(name: string)

  // ---------------------------------------------------------------- what a chord is

  /** A key of a chord: the plus key, or a name the tables know. */
  predicate IsKey(keysymFor: Lookup, name: string) {
    name == "+" || (name != "" && '+' !in name && keysymFor(name).Some?)
  }

  predicate IsChord(keysymFor: Lookup, names: seq<string>) {
    |names| > 0 && forall i :: 0 <= i < |names| ==> IsKey(keysymFor, names[i])
  }

  function Keysyms(keysymFor: Lookup, names: seq<string>): seq<u32>
    requires forall i :: 0 <= i < |names| ==> IsKey(keysymFor, names[i])
  {
    if |names| == 0 then []
    else
      assert IsKey(keysymFor, names[0]);
      [if names[0] == "+" then PLUS else keysymFor(names[0]).value] + Keysyms(keysymFor, names[1..])
  }

  /** The segments a chord's text splits into: the plus key leaves two empty ones. */
  function Segments(names: seq<string>): seq<string> {
    if |names| == 0 then [] else (if names[0] == "+" then ["", ""] else [names[0]]) + Segments(names[1..])
  }

  // ---------------------------------------------------------------- what the parser makes of segments

  function ParseSegments(keysymFor: Lookup, segments: seq<string>): Parse {
    if |segments| == 0 then Ok([])
    else if segments[0] == "" then
      if |segments| > 1 && segments[1] == "" then Then(PLUS, ParseSegments(keysymFor, segments[2..]))
      else UnknownKey("")
    else match keysymFor(segments[0])
      case None => UnknownKey(segments[0])
      case Some(k) => Then(k, ParseSegments(keysymFor, segments[1..]))
  }

  function Then(k: u32, p: Parse): Parse {
    match p
    case Ok(keysyms) => Ok([k] + keysyms)
    case UnknownKey(name) => UnknownKey(name)
  }

  /** `parse_chord`: the loop over the segments. */
  method ParseChord(keysymFor: Lookup, spec: string) returns (r: Parse)
    ensures r == ParseSegments(keysymFor, Split(spec, '+'))
  {
    var segments := Split(spec, '+');
    var out := [];
    var i := 0;
    assert segments[0..] == segments;
    while i < |segments|
      invariant 0 <= i <= |segments|
      invariant i > 0 ==> |out| > 0
      invariant ParseSegments(keysymFor, segments) == Front(out, ParseSegments(keysymFor, segments[i..]))
    {
      var seg := segments[i];
      assert segments[i..][1..] == segments[i + 1..];
      if seg == "" {
        if i + 1 < |segments| && segments[i + 1] == "" {
          assert segments[i..][2..] == segments[i + 2..];
          FrontNext(out, PLUS, ParseSegments(keysymFor, segments[i + 2..]));
          out := out + [PLUS];
          i := i + 2;
          continue;
        }
        return UnknownKey("");
      }
      match keysymFor(seg) {
        case Some(k) =>
          FrontNext(out, k, ParseSegments(keysymFor, segments[i + 1..]));
          out := out + [k];
        case None => return UnknownKey(seg);
      }
      i := i + 1;
    }
    if out == [] {
      return UnknownKey(spec);
    }
    r := Ok(out);
  }

  function Front(out: seq<u32>, p: Parse): Parse {
    match p
    case Ok(keysyms) => Ok(out + keysyms)
    case UnknownKey(name) => UnknownKey(name)
  }

  lemma FrontNext(out: seq<u32>, k: u32, p: Parse)
    ensures Front(out, Then(k, p)) == Front(out + [k], p)
  {
    match p
    case Ok(keysyms) => assert out + ([k] + keysyms) == out + [k] + keysyms;
    case UnknownKey(_) =>
  }

  // ---------------------------------------------------------------- the two are inverse

  lemma {:induction false} SplitJoin(keysymFor: Lookup, names: seq<string>)
    requires IsChord(keysymFor, names)
    ensures Split(Join(names, '+'), '+') == Segments(names)
  {
    var first, tail := names[0], names[1..];
    assert IsKey(keysymFor, first);
    if |names| == 1 {
      assert Segments(tail) == [];
      if first == "+" { assert "+" == "" + "+" + ""; SplitAfter("", "", '+'); } else { SplitPlain(first, '+'); }
    } else {
      SplitJoin(keysymFor, tail);
      if first == "+" {
        assert Join(names, '+') == "" + "+" + ("" + "+" + Join(tail, '+'));
        SplitAfter("", "" + "+" + Join(tail, '+'), '+');
        SplitAfter("", Join(tail, '+'), '+');
        assert [""] + ([""] + Segments(tail)) == ["", ""] + Segments(tail);
      } else {
        SplitAfter(first, Join(tail, '+'), '+');
      }
    }
  }

  lemma {:induction false} SegmentsParse(keysymFor: Lookup, names: seq<string>)
    requires forall i :: 0 <= i < |names| ==> IsKey(keysymFor, names[i])
    ensures ParseSegments(keysymFor, Segments(names)) == Ok(Keysyms(keysymFor, names))
  {
    if |names| > 0 {
      SegmentsParse(keysymFor, names[1..]);
      assert IsKey(keysymFor, names[0]);
      var s := Segments(names);
      if names[0] == "+" { assert s[2..] == Segments(names[1..]); } else { assert s[1..] == Segments(names[1..]); }
    }
  }

  /** Joining a chord's names and parsing the text gives their keysyms, in order. */
  lemma JoinedParses(keysymFor: Lookup, names: seq<string>)
    requires IsChord(keysymFor, names)
    ensures ParseSegments(keysymFor, Split(Join(names, '+'), '+')) == Ok(Keysyms(keysymFor, names))
  {
    SplitJoin(keysymFor, names);
    SegmentsParse(keysymFor, names);
  }

  /** Accepted segments come from a list of keys. */
  lemma {:induction false} NamesOf(keysymFor: Lookup, segments: seq<string>) returns (names: seq<string>)
    requires ParseSegments(keysymFor, segments).Ok?
    requires forall i :: 0 <= i < |segments| ==> '+' !in segments[i]
    ensures Segments(names) == segments && (forall i :: 0 <= i < |names| ==> IsKey(keysymFor, names[i]))
  {
    if |segments| == 0 {
      names := [];
    } else {
      var key, used := if segments[0] == "" then "+" else segments[0], if segments[0] == "" then 2 else 1;
      var tail := NamesOf(keysymFor, segments[used..]);
      hide ParseSegments;
      names := [key] + tail;
      assert names[1..] == tail;
      assert segments[..used] == if key == "+" then ["", ""] else [key];
      assert segments == segments[..used] + segments[used..];
    }
  }

  lemma {:induction false} SegmentsInjective(a: seq<string>, b: seq<string>)
    requires Segments(a) == Segments(b) && "" !in a && "" !in b
    ensures a == b
  {
    if |a| > 0 && |b| > 0 {
      var sa, sb := Segments(a), Segments(b);
      assert sa[0] == (if a[0] == "+" then "" else a[0]) && sb[0] == (if b[0] == "+" then "" else b[0]);
      assert a[0] in a && b[0] in b;
      assert a[0] == b[0];
      var used := if a[0] == "+" then 2 else 1;
      assert sa[used..] == Segments(a[1..]) && sb[used..] == Segments(b[1..]);
      SegmentsInjective(a[1..], b[1..]);
      assert a == [a[0]] + a[1..] && b == [b[0]] + b[1..];
    }
  }

  /** The parser accepts a text exactly when it is a chord's names joined, and then answers with that
      chord's keysyms. */
  lemma AcceptsExactlyChords(keysymFor: Lookup, spec: string)
    ensures ParseSegments(keysymFor, Split(spec, '+')).Ok?
       <==> exists names :: IsChord(keysymFor, names) && Join(names, '+') == spec
    ensures forall names :: IsChord(keysymFor, names) && Join(names, '+') == spec ==>
              ParseSegments(keysymFor, Split(spec, '+')) == Ok(Keysyms(keysymFor, names))
  {
    forall names | IsChord(keysymFor, names) && Join(names, '+') == spec
      ensures ParseSegments(keysymFor, Split(spec, '+')) == Ok(Keysyms(keysymFor, names))
    {
      JoinedParses(keysymFor, names);
    }
    if ParseSegments(keysymFor, Split(spec, '+')).Ok? {
      PartsArePlain(spec, '+');
      var names := NamesOf(keysymFor, Split(spec, '+'));
      assert IsChord(keysymFor, names);
      SplitJoin(keysymFor, names);
      JoinSplit(spec, '+');
      JoinSplit(Join(names, '+'), '+');
    }
  }

  /** A text that is no chord fails at its first segment that is no key, and by that segment's name: everything
      before it parses. */
  lemma {:induction false} FailsByName(keysymFor: Lookup, segments: seq<string>) returns (i: nat)
    requires ParseSegments(keysymFor, segments).UnknownKey?
    ensures i < |segments| && ParseSegments(keysymFor, segments[..i]).Ok?
    ensures ParseSegments(keysymFor, segments) == UnknownKey(segments[i])
    ensures segments[i] == "" || keysymFor(segments[i]) == None
  {
    var s := segments[0];
    if s == "" && |segments| > 1 && segments[1] == "" {
      var j := FailsByName(keysymFor, segments[2..]);
      i := j + 2;
      assert segments[..i][2..] == segments[2..][..j];
    } else if s != "" && keysymFor(s).Some? {
      var j := FailsByName(keysymFor, segments[1..]);
      i := j + 1;
      assert segments[..i][1..] == segments[1..][..j];
    } else {
      i := 0;
    }
  }

  /** The plus key's keysym. */
  lemma PlusKey(keysymFor: Lookup)
    ensures ParseSegments(keysymFor, Split("+", '+')) == Ok([0x2b])
  {
    assert [""][1..] == [] && ["", ""][2..] == [];
    SplitAfter("", "", '+');
    assert "" + "+" + "" == "+" && Split("", '+') == [""];
    assert [""] + [""] == ["", ""];
  }

  /** No text is two different chords. */
  lemma ChordIsUnique(keysymFor: Lookup, a: seq<string>, b: seq<string>)
    requires IsChord(keysymFor, a) && IsChord(keysymFor, b) && Join(a, '+') == Join(b, '+')
    ensures a == b
  {
    SplitJoin(keysymFor, a);
    SplitJoin(keysymFor, b);
    assert "" !in a && "" !in b;
    SegmentsInjective(a, b);
  }
}
