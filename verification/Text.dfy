/** Splitting text at a separator, and joining it back. */
module Text {
  /** `str::split(sep)`: never empty. */
  function Split(s: string, sep: char): (parts: seq<string>)
    ensures |parts| > 0
  {
    if |s| == 0 then [""]
    else
      var tail := Split(s[1..], sep);
      if s[0] == sep then [""] + tail else [[s[0]] + tail[0]] + tail[1..]
  }

  function Join(parts: seq<string>, sep: char): string
    requires |parts| > 0
  {
    if |parts| == 1 then parts[0] else parts[0] + [sep] + Join(parts[1..], sep)
  }

  /** Splitting loses nothing. */
  lemma {:induction false} JoinSplit(s: string, sep: char)
    ensures Join(Split(s, sep), sep) == s
  {
    if |s| > 0 {
      var tail := Split(s[1..], sep);
      JoinSplit(s[1..], sep);
      if s[0] == sep {
        assert ([""] + tail)[1..] == tail;
        assert s == [sep] + s[1..];
      } else {
        var first := [s[0]] + tail[0];
        var parts := [first] + tail[1..];
        assert parts[1..] == tail[1..];
        assert s == [s[0]] + s[1..];
        if |tail| > 1 {
          assert Join(parts, sep) == first + [sep] + Join(tail[1..], sep);
          assert Join(tail, sep) == tail[0] + [sep] + Join(tail[1..], sep);
        }
      }
    }
  }

  lemma {:induction false} SplitPlain(a: string, sep: char)
    requires sep !in a
    ensures Split(a, sep) == [a]
  {
    if |a| > 0 {
      SplitPlain(a[1..], sep);
      assert [a[0]] + a[1..] == a;
    }
  }

  lemma {:induction false} SplitAfter(a: string, rest: string, sep: char)
    requires sep !in a
    ensures Split(a + [sep] + rest, sep) == [a] + Split(rest, sep)
  {
    var s := a + [sep] + rest;
    if |a| == 0 {
      assert s[1..] == rest;
    } else {
      SplitAfter(a[1..], rest, sep);
      assert s[1..] == a[1..] + [sep] + rest;
      assert [a[0]] + a[1..] == a;
      assert ([a[1..]] + Split(rest, sep))[1..] == Split(rest, sep);
    }
  }

  lemma {:induction false} PartsArePlain(s: string, sep: char)
    ensures forall i :: 0 <= i < |Split(s, sep)| ==> sep !in Split(s, sep)[i]
  {
    if |s| > 0 { PartsArePlain(s[1..], sep); }
  }
}
