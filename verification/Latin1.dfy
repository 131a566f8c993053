/** Cut text on the wire: latin-1, with carriage returns dropped and everything else degraded to '?'. */
module Latin1 {
  import opened Bytes

  /** A character's latin-1 byte. */
  function Lower(c: char): byte {
    if (c as int) < 0x100 then c as int else '?' as int
  }

  function ToLatin1(text: string): (b: seq<byte>)
    ensures |b| <= |text|
  {
    if |text| == 0 then []
    else (if text[0] == '\r' then [] else [Lower(text[0])]) + ToLatin1(text[1..])
  }

  function FromLatin1(b: seq<byte>): (text: string)
    ensures |text| == |b| && forall i :: 0 <= i < |b| ==> text[i] as int == b[i]
  {
    seq(|b|, i requires 0 <= i < |b| => b[i] as char)
  }

  /** Text the wire can carry as it stands. */
  predicate Plain(text: string) {
    forall c :: c in text ==> c != '\r' && (c as int) < 0x100
  }

  lemma FromLatin1Cons(b: byte, rest: seq<byte>)
    ensures FromLatin1([b] + rest) == [b as char] + FromLatin1(rest)
  {
  }

  /** What the wire makes of any text, character by character: carriage returns vanish, Latin-1 is kept, and
      every other character becomes a question mark. */
  lemma {:induction false} CharByChar(a: string, c: char, b: string)
    ensures ToLatin1(a + [c] + b)
         == ToLatin1(a) + (if c as int == 13 then [] else if (c as int) < 256 then [c as int] else [63]) + ToLatin1(b)
    ensures ToLatin1([]) == []
  {
    var one: seq<byte> := if c == '\r' then [] else [Lower(c)];
    if |a| == 0 {
      assert a + [c] + b == [c] + b && ([c] + b)[1..] == b;
      assert [] + one == one;
    } else {
      var head: seq<byte> := if a[0] == '\r' then [] else [Lower(a[0])];
      CharByChar(a[1..], c, b);
      assert (a + [c] + b)[1..] == a[1..] + [c] + b;
      hide Lower;
      Regroup(head, ToLatin1(a[1..]), one);
      Regroup(head, ToLatin1(a[1..]) + one, ToLatin1(b));
    }
  }

  /** Plain text survives, and only plain text does. */
  lemma {:induction false} SurvivesIffPlain(text: string)
    ensures FromLatin1(ToLatin1(text)) == text <==> Plain(text)
  {
    if |text| > 0 {
      var head, tail := text[0], text[1..];
      SurvivesIffPlain(tail);
      assert text == [head] + tail;
      PlainCons(head, tail);
      if head == '\r' {
        assert |ToLatin1(text)| < |text|;
      } else {
        FromLatin1Cons(Lower(head), ToLatin1(tail));
        var back := FromLatin1(ToLatin1(tail));
        assert ([Lower(head) as char] + back)[1..] == back;
        if [Lower(head) as char] + back == [head] + tail {
          assert back == tail;
        }
      }
    }
  }

  lemma PlainCons(head: char, tail: string)
    ensures Plain([head] + tail) <==> head != '\r' && (head as int) < 0x100 && Plain(tail)
  {
    assert head in [head] + tail;
    assert forall c :: c in tail ==> c in [head] + tail;
  }

  /** Lowering what came off the wire changes nothing: text is stable after one trip. */
  lemma {:induction false} SecondTripIsStable(text: string)
    ensures ToLatin1(FromLatin1(ToLatin1(text))) == ToLatin1(text)
  {
    if |text| > 0 {
      var head, tail := text[0], text[1..];
      SecondTripIsStable(tail);
      if head == '\r' {
        assert ToLatin1(text) == ToLatin1(tail);
      } else {
        var c := Lower(head) as char;
        FromLatin1Cons(Lower(head), ToLatin1(tail));
        var back := [c] + FromLatin1(ToLatin1(tail));
        assert back[0] == c && back[1..] == FromLatin1(ToLatin1(tail));
        assert c != '\r' && Lower(c) == Lower(head);
      }
    }
  }
}
