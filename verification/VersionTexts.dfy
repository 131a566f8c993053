/** Which texts are versions, and what each of them says: three numbers, perhaps a prerelease, perhaps build
    metadata. */
module VersionTexts {
  import opened Bytes
  import opened Text
  import opened Versions
  import opened NumericPrecedence

  /** A version as it is written. */
  datatype Written = Written(major: string, minor: string, patch: string, pre: Option<string>, build: Option<string>)

  /** The three numbers are digits; a prerelease ends where build metadata begins. */
  predicate WellWritten(w: Written) {
    AllDigits(w.major) && AllDigits(w.minor) && AllDigits(w.patch) && (w.pre.Some? ==> '+' !in w.pre.value)
  }

  /** The three numbers fit in 64 bits. */
  predicate Fits(w: Written)
    requires WellWritten(w)
  {
    Value(w.major) < 0x1_0000_0000_0000_0000 && Value(w.minor) < 0x1_0000_0000_0000_0000
    && Value(w.patch) < 0x1_0000_0000_0000_0000
  }

  function Core(w: Written): string {
    w.major + "." + (w.minor + "." + w.patch)
  }

  /** Core and prerelease. */
  function Bare(w: Written): string {
    match w.pre case None => Core(w) case Some(pre) => Core(w) + "-" + pre
  }

  function AsText(w: Written): string {
    match w.build case None => Bare(w) case Some(build) => Bare(w) + "+" + build
  }

  // ---------------------------------------------------------------- reading what was written

  /** Everything up to a separator, and everything after it. */
  lemma Cut(a: string, b: string, sep: char)
    requires sep !in a
    ensures Until(a + [sep] + b, sep) == a && Past(a + [sep] + b, sep) == Some(b)
  {
    var s := a + [sep] + b;
    IndexOfFirst(a, b, sep);
    assert s[..|a|] == a && s[|a| + 1..] == b;
  }

  lemma Uncut(a: string, sep: char)
    requires sep !in a
    ensures Until(a, sep) == a && Past(a, sep) == None
  {
    IndexOfPlain(a, sep);
    assert a[..|a|] == a;
  }

  lemma DigitsArePlain(s: string, c: char)
    requires OnlyDigits(s) && !('0' <= c <= '9')
    ensures c !in s
  {
  }

  lemma CoreParts(w: Written)
    requires WellWritten(w)
    ensures Split(Core(w), '.') == [w.major, w.minor, w.patch]
    ensures '-' !in Core(w) && '+' !in Core(w)
  {
    hide Split;
    DigitsArePlain(w.major, '.'); DigitsArePlain(w.major, '-'); DigitsArePlain(w.major, '+');
    DigitsArePlain(w.minor, '.'); DigitsArePlain(w.minor, '-'); DigitsArePlain(w.minor, '+');
    DigitsArePlain(w.patch, '.'); DigitsArePlain(w.patch, '-'); DigitsArePlain(w.patch, '+');
    SplitAfter(w.major, w.minor + "." + w.patch, '.');
    SplitAfter(w.minor, w.patch, '.');
    SplitPlain(w.patch, '.');
    assert Core(w) == w.major + ['.'] + (w.minor + ['.'] + w.patch);
    assert [w.major] + ([w.minor] + [w.patch]) == [w.major, w.minor, w.patch];
  }

  lemma ThreeNumbers(a: string, b: string, c: string)
    ensures ParseCore([a, b, c])
         == match (ParseU64(a), ParseU64(b), ParseU64(c))
            case (Some(x), Some(y), Some(z)) => Some([x, y, z])
            case _ => None
  {
    hide ParseU64;
    NextNumber(c, []);
    NextNumber(b, [c]);
    NextNumber(a, [b, c]);
    assert [c] + [] == [c] && [b] + [c] == [b, c] && [a] + [b, c] == [a, b, c];
    match (ParseU64(a), ParseU64(b), ParseU64(c))
    case (Some(x), Some(y), Some(z)) => assert [x] + ([y] + ([z] + [])) == [x, y, z];
    case _ =>
  }

  lemma NextNumber(part: string, rest: seq<string>)
    ensures ParseCore([]) == Some([])
    ensures ParseCore([part] + rest)
         == match ParseU64(part)
            case None => None
            case Some(n) => match ParseCore(rest) case None => None case Some(more) => Some([n] + more)
  {
    assert ([part] + rest)[1..] == rest;
  }

  lemma BareIsPlain(w: Written)
    requires WellWritten(w)
    ensures '+' !in Bare(w) && Until(Bare(w), '-') == Core(w) && Past(Bare(w), '-') == w.pre
  {
    CoreParts(w);
    hide Core, Split;
    match w.pre
    case None => Uncut(Core(w), '-');
    case Some(pre) => Cut(Core(w), pre, '-');
  }

  /** Reading a version gives its three numbers in order and its prerelease, whatever the build metadata,
      and nothing if one of the numbers does not fit in 64 bits. */
  lemma ParseWritten(w: Written)
    requires WellWritten(w)
    ensures Parse(AsText(w))
         == if Fits(w) then Some(Version([Value(w.major), Value(w.minor), Value(w.patch)], w.pre)) else None
  {
    BareIsPlain(w);
    CoreParts(w);
    hide Bare, Core, Until, Past, Split, Value, ParseU64, ParseCore;
    assert Until(AsText(w), '+') == Bare(w) by {
      match w.build
      case None => Uncut(Bare(w), '+');
      case Some(build) => Cut(Bare(w), build, '+');
    }
    Overflows(w.major);
    Overflows(w.minor);
    Overflows(w.patch);
    ThreeNumbers(w.major, w.minor, w.patch);
  }

  // ---------------------------------------------------------------- nothing else is a version

  /** A text is what stands before its first separator, that separator, and what stands after. */
  lemma Uncutting(s: string, sep: char)
    ensures sep !in Until(s, sep)
    ensures s == match Past(s, sep) case None => Until(s, sep) case Some(rest) => Until(s, sep) + [sep] + rest
  {
    var i := IndexOf(s, sep);
    if i < |s| { assert s == s[..i] + [s[i]] + s[i + 1..]; }
  }

  lemma {:induction false} PartsWithin(s: string, sep: char, c: char)
    requires c !in s
    ensures forall i :: 0 <= i < |Split(s, sep)| ==> c !in Split(s, sep)[i]
  {
    if |s| > 0 {
      assert s[0] in s && c !in s[1..];
      PartsWithin(s[1..], sep, c);
    }
  }

  /** A part that is read as a number, with no plus sign in it, is digits. */
  lemma UnsignedIsDigits(part: string)
    requires '+' !in part && ParseU64(part).Some?
    ensures AllDigits(part) && Value(part) < 0x1_0000_0000_0000_0000
  {
    assert Unsigned(part) == part;
  }

  lemma ThreeJoined(a: string, b: string, c: string)
    ensures Join([a, b, c], '.') == a + "." + (b + "." + c)
  {
    assert [a, b, c][1..] == [b, c] && [b, c][1..] == [c];
    assert Join([b, c], '.') == b + "." + c;
  }

  lemma WrittenOf(v: string) returns (w: Written)
    requires Parse(v).Some?
    ensures WellWritten(w) && Fits(w) && AsText(w) == v
  {
    var bare := Until(v, '+');
    var core := Until(bare, '-');
    var parts := Split(core, '.');
    Uncutting(v, '+');
    Uncutting(bare, '-');
    JoinSplit(core, '.');
    hide Split, Join, ParseU64, ParseCore, Until, Past, Value;
    assert |parts| == 3;
    var a, b, c := parts[0], parts[1], parts[2];
    assert parts == [a, b, c];
    assert forall x :: x in core ==> x in bare;
    PartsWithin(core, '.', '+');
    ThreeNumbers(a, b, c);
    UnsignedIsDigits(a);
    UnsignedIsDigits(b);
    UnsignedIsDigits(c);
    ThreeJoined(a, b, c);
    assert forall x :: x in bare && Past(bare, '-').Some? && x in Past(bare, '-').value ==> x != '+';
    w := Written(a, b, c, Past(bare, '-'), Past(v, '+'));
    assert Core(w) == core && Bare(w) == bare;
  }

  /** A text is a version exactly when it is written as one with numbers that fit: no signs, no missing or
      extra fields. */
  lemma VersionIff(v: string)
    ensures Parse(v).Some? <==> exists w :: WellWritten(w) && Fits(w) && AsText(w) == v
  {
    if Parse(v).Some? { var w := WrittenOf(v); }
    forall w | WellWritten(w) && Fits(w) && AsText(w) == v ensures Parse(v).Some? { ParseWritten(w); }
  }

  // ---------------------------------------------------------------- comparing what was written

  /** Versions compare as their first differing number, whatever follows it; with all three the same, the
      one without a prerelease comes last, and two prereleases compare by their identifiers. */
  lemma FieldsDecide(v: Written, w: Written)
    requires WellWritten(v) && WellWritten(w) && Fits(v) && Fits(w)
    ensures var (a, b, c) := (Value(v.major), Value(v.minor), Value(v.patch));
            var (x, y, z) := (Value(w.major), Value(w.minor), Value(w.patch));
      && (a < x || (a == x && b < y) || (a == x && b == y && c < z) ==> Compare(AsText(v), AsText(w)) == Some(Less))
      && (a > x || (a == x && b > y) || (a == x && b == y && c > z) ==> Compare(AsText(v), AsText(w)) == Some(Greater))
      && (a == x && b == y && c == z ==>
            Compare(AsText(v), AsText(w))
            == Some(match (v.pre, w.pre)
                    case (None, None) => Equal
                    case (None, Some(_)) => Greater
                    case (Some(_), None) => Less
                    case (Some(p), Some(q)) => CompareIdentifiers(Split(p, '.'), Split(q, '.'))))
  {
    hide AsText, Value, CompareIdentifiers, Split, Parse;
    ParseWritten(v);
    ParseWritten(w);
    CompareThree(Value(v.major), Value(v.minor), Value(v.patch), Value(w.major), Value(w.minor), Value(w.patch));
  }

  lemma CompareThree(a: nat, b: nat, c: nat, x: nat, y: nat, z: nat)
    ensures CompareCore([a, b, c], [x, y, z])
         == if a < x || (a == x && b < y) || (a == x && b == y && c < z) then Less
            else if a == x && b == y && c == z then Equal else Greater
  {
    assert [a, b, c][1..] == [b, c] && [b, c][1..] == [c] && [c][1..] == [];
    assert [x, y, z][1..] == [y, z] && [y, z][1..] == [z] && [z][1..] == [];
    assert CompareCore([c], [z]) == CompareNat(c, z);
  }
}
