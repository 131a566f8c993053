/** Which of two versions comes first. */
module Versions {
  import opened Bytes
  import opened Text

  datatype Ordering = Less | Equal | Greater

  function Reverse(o: Ordering): Ordering {
    match o case Less => Greater case Equal => Equal case Greater => Less
  }

  const U64_LIMIT: nat := 0x1_0000_0000_0000_0000

  // ---------------------------------------------------------------- parsing

  predicate OnlyDigits(s: string) {
    forall i :: 0 <= i < |s| ==> '0' <= s[i] <= '9'
  }

  predicate AllDigits(s: string) {
    |s| > 0 && OnlyDigits(s)
  }

  function Value(s: string): nat
    requires OnlyDigits(s)
  {
    if |s| == 0 then 0
    else 10 * Value(s[..|s| - 1]) + (s[|s| - 1] as int - '0' as int)
  }

  /** What is left of a number when a plus sign in front of it is dropped. */
  function Unsigned(s: string): string {
    if |s| > 0 && s[0] == '+' then s[1..] else s
  }

  /** `str::parse::<u64>`: an optional plus sign, then digits that fit in 64 bits. */
  function ParseU64(s: string): Option<nat> {
    var digits := Unsigned(s);
    if AllDigits(digits) && Value(digits) < U64_LIMIT then Some(Value(digits)) else None
  }

  /** Where `sep` first stands, or the length. */
  function IndexOf(s: string, sep: char): (i: nat)
    ensures i <= |s| && sep !in s[..i] && (i < |s| ==> s[i] == sep)
  {
    if |s| == 0 || s[0] == sep then 0
    else
      var i := 1 + IndexOf(s[1..], sep);
      assert s[..i] == [s[0]] + s[1..][..i - 1];
      i
  }

  /** Everything before the first `sep`, or everything. */
  function Until(s: string, sep: char): string {
    s[..IndexOf(s, sep)]
  }

  /** Everything after the first `sep`, if there is one. */
  function Past(s: string, sep: char): Option<string> {
    if IndexOf(s, sep) < |s| then Some(s[IndexOf(s, sep) + 1..]) else None
  }

  datatype Version = Version(core: seq<nat>, pre: Option<string>)

  function ParseCore(parts: seq<string>): Option<seq<nat>> {
    if |parts| == 0 then Some([])
    else match ParseU64(parts[0])
      case None => None
      case Some(n) => match ParseCore(parts[1..]) case None => None case Some(more) => Some([n] + more)
  }

  function Parse(v: string): (r: Option<Version>)
    ensures r.Some? ==> |r.value.core| == 3
  {
    var bare := Until(v, '+');
    var parts := Split(Until(bare, '-'), '.');
    ParseCoreLength(parts);
    if |parts| != 3 then None
    else match ParseCore(parts) case None => None case Some(core) => Some(Version(core, Past(bare, '-')))
  }

  lemma {:induction false} ParseCoreLength(parts: seq<string>)
    ensures ParseCore(parts).Some? ==> |ParseCore(parts).value| == |parts|
  {
    if |parts| > 0 { ParseCoreLength(parts[1..]); }
  }

  // ---------------------------------------------------------------- comparing

  function CompareNat(a: nat, b: nat): Ordering {
    if a < b then Less else if a > b then Greater else Equal
  }

  /** Character by character, a prefix first. */
  function CompareText(a: string, b: string): Ordering {
    if |a| == 0 then (if |b| == 0 then Equal else Less)
    else if |b| == 0 then Greater
    else if a[0] < b[0] then Less
    else if a[0] > b[0] then Greater
    else CompareText(a[1..], b[1..])
  }

  function CompareIdentifier(a: string, b: string): Ordering {
    match (ParseU64(a), ParseU64(b))
    case (Some(x), Some(y)) => CompareNat(x, y)
    case (Some(_), None) => Less
    case (None, Some(_)) => Greater
    case (None, None) => CompareText(a, b)
  }

  function CompareIdentifiers(a: seq<string>, b: seq<string>): Ordering {
    if |a| == 0 then (if |b| == 0 then Equal else Less)
    else if |b| == 0 then Greater
    else
      var first := CompareIdentifier(a[0], b[0]);
      if first != Equal then first else CompareIdentifiers(a[1..], b[1..])
  }

  function CompareCore(a: seq<nat>, b: seq<nat>): Ordering
    requires |a| == |b|
  {
    if |a| == 0 then Equal
    else
      var first := CompareNat(a[0], b[0]);
      if first != Equal then first else CompareCore(a[1..], b[1..])
  }

  function ComparePre(a: Option<string>, b: Option<string>): Ordering {
    match (a, b)
    case (None, None) => Equal
    case (None, Some(_)) => Greater
    case (Some(_), None) => Less
    case (Some(x), Some(y)) => CompareIdentifiers(Split(x, '.'), Split(y, '.'))
  }

  function ComparePrecedence(a: Version, b: Version): Ordering
    requires |a.core| == |b.core|
  {
    var core := CompareCore(a.core, b.core);
    if core != Equal then core else ComparePre(a.pre, b.pre)
  }

  function Compare(a: string, b: string): Option<Ordering> {
    match (Parse(a), Parse(b))
    case (Some(x), Some(y)) => Some(ComparePrecedence(x, y))
    case _ => None
  }

  // ---------------------------------------------------------------- the loops

  /** `split_version`: fill three slots from the parts of the core. */
  method SplitVersion(v: string) returns (r: Option<Version>)
    ensures r == Parse(v)
  {
    var bare := Until(v, '+');
    var parts := Split(Until(bare, '-'), '.');
    var slots := new nat[3];
    NothingFilled(parts);
    hide ParseCore, Filled, ParseU64, Until, Past, Split;
    for i := 0 to 3
      invariant |parts| >= i
      invariant ParseCore(parts) == Filled(slots[..i], parts[i..])
    {
      if i >= |parts| {
        return None;
      }
      OneMoreSlot(slots[..i], parts, i);
      var n := ParseU64(parts[i]);
      if n.None? {
        return None;
      }
      ghost var before := slots[..i];
      slots[i] := n.value;
      assert slots[..i + 1] == before + [n.value];
    }
    if |parts| > 3 {
      return None;
    }
    assert parts[3..] == [] && slots[..3] == slots[..];
    AllFilled(slots[..]);
    assert ParseCore(parts) == Some(slots[..]);
    r := Some(Version(slots[..], Past(bare, '-')));
  }

  /** The numbers in hand and those still to be read, if they can be. */
  function Filled(slots: seq<nat>, parts: seq<string>): Option<seq<nat>> {
    match ParseCore(parts) case None => None case Some(more) => Some(slots + more)
  }

  lemma NothingFilled(parts: seq<string>)
    ensures ParseCore(parts) == Filled([], parts[0..])
  {
    assert parts[0..] == parts;
    if ParseCore(parts).Some? { assert [] + ParseCore(parts).value == ParseCore(parts).value; }
  }

  lemma OneMoreSlot(slots: seq<nat>, parts: seq<string>, i: nat)
    requires i < |parts|
    ensures Filled(slots, parts[i..])
         == match ParseU64(parts[i]) case None => None case Some(n) => Filled(slots + [n], parts[i + 1..])
  {
    hide ParseU64;
    assert parts[i..][1..] == parts[i + 1..];
    var n, more := ParseU64(parts[i]), ParseCore(parts[i + 1..]);
    if n.Some? && more.Some? { assert slots + ([n.value] + more.value) == slots + [n.value] + more.value; }
  }

  lemma AllFilled(slots: seq<nat>)
    ensures Filled(slots, []) == Some(slots)
  {
    assert slots + [] == slots;
  }

  /** `compare_prerelease`: walk both lists until they differ or one runs out. */
  method ComparePrerelease(a: string, b: string) returns (o: Ordering)
    ensures o == CompareIdentifiers(Split(a, '.'), Split(b, '.'))
  {
    var xs, ys := Split(a, '.'), Split(b, '.');
    var i := 0;
    assert xs[0..] == xs && ys[0..] == ys;
    while true
      invariant i <= |xs| && i <= |ys|
      invariant CompareIdentifiers(xs, ys) == CompareIdentifiers(xs[i..], ys[i..])
      decreases |xs| - i
    {
      if i == |xs| && i == |ys| {
        return Equal;
      } else if i == |xs| {
        return Less;
      } else if i == |ys| {
        return Greater;
      }
      assert xs[i..][1..] == xs[i + 1..] && ys[i..][1..] == ys[i + 1..];
      var order := CompareIdentifier(xs[i], ys[i]);
      if order != Equal {
        return order;
      }
      i := i + 1;
    }
  }

  // ---------------------------------------------------------------- it is a total preorder

  lemma {:induction false} TextOrder(a: string, b: string, c: string)
    ensures CompareText(a, a) == Equal
    ensures CompareText(b, a) == Reverse(CompareText(a, b))
    ensures Chains(CompareText(a, b), CompareText(b, c), CompareText(a, c))
    ensures CompareText(a, b) == Equal ==> a == b
    decreases |a| + |b| + |c|
  {
    if |a| > 0 && |b| > 0 {
      if |c| > 0 { TextOrder(a[1..], b[1..], c[1..]); } else { TextOrder(a[1..], b[1..], c); }
      assert a == [a[0]] + a[1..] && b == [b[0]] + b[1..];
    } else if |a| > 0 {
      TextOrder(a[1..], b, c);
    }
  }

  /** Two comparisons in a row: no step up means no step up overall, and a tie overall means two ties. */
  predicate Chains(ab: Ordering, bc: Ordering, ac: Ordering) {
    ab != Greater && bc != Greater ==> ac != Greater && (ac == Equal <==> ab == Equal && bc == Equal)
  }

  lemma IdentifierOrder(a: string, b: string, c: string)
    ensures CompareIdentifier(a, a) == Equal
    ensures CompareIdentifier(b, a) == Reverse(CompareIdentifier(a, b))
    ensures Chains(CompareIdentifier(a, b), CompareIdentifier(b, c), CompareIdentifier(a, c))
  {
    hide CompareText, ParseU64;
    TextOrder(a, b, c);
  }

  lemma {:induction false} IdentifiersOrder(a: seq<string>, b: seq<string>, c: seq<string>)
    ensures CompareIdentifiers(a, a) == Equal
    ensures CompareIdentifiers(b, a) == Reverse(CompareIdentifiers(a, b))
    ensures Chains(CompareIdentifiers(a, b), CompareIdentifiers(b, c), CompareIdentifiers(a, c))
    decreases |a| + |b| + |c|
  {
    hide CompareIdentifier;
    if |a| > 0 && |b| > 0 && |c| > 0 {
      IdentifierOrder(a[0], b[0], c[0]);
      IdentifiersOrder(a[1..], b[1..], c[1..]);
    } else if |a| > 0 && |b| > 0 {
      IdentifierOrder(a[0], b[0], a[0]);
      IdentifiersOrder(a[1..], b[1..], c);
    } else if |a| > 0 {
      IdentifierOrder(a[0], a[0], a[0]);
      IdentifiersOrder(a[1..], b, c);
    }
  }

  lemma {:induction false} CoreOrder(a: seq<nat>, b: seq<nat>, c: seq<nat>)
    requires |a| == |b| == |c|
    ensures CompareCore(a, a) == Equal
    ensures CompareCore(b, a) == Reverse(CompareCore(a, b))
    ensures Chains(CompareCore(a, b), CompareCore(b, c), CompareCore(a, c))
  {
    if |a| > 0 { CoreOrder(a[1..], b[1..], c[1..]); }
  }

  lemma PreOrder(a: Option<string>, b: Option<string>, c: Option<string>)
    ensures ComparePre(a, a) == Equal
    ensures ComparePre(b, a) == Reverse(ComparePre(a, b))
    ensures Chains(ComparePre(a, b), ComparePre(b, c), ComparePre(a, c))
  {
    hide CompareIdentifiers, Split;
    var x := if a.Some? then Split(a.value, '.') else [];
    var y := if b.Some? then Split(b.value, '.') else [];
    var z := if c.Some? then Split(c.value, '.') else [];
    IdentifiersOrder(x, y, z);
  }

  /** Versions that parse are totally preordered: every one ties with itself, swapping the arguments
      reverses the answer, and comparisons chain, across numeric and textual identifiers in lists of
      any length. Anything that does not parse compares with nothing. */
  lemma VersionsAreOrdered(a: string, b: string, c: string)
    ensures Compare(a, b).None? <==> Parse(a).None? || Parse(b).None?
    ensures Parse(a).Some? ==> Compare(a, a) == Some(Equal)
    ensures Compare(a, b).Some? ==> Compare(b, a) == Some(Reverse(Compare(a, b).value))
    ensures Compare(a, b).Some? && Compare(b, c).Some? ==>
              Compare(a, c).Some? && Chains(Compare(a, b).value, Compare(b, c).value, Compare(a, c).value)
  {
    hide Parse, CompareCore, ComparePre;
    if Parse(a).Some? {
      CoreOrder(Parse(a).value.core, Parse(a).value.core, Parse(a).value.core);
      PreOrder(Parse(a).value.pre, Parse(a).value.pre, Parse(a).value.pre);
      if Parse(b).Some? {
        var x, y := Parse(a).value, Parse(b).value;
        var z := if Parse(c).Some? then Parse(c).value else x;
        CoreOrder(x.core, y.core, z.core);
        PreOrder(x.pre, y.pre, z.pre);
      }
    }
  }

  // ---------------------------------------------------------------- what the order says

  /** Identifiers that tie leave the decision to what follows; running out of them comes first. */
  lemma {:induction false} IdentifiersDecide(a: seq<string>, b: seq<string>, i: nat)
    requires i <= |a| && i < |b| && forall k :: 0 <= k < i ==> CompareIdentifier(a[k], b[k]) == Equal
    ensures i == |a| ==> CompareIdentifiers(a, b) == Less
    ensures i < |a| && CompareIdentifier(a[i], b[i]) != Equal
        ==> CompareIdentifiers(a, b) == CompareIdentifier(a[i], b[i])
    decreases i
  {
    hide CompareIdentifier;
    if i > 0 {
      assert CompareIdentifier(a[0], b[0]) == Equal;
      IdentifiersDecide(a[1..], b[1..], i - 1);
    }
  }

  /** A prerelease comes before its release, whatever its identifiers. */
  lemma PrereleaseBeforeRelease(core: string, pre: string)
    requires Parse(core).Some? && '-' !in core && '+' !in core && '+' !in pre
    ensures Compare(core + "-" + pre, core) == Some(Less)
  {
    var v := core + "-" + pre;
    IndexOfPlain(v, '+');
    IndexOfPlain(core, '+');
    IndexOfPlain(core, '-');
    IndexOfFirst(core, pre, '-');
    assert v[..|v|] == v && core[..|core|] == core && v[..|core|] == core;
    CoreOrder(Parse(core).value.core, Parse(core).value.core, Parse(core).value.core);
  }

  lemma {:induction false} IndexOfPlain(s: string, sep: char)
    requires sep !in s
    ensures IndexOf(s, sep) == |s|
  {
    if |s| > 0 { IndexOfPlain(s[1..], sep); }
  }

  lemma {:induction false} IndexOfFirst(a: string, b: string, sep: char)
    requires sep !in a
    ensures IndexOf(a + [sep] + b, sep) == |a|
  {
    if |a| > 0 {
      IndexOfFirst(a[1..], b, sep);
      assert (a + [sep] + b)[1..] == a[1..] + [sep] + b;
    }
  }

  /** Build metadata changes nothing. */
  lemma BuildIsIgnored(v: string, build: string, other: string)
    requires '+' !in v
    ensures Compare(v + "+" + build, other) == Compare(v, other)
  {
    IndexOfPlain(v, '+');
    IndexOfFirst(v, build, '+');
    assert (v + "+" + build)[..|v|] == v && v[..|v|] == v;
  }
}
