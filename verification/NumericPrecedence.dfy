/** Exactly when prerelease identifiers are ordered as Semantic Versioning 2.0.0 orders them: sections
    11.4.1 (digits compare as numbers) and 11.4.3 (numbers come before text) hold of the code only for
    numbers that fit in 64 bits, and by luck beyond. */
module NumericPrecedence {
  import opened Bytes
  import opened Versions

  // ---------------------------------------------------------------- the value of digits

  function TenTo(n: nat): (p: nat)
    ensures p > 0
  {
    if n == 0 then 1 else 10 * TenTo(n - 1)
  }

  /** Digits split anywhere: the front counts in whole powers of ten, the back stays below one. */
  lemma {:induction false} ValueSplit(s: string, k: nat)
    requires OnlyDigits(s) && k <= |s|
    ensures Value(s) == Value(s[..k]) * TenTo(|s| - k) + Value(s[k..]) && Value(s[k..]) < TenTo(|s| - k)
    decreases |s| - k
  {
    if k == |s| {
      assert s[..k] == s && s[k..] == [];
    } else {
      var last := |s| - 1;
      var init, front, back := s[..last], s[..k], s[k..];
      ValueSplit(init, k);
      assert init[..k] == front && init[k..] == back[..|back| - 1];
      LastDigit(s);
      LastDigit(back);
      hide Value;
      TenTimes(Value(front), TenTo(last - k), Value(init[k..]), s[last] as int - '0' as int);
    }
  }

  lemma LastDigit(s: string)
    requires OnlyDigits(s) && |s| > 0
    ensures OnlyDigits(s[..|s| - 1])
    ensures Value(s) == 10 * Value(s[..|s| - 1]) + (s[|s| - 1] as int - '0' as int)
  {
  }

  lemma TenTimes(front: nat, ten: nat, back: nat, d: nat)
    requires back < ten && d <= 9
    ensures 10 * (front * ten + back) + d == front * (10 * ten) + (10 * back + d)
    ensures 10 * back + d < 10 * ten
  {
  }

  /** Digits of the same length compare as text the way they compare as numbers. */
  lemma {:induction false} SameLengthText(a: string, b: string)
    requires OnlyDigits(a) && OnlyDigits(b) && |a| == |b|
    ensures CompareText(a, b) == CompareNat(Value(a), Value(b))
  {
    if |a| > 0 {
      ValueSplit(a, 1);
      ValueSplit(b, 1);
      OneDigit(a[..1]);
      OneDigit(b[..1]);
      SameLengthText(a[1..], b[1..]);
      LeadingDigit(a[0] as int - '0' as int, b[0] as int - '0' as int, TenTo(|a| - 1), Value(a[1..]), Value(b[1..]));
    }
  }

  lemma OneDigit(s: string)
    requires OnlyDigits(s) && |s| == 1
    ensures Value(s) == s[0] as int - '0' as int
  {
    assert s[..0] == [];
  }

  /** The greater leading digit is the greater number; equal ones leave it to the rest. */
  lemma LeadingDigit(d: nat, e: nat, ten: nat, x: nat, y: nat)
    requires x < ten && y < ten
    ensures d < e ==> d * ten + x < e * ten + y
    ensures d > e ==> d * ten + x > e * ten + y
  {
    if d < e { MulMono(d + 1, e, ten); } else if d > e { MulMono(e + 1, d, ten); }
  }

  /** Text compares with longer text as with its front, and comes first when it is that front. */
  lemma {:induction false} ShorterText(s: string, l: string)
    requires |s| < |l|
    ensures CompareText(s, l) == var front := CompareText(s, l[..|s|]); if front == Equal then Less else front
  {
    if |s| > 0 {
      ShorterText(s[1..], l[1..]);
      assert l[..|s|][1..] == l[1..][..|s| - 1];
    }
  }

  // ---------------------------------------------------------------- numbers

  /** Two strings of digits, the longer second: comparing them as text, if it comes to that, orders them
      as numbers. Only a number that overflows and whose digits outrank the longer one's leading digits
      is misplaced; with zeros in front of the longer one even that can be right. */
  predicate InOrder(s: string, l: string)
    requires OnlyDigits(s) && OnlyDigits(l) && |s| <= |l|
  {
    || Value(s) < U64_LIMIT || Value(l) < U64_LIMIT || |s| == |l|
    || Value(s) <= Value(l[..|s|]) || Value(l) < Value(s)
  }

  lemma Overflows(s: string)
    requires AllDigits(s)
    ensures ParseU64(s) == if Value(s) < U64_LIMIT then Some(Value(s)) else None
  {
    assert '0' <= s[0] <= '9';
  }

  lemma ShorterFirst(s: string, l: string)
    requires AllDigits(s) && AllDigits(l) && |s| <= |l|
    ensures CompareIdentifier(s, l) == CompareNat(Value(s), Value(l)) <==> InOrder(s, l)
  {
    hide Value, ParseU64, CompareText;
    Overflows(s);
    Overflows(l);
    if Value(s) >= U64_LIMIT && Value(l) >= U64_LIMIT {
      if |s| == |l| {
        SameLengthText(s, l);
      } else {
        var front := l[..|s|];
        ShorterText(s, l);
        SameLengthText(s, front);
        ValueSplit(l, |s|);
        TenMore(Value(front), TenTo(|l| - |s|), |l| - |s|);
      }
    }
  }

  /** Digits added at the end make a number at least ten times as great. */
  lemma TenMore(front: nat, ten: nat, n: nat)
    requires n > 0 && ten == TenTo(n)
    ensures front > 0 ==> front * ten > front
  {
    assert ten == 10 * TenTo(n - 1) >= 10;
    MulMono(2, ten, front);
  }

  /** Swapping two numbers does not change whether the code orders them as numbers. */
  lemma Swapped(a: string, b: string)
    requires AllDigits(a) && AllDigits(b)
    ensures CompareIdentifier(a, b) == CompareNat(Value(a), Value(b))
       <==> CompareIdentifier(b, a) == CompareNat(Value(b), Value(a))
  {
    hide Value, CompareIdentifier;
    IdentifierOrder(a, b, a);
  }

  /** Section 11.4.1, for all strings of digits: the code orders them as numbers exactly when one of them
      fits in 64 bits, or they are equally long, or the longer one's leading digits are no less than the
      shorter number, or zeros in front make the longer one the smaller. */
  lemma DigitsCompareAsNumbersIff(a: string, b: string)
    requires AllDigits(a) && AllDigits(b)
    ensures CompareIdentifier(a, b) == CompareNat(Value(a), Value(b))
       <==> if |a| <= |b| then InOrder(a, b) else InOrder(b, a)
  {
    hide Value, CompareIdentifier, InOrder;
    if |a| <= |b| {
      ShorterFirst(a, b);
    } else {
      ShorterFirst(b, a);
      Swapped(a, b);
    }
  }

  /** A number as the standard writes it: no zero in front of other digits. */
  predicate Canonical(s: string) {
    AllDigits(s) && (|s| == 1 || s[0] != '0')
  }

  /** Of two canonical numbers the longer is the greater. */
  lemma LongerIsGreater(s: string, l: string)
    requires Canonical(s) && Canonical(l) && |s| < |l|
    ensures Value(s) < Value(l)
  {
    hide Value, TenTo;
    ValueSplit(s, 0);
    ValueSplit(l, 1);
    OneDigit(l[..1]);
    assert s[0..] == s;
    TenGrows(|s|, |l| - 1);
    MulMono(1, l[0] as int - '0' as int, TenTo(|l| - 1));
  }

  lemma {:induction false} TenGrows(m: nat, n: nat)
    requires m <= n
    ensures TenTo(m) <= TenTo(n)
    decreases n
  {
    if m < n { TenGrows(m, n - 1); }
  }

  /** Section 11.4.1, for the numbers the standard allows, in either order: the code meets it exactly when
      the shorter fits in 64 bits, or they are equally long, or the longer one's leading digits are no
      less than the shorter number. */
  lemma NumericPrecedenceIff(a: string, b: string)
    requires Canonical(a) && Canonical(b)
    ensures var (s, l) := if |a| <= |b| then (a, b) else (b, a);
            CompareIdentifier(a, b) == CompareNat(Value(a), Value(b))
            <==> Value(s) < U64_LIMIT || |s| == |l| || Value(s) <= Value(l[..|s|])
  {
    hide Value, CompareIdentifier;
    DigitsCompareAsNumbersIff(a, b);
    if |a| < |b| { LongerIsGreater(a, b); } else if |b| < |a| { LongerIsGreater(b, a); }
  }

  // ---------------------------------------------------------------- numbers and text

  /** Where two texts first differ, the first has the lesser character or has run out. */
  ghost predicate Outranked(a: string, b: string) {
    exists i: nat :: i <= |a| && i < |b| && a[..i] == b[..i] && (i == |a| || a[i] < b[i])
  }

  lemma {:induction false} TextBeforeIff(a: string, b: string)
    ensures CompareText(a, b) == Less <==> Outranked(a, b)
  {
    if |a| > 0 && |b| > 0 && a[0] == b[0] {
      TextBeforeIff(a[1..], b[1..]);
      if Outranked(a[1..], b[1..]) {
        var i: nat :| i <= |a[1..]| && i < |b[1..]| && a[1..][..i] == b[1..][..i]
            && (i == |a[1..]| || a[1..][i] < b[1..][i]);
        assert a[..i + 1] == [a[0]] + a[1..][..i] && b[..i + 1] == [b[0]] + b[1..][..i];
        assert i + 1 <= |a| && i + 1 < |b| && a[..i + 1] == b[..i + 1];
      }
      if Outranked(a, b) {
        var i: nat :| i <= |a| && i < |b| && a[..i] == b[..i] && (i == |a| || a[i] < b[i]);
        assert i > 0;
        assert a[1..][..i - 1] == a[..i][1..] && b[1..][..i - 1] == b[..i][1..];
      }
    } else if |b| > 0 && (|a| == 0 || a[0] < b[0]) {
      assert a[..0] == b[..0];
    } else {
      OutrankedHead(a, b);
    }
  }

  lemma OutrankedHead(a: string, b: string)
    ensures Outranked(a, b) ==> |b| > 0 && (|a| == 0 || a[0] <= b[0])
  {
    if Outranked(a, b) && |a| > 0 {
      var i: nat :| i <= |a| && i < |b| && a[..i] == b[..i] && (i == |a| || a[i] < b[i]);
      if i > 0 { assert a[0] == a[..i][0] && b[0] == b[..i][0]; }
    }
  }

  /** Section 11.4.3, for every number and every identifier that is not one: the code puts the number
      first exactly when it fits in 64 bits or its digits are outranked by the other's characters. */
  lemma NumberBeforeTextIff(a: string, b: string)
    requires AllDigits(a) && !AllDigits(Unsigned(b))
    ensures CompareIdentifier(a, b) == Less <==> Value(a) < U64_LIMIT || Outranked(a, b)
  {
    hide Value;
    Overflows(a);
    TextBeforeIff(a, b);
  }

  // ---------------------------------------------------------------- numbers the code misplaces

  predicate Zeros(s: string) {
    forall i :: 0 <= i < |s| ==> s[i] == '0'
  }

  lemma {:induction false} TenToAdd(m: nat, n: nat)
    ensures TenTo(m + n) == TenTo(m) * TenTo(n)
  {
    if m > 0 {
      TenToAdd(m - 1, n);
      assert TenTo(m) * TenTo(n) == 10 * (TenTo(m - 1) * TenTo(n));
    }
  }

  lemma TensTable()
    ensures TenTo(19) == 10_000_000_000_000_000_000
  {
    assert TenTo(4) == 10_000;
    TenToAdd(4, 4);
    TenToAdd(8, 8);
    assert TenTo(3) == 1000;
    TenToAdd(16, 3);
  }

  lemma {:induction false} ZerosAreZero(s: string)
    requires Zeros(s)
    ensures OnlyDigits(s) && Value(s) == 0
    decreases |s|
  {
    if |s| > 0 { ZerosAreZero(s[..|s| - 1]); }
  }

  lemma DigitAndZeros(d: char, zeros: string)
    requires '1' <= d <= '9' && Zeros(zeros)
    ensures Canonical([d] + zeros) && Value([d] + zeros) == (d as int - '0' as int) * TenTo(|zeros|)
  {
    var s := [d] + zeros;
    ZerosAreZero(zeros);
    ValueSplit(s, 1);
    assert s[..1] == [d] && s[1..] == zeros;
    OneDigit([d]);
  }

  /** Both overflow, or one does and the other is no number: only their characters are compared. */
  lemma OverflowedText(a: string, b: string)
    requires AllDigits(a) && Value(a) >= U64_LIMIT && ParseU64(b) == None
    ensures CompareIdentifier(a, b) == CompareText(a, b)
  {
    Overflows(a);
  }

  /** Twenty billion billion comes after a hundred billion billion, and after the identifier `1a`. */
  lemma HugeNumbersMisplaced(zeros: string)
    requires |zeros| == 20 && Zeros(zeros)
    ensures var a, b := "2" + zeros[1..], "1" + zeros;
      && Canonical(a) && Canonical(b) && Value(a) < Value(b) && CompareIdentifier(a, b) == Greater
      && !AllDigits(Unsigned("1a")) && CompareIdentifier(a, "1a") == Greater
  {
    hide Value, CompareIdentifier, TenTo;
    var a, b := "2" + zeros[1..], "1" + zeros;
    DigitAndZeros('2', zeros[1..]);
    DigitAndZeros('1', zeros);
    TensTable();
    assert TenTo(20) == 10 * TenTo(19) by { TenToAdd(1, 19); TenToOne(); }
    Overflows(b);
    OverflowedText(a, b);
    assert "1a"[1] == 'a' && !OnlyDigits("1a");
    OverflowedText(a, "1a");
    assert a[0] == '2' && b[0] == '1' && "1a"[0] == '1';
  }

  lemma TenToOne()
    ensures TenTo(1) == 10
  {
  }
}
