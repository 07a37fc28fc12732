/** Decimal numerals: what strtoul reads and what a %d conversion prints. */
module Decimal {
  predicate IsDigit(c: char) { '0' <= c <= '9' }

  function DigitOf(c: char): (d: nat)
    requires IsDigit(c)
    ensures d < 10
  {
    c as int - '0' as int
  }

  function CharOf(d: nat): (c: char)
    requires d < 10
    ensures IsDigit(c) && DigitOf(c) == d
  {
    ('0' as int + d) as char
  }

  predicate AllDigits(t: string) { forall i :: 0 <= i < |t| ==> IsDigit(t[i]) }

  function Dec(n: nat): (t: string)
    ensures |t| >= 1 && AllDigits(t)
  {
    if n < 10 then [CharOf(n)] else Dec(n / 10) + [CharOf(n % 10)]
  }

  function Value(t: string): nat
    requires AllDigits(t)
  {
    if t == "" then 0 else Value(t[..|t| - 1]) * 10 + DigitOf(t[|t| - 1])
  }

  function Pow10(k: nat): (p: nat)
    ensures p >= 1
  {
    if k == 0 then 1 else 10 * Pow10(k - 1)
  }

  lemma {:induction false} ValueOfDec(n: nat)
    ensures Value(Dec(n)) == n
  {
    if n < 10 {
      assert Dec(n)[..0] == "" && Value(Dec(n)[..0]) == 0;
    } else {
      ValueOfDec(n / 10);
      assert Dec(n)[..|Dec(n)| - 1] == Dec(n / 10);
    }
  }

  // A number has at most k digits exactly if it is below the k-th power of ten.
  lemma {:induction false} DecLength(n: nat, k: nat)
    requires k >= 1
    ensures |Dec(n)| <= k <==> n < Pow10(k)
  {
    assert Pow10(k) == 10 * Pow10(k - 1);
    if n >= 10 {
      if k > 1 { DecLength(n / 10, k - 1); } else { assert Pow10(0) == 1; }
    }
  }

  lemma {:induction false} ValueBound(t: string)
    requires AllDigits(t)
    ensures Value(t) < Pow10(|t|)
  {
    if t != "" { ValueBound(t[..|t| - 1]); }
  }

  // A numeral is no longer than any text with that value or a larger one.
  lemma DecIsShortest(n: nat, t: string)
    requires AllDigits(t) && t != "" && n <= Value(t)
    ensures |Dec(n)| <= |t|
  {
    ValueBound(t);
    DecLength(n, |t|);
  }

  lemma TenDigits(n: nat)
    ensures n < 0x1_0000_0000 ==> |Dec(n)| <= 10
    ensures n <= 0x8000_0000 ==> |Dec(n)| <= 10
    ensures n >= 1_000_000_000 <==> |Dec(n)| >= 10
  {
    assert Pow10(3) == 1000;
    assert Pow10(6) == 1_000_000;
    assert Pow10(9) == 1_000_000_000;
    assert Pow10(10) == 10_000_000_000;
    DecLength(n, 10);
    DecLength(n, 9);
  }

  // ---- strtoul ----

  const U32: nat := 0x1_0000_0000

  type u32 = x: int | 0 <= x < 0x1_0000_0000

  predicate IsSpace(c: char) { c == ' ' || '\t' <= c <= '\r' }

  function SkipSpace(t: string): string {
    if t != "" && IsSpace(t[0]) then SkipSpace(t[1..]) else t
  }

  function DigitCount(t: string): (k: nat)
    ensures k <= |t| && AllDigits(t[..k]) && (k < |t| ==> !IsDigit(t[k]))
  {
    if t != "" && IsDigit(t[0]) then
      var k := DigitCount(t[1..]);
      assert t[..k + 1] == [t[0]] + t[1..][..k];
      k + 1
    else 0
  }

  predicate Signed(t: string) { t != "" && (t[0] == '-' || t[0] == '+') }

  // max is the largest unsigned long; the result is stored in an unsigned int.
  function Convert(negative: bool, d: nat, max: nat): u32 {
    (if d > max then max else if negative then (max + 1 - d) % (max + 1) else d) % U32
  }

  // The value, and where reading stops; without a digit nothing is taken.
  function StrToUl(t: string, max: nat): (u32, string) {
    var u := SkipSpace(t);
    var w := if Signed(u) then u[1..] else u;
    var k := DigitCount(w);
    if k == 0 then (0, t) else (Convert(Signed(u) && u[0] == '-', Value(w[..k]), max), w[k..])
  }

  // An unsigned long is 32 or 64 bits wide.
  predicate Width(max: nat) { max == U32 - 1 || max == 0xffff_ffff_ffff_ffff }

  // ---- %d ----

  // Half of the unsigned values print as negative numbers.
  function Print(v: u32): (t: string)
    ensures |t| >= 1 && (t[0] == '-' <==> v >= 0x8000_0000)
  {
    if v < 0x8000_0000 then Dec(v) else ['-'] + Dec(U32 - v)
  }

  predicate NoDigitFirst(t: string) { t == "" || !IsDigit(t[0]) }

  lemma CountOf(ds: string, post: string)
    requires AllDigits(ds) && NoDigitFirst(post)
    ensures DigitCount(ds + post) == |ds|
  {
    var t, k := ds + post, DigitCount(ds + post);
    assert forall i :: 0 <= i < k ==> IsDigit(t[..k][i]) && t[..k][i] == t[i];
    assert |ds| < |t| ==> !IsDigit(t[|ds|]);
  }

  lemma StrToUlOfDigits(ds: string, post: string, max: nat)
    requires AllDigits(ds) && ds != "" && NoDigitFirst(post)
    ensures StrToUl(ds + post, max) == (Convert(false, Value(ds), max), post)
  {
    var w := ds + post;
    assert w[0] == ds[0] && SkipSpace(w) == w && !Signed(w);
    CountOf(ds, post);
    assert w[..|ds|] == ds && w[|ds|..] == post;
  }

  lemma StrToUlOfNegative(ds: string, post: string, max: nat)
    requires AllDigits(ds) && ds != "" && NoDigitFirst(post)
    ensures StrToUl(['-'] + ds + post, max) == (Convert(true, Value(ds), max), post)
  {
    var w, t := ds + post, ['-'] + ds + post;
    CountOf(ds, post);
    assert w[..|ds|] == ds && w[|ds|..] == post;
    assert SkipSpace(t) == t && t[1..] == w;
  }

  // Reading back what was printed gives the same value, also when it printed as negative.
  lemma StrToUlOfPrint(v: u32, post: string, max: nat)
    requires NoDigitFirst(post) && Width(max)
    ensures StrToUl(Print(v) + post, max) == (v, post)
  {
    var d := if v < 0x8000_0000 then v else U32 - v;
    ValueOfDec(d);
    NegativeReadsBack(v, max);
    if v < 0x8000_0000 {
      StrToUlOfDigits(Dec(d), post, max);
    } else {
      StrToUlOfNegative(Dec(d), post, max);
    }
  }

  lemma NegativeReadsBack(v: u32, max: nat)
    requires Width(max)
    ensures Convert(false, v, max) == v
    ensures v >= 0x8000_0000 ==> Convert(true, U32 - v, max) == v
  {
    if v >= 0x8000_0000 {
      assert (max + 1 - (U32 - v)) % (max + 1) == max + 1 - (U32 - v);
      if max != U32 - 1 { assert max + 1 - (U32 - v) == 0xffff_ffff * U32 + v; }
    }
  }

  lemma StrToUlOfNumeral(ds: string, v: u32, post: string, max: nat)
    requires AllDigits(ds) && ds != "" && Value(ds) == v && NoDigitFirst(post) && Width(max)
    ensures StrToUl(ds + post, max) == (v, post)
  {
    StrToUlOfDigits(ds, post, max);
    NegativeReadsBack(v, max);
  }

  // The slot is printed with at least two digits.
  function Padded(v: nat): (t: string)
    requires v < 0x8000_0000
    ensures AllDigits(t) && t != ""
  {
    if v < 10 then "0" + Dec(v) else Dec(v)
  }

  lemma ValueOfPadded(v: nat)
    requires v < 0x8000_0000
    ensures Value(Padded(v)) == v
  {
    ValueOfDec(v);
    LeadingZero(Dec(v));
  }

  lemma {:induction false} LeadingZero(t: string)
    requires AllDigits(t)
    ensures Value("0" + t) == Value(t)
  {
    var z := "0" + t;
    if t == "" {
      assert z[..0] == "" && z == "0" && Value(z[..0]) == 0;
    } else {
      LeadingZero(t[..|t| - 1]);
      assert z[..|z| - 1] == "0" + t[..|t| - 1];
    }
  }

  // ---- how long the printed field is ----

  lemma {:induction false} SkipSpaceShortens(t: string)
    ensures |SkipSpace(t)| <= |t|
    ensures |SkipSpace(t)| == |t| <==> t == "" || !IsSpace(t[0])
  {
    if t != "" && IsSpace(t[0]) { SkipSpaceShortens(t[1..]); }
  }

  // Whatever was read, it prints at most one character longer; and no longer if something
  // was read and the value is below 2^31.
  lemma FieldGrowth(t: string, max: nat)
    requires Width(max)
    ensures var (v, rest) := StrToUl(t, max);
            && |rest| <= |t|
            && |Print(v)| <= |t| - |rest| + 1
            && (v < 0x8000_0000 && |rest| < |t| ==> |Print(v)| <= |t| - |rest|)
            && (|rest| == |t| ==> v == 0)
  {
    var u := SkipSpace(t);
    SkipSpaceShortens(t);
    var w := if Signed(u) then u[1..] else u;
    var k := DigitCount(w);
    if k > 0 {
      var neg := Signed(u) && u[0] == '-';
      NumeralGrowth(neg, w[..k], max);
      assert |t| >= |w| + (if neg then 1 else 0);
    }
  }

  // The characters read
  function Span(t: string, max: nat): (n: nat)
    ensures n <= |t|
  {
    SkipSpaceShortens(t);
    |t| - |StrToUl(t, max).1|
  }

  // A field prints one character longer: nothing was read, or unsigned digits whose value
  // prints as a negative number with as many digits.
  predicate Grows(t: string, max: nat) {
    var (v, n) := (StrToUl(t, max).0, Span(t, max));
    n == 0 || (AllDigits(t[..n]) && v >= 0x8000_0000 && |Dec(U32 - v)| == n)
  }

  lemma FieldGrowsExactly(t: string, max: nat)
    requires Width(max)
    ensures |Print(StrToUl(t, max).0)| == Span(t, max) + 1 <==> Grows(t, max)
  {
    var u := SkipSpace(t);
    SkipSpaceShortens(t);
    var w := if Signed(u) then u[1..] else u;
    var k := DigitCount(w);
    if k == 0 {
      assert |Print(0)| == 1;
    } else {
      NumeralGrowth(Signed(u) && u[0] == '-', w[..k], max);
      SpanOfDigits(t, k, max);
    }
  }

  // Only digits were read exactly if there was no space and no sign before them.
  lemma SpanOfDigits(t: string, k: nat, max: nat)
    requires var u := SkipSpace(t); k == DigitCount(if Signed(u) then u[1..] else u) > 0
    ensures Span(t, max) == k <==> AllDigits(t[..Span(t, max)])
    ensures Span(t, max) >= k
  {
    SkipSpaceShortens(t);
    if |SkipSpace(t)| < |t| || Signed(t) {
      assert !IsDigit(t[0]) && Span(t, max) > k;
      assert t[..Span(t, max)][0] == t[0];
    } else {
      assert SkipSpace(t) == t;
    }
  }

  lemma NumeralGrowth(neg: bool, t: string, max: nat)
    requires Width(max) && AllDigits(t) && t != ""
    ensures var v := Convert(neg, Value(t), max);
            && |Print(v)| <= |t| + 1
            && (v < 0x8000_0000 ==> |Print(v)| <= |t|)
  {
    var d := Value(t);
    var v := Convert(neg, d, max);
    ConvertLow(neg, d, max);
    if v < 0x8000_0000 {
      DecIsShortest(v, t);
    } else {
      DecIsShortest(U32 - v, t);
    }
  }

  lemma ConvertLow(neg: bool, d: nat, max: nat)
    requires Width(max)
    ensures var v := Convert(neg, d, max);
            && (d > max ==> v == U32 - 1)
            && (d <= max && !neg ==> v <= d)
            && (d <= max && neg && v >= 0x8000_0000 ==> U32 - v <= d)
            && (d <= max && neg && v < 0x8000_0000 ==> v == 0 || d > 0x8000_0000)
  {
    if d <= max && neg && d > 0 {
      assert (max + 1 - d) % (max + 1) == max + 1 - d;
    }
  }
}
