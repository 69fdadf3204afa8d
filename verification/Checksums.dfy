/** Luhn and IBAN checksums (internal/scanner/verifiers.go). Luhn is Annex B of
    ISO/IEC 7812-1; IBAN is ISO 13616 with the MOD 97-10 system of ISO/IEC 7064. */
module Checksums {

  predicate IsDigit(c: char) {
    '0' <= c <= '9'
  }

  function DigitVal(c: char): (d: nat)
    requires IsDigit(c)
    ensures d <= 9
  {
    c as int - '0' as int
  }

  // ---------- Luhn ----------

  function Digits(s: string): (ds: seq<nat>)
    ensures forall i :: 0 <= i < |ds| ==> ds[i] <= 9
  {
    if s == [] then []
    else Digits(s[..|s| - 1]) + if IsDigit(s[|s| - 1]) then [DigitVal(s[|s| - 1])] else []
  }

  /** A digit's contribution; every second one from the right is doubled, digits added. */
  function Weighed(d: nat, doubled: bool): nat {
    if !doubled then d else if 2 * d > 9 then 2 * d - 9 else 2 * d
  }

  function LuhnSum(ds: seq<nat>, doubled: bool): nat {
    if ds == [] then 0
    else Weighed(ds[|ds| - 1], doubled) + LuhnSum(ds[..|ds| - 1], !doubled)
  }

  predicate LuhnDigits(ds: seq<nat>) {
    13 <= |ds| <= 19 && LuhnSum(ds, false) % 10 == 0
  }

  /** A digit with an odd number of digits to its right is doubled and the product's digits added. */
  function LuhnByPlace(ds: seq<nat>): nat {
    if ds == [] then 0
    else
      var d := ds[0];
      (if |ds| % 2 == 0 then (2 * d) / 10 + (2 * d) % 10 else d) + LuhnByPlace(ds[1..])
  }

  lemma {:induction false} LuhnSumByPlace(ds: seq<nat>)
    requires forall i :: 0 <= i < |ds| ==> ds[i] <= 9
    ensures LuhnSum(ds, false) == LuhnByPlace(ds)
  {
    if ds != [] {
      var d, rest := ds[0], ds[1..];
      LuhnSumByPlace(rest);
      assert ds == [d] + rest;
      LuhnSplit([d], rest, false);
      OneDigit(d, Odd(|rest|));
      assert Odd(|rest|) <==> |ds| % 2 == 0;
    }
  }

  lemma OneDigit(d: nat, doubled: bool)
    requires d <= 9
    ensures LuhnSum([d], doubled) == if doubled then (2 * d) / 10 + (2 * d) % 10 else d
  {
    assert [d][..0] == [];
    assert LuhnSum([], !doubled) == 0;
  }

  /** The verdict depends only on the digits of s. */
  method LuhnCheck(s: string) returns (ok: bool)
    ensures ok <==> LuhnDigits(Digits(s))
    ensures ok <==> 13 <= |Digits(s)| <= 19 && LuhnByPlace(Digits(s)) % 10 == 0
  {
    var digits: seq<nat> := [];
    for k := 0 to |s|
      invariant digits == Digits(s[..k])
    {
      assert s[..k + 1][..k] == s[..k];
      if IsDigit(s[k]) {
        digits := digits + [DigitVal(s[k])];
      }
    }
    assert s[..|s|] == s;
    LuhnSumByPlace(digits);
    if |digits| < 13 || |digits| > 19 {
      return false;
    }
    var sum := WeighedSum(digits);
    return sum % 10 == 0;
  }

  /** The second loop, from the right. */
  method WeighedSum(digits: seq<nat>) returns (sum: nat)
    ensures sum == LuhnSum(digits, false)
  {
    var alt := false;
    sum := 0;
    var i := |digits| - 1;
    assert digits[..i + 1] == digits;
    while i >= 0
      invariant -1 <= i < |digits|
      invariant sum + LuhnSum(digits[..i + 1], alt) == LuhnSum(digits, false)
    {
      var d := digits[i];
      assert digits[..i + 1][..i] == digits[..i];
      if alt {
        d := d * 2;
        if d > 9 {
          d := d - 9;
        }
      }
      sum := sum + d;
      alt := !alt;
      i := i - 1;
    }
  }

  predicate Odd(n: nat) {
    n % 2 == 1
  }

  lemma {:induction false} LuhnSplit(p: seq<nat>, q: seq<nat>, doubled: bool)
    ensures LuhnSum(p + q, doubled) == LuhnSum(q, doubled) + LuhnSum(p, doubled != Odd(|q|))
  {
    if q == [] {
      assert p + q == p;
    } else {
      assert (p + q)[..|p + q| - 1] == p + q[..|q| - 1];
      LuhnSplit(p, q[..|q| - 1], !doubled);
    }
  }

  lemma SameTens(r: nat, u: nat, v: nat)
    requires (r + u) % 10 == 0
    ensures (r + v) % 10 == 0 <==> (u - v) % 10 == 0
  {
  }

  /** Every single-digit change is detected. */
  lemma LuhnDetectsChange(p: seq<nat>, a: nat, b: nat, q: seq<nat>)
    requires a <= 9 && b <= 9 && a != b && LuhnDigits(p + [a] + q)
    ensures !LuhnDigits(p + [b] + q)
  {
    var t := false != Odd(|q|);
    LuhnSplit(p + [a], q, false);
    LuhnSplit(p + [b], q, false);
    assert (p + [a])[..|p|] == p == (p + [b])[..|p|];
    SameTens(LuhnSum(q, false) + LuhnSum(p, !t), Weighed(a, t), Weighed(b, t));
    WeighedDistinct(a, b, t);
  }

  lemma WeighedDistinct(a: nat, b: nat, t: bool)
    requires a <= 9 && b <= 9 && a != b
    ensures (Weighed(a, t) - Weighed(b, t)) % 10 != 0
  {
  }

  lemma PairInside(p: seq<nat>, a: nat, b: nat, q: seq<nat>)
    ensures var t := Odd(|q|);
      LuhnSum(p + [a, b] + q, false) == LuhnSum(q, false) + LuhnSum(p, t) + (Weighed(b, t) + Weighed(a, !t))
  {
    LuhnSplit(p + [a, b], q, false);
    LuhnSplit(p, [a, b], Odd(|q|));
    PairSum(a, b, Odd(|q|));
  }

  /** A swap of neighbours goes unnoticed exactly for equal digits and for 0 with 9. */
  lemma LuhnSwapUndetectedIff(p: seq<nat>, a: nat, b: nat, q: seq<nat>)
    requires a <= 9 && b <= 9 && LuhnDigits(p + [a, b] + q)
    ensures LuhnDigits(p + [b, a] + q) <==> a == b || (a == 0 && b == 9) || (a == 9 && b == 0)
  {
    var t := Odd(|q|);
    var base := LuhnSum(q, false) + LuhnSum(p, t);
    var u, v := Weighed(b, t) + Weighed(a, !t), Weighed(a, t) + Weighed(b, !t);
    assert LuhnSum(p + [a, b] + q, false) == base + u by { PairInside(p, a, b, q); }
    assert LuhnSum(p + [b, a] + q, false) == base + v by { PairInside(p, b, a, q); }
    SameTens(base, u, v);
    SwapDifference(a, b, t);
  }

  lemma SwapDifference(a: nat, b: nat, t: bool)
    requires a <= 9 && b <= 9
    ensures (Weighed(b, t) + Weighed(a, !t) - (Weighed(a, t) + Weighed(b, !t))) % 10 == 0 <==>
      a == b || (a == 0 && b == 9) || (a == 9 && b == 0)
  {
  }

  lemma PairSum(a: nat, b: nat, t: bool)
    ensures LuhnSum([a, b], t) == Weighed(b, t) + Weighed(a, !t)
  {
    assert [a, b][..1] == [a];
    assert LuhnSum([a], !t) == Weighed(a, !t) + LuhnSum([], t);
  }

  // ---------- IBAN ----------

  predicate IsUpper(c: char) {
    'A' <= c <= 'Z'
  }

  predicate IsLower(c: char) {
    'a' <= c <= 'z'
  }

  function ToUpper(c: char): char {
    if IsLower(c) then c - 'a' + 'A' else c
  }

  predicate IsSeparator(c: char) {
    c == ' ' || c == '\t' || c == '-'
  }

  function Normalize(s: string): string {
    if s == [] then []
    else Normalize(s[..|s| - 1]) + if IsSeparator(s[|s| - 1]) then [] else [ToUpper(s[|s| - 1])]
  }

  predicate Alphanumeric(n: string) {
    forall i :: 0 <= i < |n| ==> IsDigit(n[i]) || IsUpper(n[i])
  }

  /** First four characters moved to the end. */
  function Rearranged(n: string): string
    requires |n| >= 4
  {
    n[4..] + n[..4]
  }

  /** The decimal digits a character stands for: itself, or 10..35 for A..Z. */
  function Expansion(c: char): (ds: seq<nat>)
    ensures 1 <= |ds| <= 2 && forall i :: 0 <= i < |ds| ==> ds[i] <= 9
  {
    if IsDigit(c) then [DigitVal(c)]
    else if IsUpper(c) then var v := c as int - 'A' as int + 10; [v / 10, v % 10]
    else [0]
  }

  /** The number the rearranged text spells, read left to right after acc. */
  function Spelled(acc: nat, s: string): nat
    decreases |s|
  {
    if s == [] then acc else Spelled(Append(acc, Expansion(s[0])), s[1..])
  }

  function Append(acc: nat, ds: seq<nat>): nat
    decreases |ds|
  {
    if ds == [] then acc else Append(acc * 10 + ds[0], ds[1..])
  }

  predicate IbanText(n: string) {
    15 <= |n| <= 34 && Alphanumeric(n) && Spelled(0, Rearranged(n)) % 97 == 1
  }

  /** Two-digit decimal of 10..35. */
  function Itoa2(v: nat): (s: string)
    requires 10 <= v <= 35
    ensures |s| == 2 && IsDigit(s[0]) && IsDigit(s[1]) && DigitVal(s[0]) * 10 + DigitVal(s[1]) == v
  {
    [('0' as int + v / 10) as char, ('0' as int + v % 10) as char]
  }

  /** The iterative remainder equals the remainder of the whole expanded number. */
  method IbanValid(s: string) returns (ok: bool)
    ensures ok <==> IbanText(Normalize(s))
    ensures ok ==> 15 <= |Normalize(s)| <= 34
  {
    var n := NormalizeLoop(s);
    if |n| < 15 || |n| > 34 {
      return false;
    }
    for i := 0 to |n|
      invariant Alphanumeric(n[..i])
    {
      if !(IsDigit(n[i]) || IsUpper(n[i])) {
        return false;
      }
    }
    var rearr := n[4..] + n[..4];
    assert n[..|n|] == n;
    RearrangedAlphanumeric(n);
    var mod := 0;
    for k := 0 to |rearr|
      invariant mod < 97
      invariant Spelled(mod, rearr[k..]) % 97 == Spelled(0, rearr) % 97
    {
      var r := rearr[k];
      assert rearr[k..][0] == r && rearr[k..][1..] == rearr[k + 1..];
      var chunk := [r];
      if !IsDigit(r) {
        chunk := Itoa2(r as int - 'A' as int + 10);
      }
      ghost var whole := Append(mod, Expansion(r));
      mod := FoldChunk(mod, chunk, r);
      SpelledMod(whole, mod, rearr[k + 1..]);
    }
    assert rearr[|rearr|..] == [];
    return mod == 1;
  }

  lemma RearrangedAlphanumeric(n: string)
    requires |n| >= 4 && Alphanumeric(n)
    ensures Alphanumeric(Rearranged(n))
  {
  }

  method NormalizeLoop(s: string) returns (n: string)
    ensures n == Normalize(s)
  {
    n := [];
    for k := 0 to |s|
      invariant n == Normalize(s[..k])
    {
      assert s[..k + 1][..k] == s[..k];
      var r := s[k];
      if r == ' ' || r == '\t' || r == '-' {
        continue;
      }
      if IsLower(r) {
        r := r - 'a' + 'A';
      }
      n := n + [r];
    }
    assert s[..|s|] == s;
  }

  method FoldChunk(start: nat, chunk: string, ghost c: char) returns (mod: nat)
    requires start < 97 && (IsDigit(c) || IsUpper(c))
    requires if IsDigit(c) then chunk == [c] else chunk == Itoa2(c as int - 'A' as int + 10)
    ensures mod < 97 && mod % 97 == Append(start, Expansion(c)) % 97
  {
    mod := start;
    ghost var ds := Expansion(c);
    for i := 0 to |chunk|
      invariant mod < 97
      invariant Append(mod, ds[i..]) % 97 == Append(start, ds) % 97
    {
      assert ds[i] == DigitVal(chunk[i]);
      FoldStep(mod, ds, i);
      mod := (mod * 10 + DigitVal(chunk[i])) % 97;
    }
    assert ds[|chunk|..] == [];
  }

  lemma FoldStep(mod: nat, ds: seq<nat>, i: nat)
    requires i < |ds|
    ensures Append((mod * 10 + ds[i]) % 97, ds[i + 1..]) % 97 == Append(mod, ds[i..]) % 97
  {
    assert ds[i..][1..] == ds[i + 1..];
    AppendMod(mod * 10 + ds[i], (mod * 10 + ds[i]) % 97, ds[i + 1..]);
  }

  // ---------- remainders modulo 97 ----------

  lemma Congruent(x: int, y: int, k: int)
    requires x == y + 97 * k
    ensures x % 97 == y % 97
  {
  }

  lemma Remainder(x: nat, k: nat, c: nat)
    requires x == 97 * k + c && c < 97
    ensures x % 97 == c
  {
  }

  lemma SameRemainder(p: nat, q: nat) returns (m: int)
    requires p % 97 == q % 97
    ensures p == q + 97 * m
  {
    m := p / 97 - q / 97;
  }

  lemma Quotient(x: int, g: nat) returns (k: int)
    requires x % 97 == g
    ensures x == 97 * k + g
  {
    k := x / 97;
  }

  lemma TenKeepsSame(a: nat, b: nat, d: nat)
    requires a % 97 == b % 97
    ensures (a * 10 + d) % 97 == (b * 10 + d) % 97
  {
    var m := SameRemainder(a, b);
    Congruent(a * 10 + d, b * 10 + d, 10 * m);
  }

  lemma TenScalesGap(a: nat, b: nat, d: nat, e: nat)
    requires (a - b) % 97 == e
    ensures ((a * 10 + d) - (b * 10 + d)) % 97 == (e * 10) % 97
  {
    var k := Quotient(a - b, e);
    Congruent((a * 10 + d) - (b * 10 + d), e * 10, 10 * k);
  }

  lemma {:induction false} AppendMod(a: nat, b: nat, ds: seq<nat>)
    requires a % 97 == b % 97
    ensures Append(a, ds) % 97 == Append(b, ds) % 97
    decreases |ds|
  {
    if ds != [] {
      TenKeepsSame(a, b, ds[0]);
      AppendMod(a * 10 + ds[0], b * 10 + ds[0], ds[1..]);
    }
  }

  lemma {:induction false} SpelledMod(a: nat, b: nat, s: string)
    requires a % 97 == b % 97
    ensures Spelled(a, s) % 97 == Spelled(b, s) % 97
    decreases |s|
  {
    if s != [] {
      AppendMod(a, b, Expansion(s[0]));
      SpelledMod(Append(a, Expansion(s[0])), Append(b, Expansion(s[0])), s[1..]);
    }
  }

  // ---------- what the IBAN check detects ----------

  /** Ten is invertible modulo 97: its inverse is 68. */
  lemma TenCancels(a: nat, b: nat, d: nat)
    requires (a * 10 + d) % 97 == (b * 10 + d) % 97
    ensures a % 97 == b % 97
  {
    var k := (a * 10 + d) / 97 - (b * 10 + d) / 97;
    assert 10 * (a - b) == 97 * k;
    assert a - b == 97 * (68 * k - 7 * (a - b));
  }

  lemma TimesTen(a: nat, b: nat, d: nat)
    requires a % 97 != b % 97
    ensures (a * 10 + d) % 97 != (b * 10 + d) % 97
  {
    if (a * 10 + d) % 97 == (b * 10 + d) % 97 {
      TenCancels(a, b, d);
    }
  }

  lemma SmallDifference(x: nat, u: nat, v: nat)
    requires u != v && u < v + 97 && v < u + 97
    ensures (x + u) % 97 != (x + v) % 97
  {
  }

  lemma {:induction false} AppendDistinct(a: nat, b: nat, ds: seq<nat>)
    requires a % 97 != b % 97
    ensures Append(a, ds) % 97 != Append(b, ds) % 97
    decreases |ds|
  {
    if ds != [] {
      TimesTen(a, b, ds[0]);
      AppendDistinct(a * 10 + ds[0], b * 10 + ds[0], ds[1..]);
    }
  }

  lemma {:induction false} SpelledDistinct(a: nat, b: nat, s: string)
    requires a % 97 != b % 97
    ensures Spelled(a, s) % 97 != Spelled(b, s) % 97
    decreases |s|
  {
    if s != [] {
      AppendDistinct(a, b, Expansion(s[0]));
      SpelledDistinct(Append(a, Expansion(s[0])), Append(b, Expansion(s[0])), s[1..]);
    }
  }

  lemma {:induction false} SpelledConcat(acc: nat, p: string, q: string)
    ensures Spelled(acc, p + q) == Spelled(Spelled(acc, p), q)
    decreases |p|
  {
    if p == [] {
      assert p + q == q;
    } else {
      assert (p + q)[0] == p[0] && (p + q)[1..] == p[1..] + q;
      SpelledConcat(Append(acc, Expansion(p[0])), p[1..], q);
    }
  }

  /** Both digits, or both letters, and different. */
  predicate Confusable(c: char, d: char) {
    c != d && ((IsDigit(c) && IsDigit(d)) || (IsUpper(c) && IsUpper(d)))
  }

  lemma ExpansionDistinct(acc: nat, c: char, d: char)
    requires Confusable(c, d)
    ensures Append(acc, Expansion(c)) % 97 != Append(acc, Expansion(d)) % 97
  {
    if IsDigit(c) {
      DigitValue(acc, c);
      DigitValue(acc, d);
      SmallDifference(acc * 10, DigitVal(c), DigitVal(d));
    } else {
      LetterValue(acc, c);
      LetterValue(acc, d);
      SmallDifference(acc * 100, c as int - 'A' as int + 10, d as int - 'A' as int + 10);
    }
  }

  lemma DigitValue(acc: nat, c: char)
    requires IsDigit(c)
    ensures Append(acc, Expansion(c)) == acc * 10 + DigitVal(c)
  {
    assert Append(acc * 10 + DigitVal(c), []) == acc * 10 + DigitVal(c);
  }

  lemma LetterValue(acc: nat, c: char)
    requires IsUpper(c)
    ensures Append(acc, Expansion(c)) == acc * 100 + (c as int - 'A' as int + 10)
  {
    var v := c as int - 'A' as int + 10;
    assert Expansion(c)[1..] == [v % 10];
    assert Append(acc * 10 + v / 10, [v % 10]) == (acc * 10 + v / 10) * 10 + v % 10;
  }

  lemma SpelledChange(p: string, c: char, d: char, q: string)
    requires Confusable(c, d)
    ensures Spelled(0, p + [c] + q) % 97 != Spelled(0, p + [d] + q) % 97
  {
    SpelledConcat(0, p + [c], q);
    SpelledConcat(0, p + [d], q);
    SpelledConcat(0, p, [c]);
    SpelledConcat(0, p, [d]);
    ExpansionDistinct(Spelled(0, p), c, d);
    SpelledDistinct(Spelled(0, p + [c]), Spelled(0, p + [d]), q);
  }

  /** Any digit-for-digit or letter-for-letter change of one character is detected. */
  lemma IbanDetectsChange(p: string, c: char, d: char, q: string)
    requires Confusable(c, d) && IbanText(p + [c] + q)
    ensures !IbanText(p + [d] + q)
  {
    if |p| >= 4 {
      RearrangeLate(p, [c], q);
      RearrangeLate(p, [d], q);
      SpelledChange(p[4..], c, d, q + p[..4]);
    } else {
      RearrangeEarly(p, [c], q);
      RearrangeEarly(p, [d], q);
      SpelledChange(q[3 - |p|..] + p, c, d, q[..3 - |p|]);
    }
  }

  lemma RearrangeLate(p: string, mid: string, q: string)
    requires |p| >= 4
    ensures Rearranged(p + mid + q) == p[4..] + mid + (q + p[..4])
  {
    var n := p + mid + q;
    assert n[..4] == p[..4];
    assert n[4..] == p[4..] + mid + q;
  }

  lemma RearrangeEarly(p: string, mid: string, q: string)
    requires |p| + |mid| <= 4 <= |p| + |mid| + |q|
    ensures var k := 4 - |p| - |mid|; Rearranged(p + mid + q) == (q[k..] + p) + mid + q[..k]
  {
    var n, k := p + mid + q, 4 - |p| - |mid|;
    assert n[..4] == p + mid + q[..k];
    assert n[4..] == q[k..];
  }

  lemma SpelledSwap(p: string, c: char, d: char, q: string)
    requires IsDigit(c) && IsDigit(d) && c != d
    ensures Spelled(0, p + [c, d] + q) % 97 != Spelled(0, p + [d, c] + q) % 97
  {
    var x := Spelled(0, p);
    SpelledConcat(0, p + [c, d], q);
    SpelledConcat(0, p + [d, c], q);
    SpelledConcat(0, p, [c, d]);
    SpelledConcat(0, p, [d, c]);
    TwoDigits(x, c, d);
    TwoDigits(x, d, c);
    SmallDifference(x * 100, DigitVal(c) * 10 + DigitVal(d), DigitVal(d) * 10 + DigitVal(c));
    SpelledDistinct(Spelled(0, p + [c, d]), Spelled(0, p + [d, c]), q);
  }

  lemma TwoDigits(x: nat, c: char, d: char)
    requires IsDigit(c) && IsDigit(d)
    ensures Spelled(x, [c, d]) == x * 100 + DigitVal(c) * 10 + DigitVal(d)
  {
    assert [c, d][1..] == [d] && [d][1..] == [];
    DigitValue(x, c);
    var y := x * 10 + DigitVal(c);
    DigitValue(y, d);
    assert Spelled(y, [d]) == Spelled(y * 10 + DigitVal(d), []);
  }

  // ---------- the swap across the point where the text is rearranged ----------

  /** The remainder a difference of e grows into after j more digits. */
  function Shifted(e: nat, j: nat): (r: nat)
    requires e < 97
    ensures r < 97
  {
    if j == 0 then e else (Shifted(e, j - 1) * 10) % 97
  }

  function Width(s: string): nat {
    if s == [] then 0 else |Expansion(s[0])| + Width(s[1..])
  }

  lemma {:induction false} ShiftedSum(e: nat, i: nat, j: nat)
    requires e < 97
    ensures Shifted(Shifted(e, i), j) == Shifted(e, i + j)
  {
    if j > 0 {
      ShiftedSum(e, i, j - 1);
    }
  }

  lemma {:induction false} AppendGap(a: nat, b: nat, e: nat, ds: seq<nat>)
    requires e < 97 && (a - b) % 97 == e
    ensures (Append(a, ds) - Append(b, ds)) % 97 == Shifted(e, |ds|)
    decreases |ds|
  {
    if ds != [] {
      TenScalesGap(a, b, ds[0], e);
      AppendGap(a * 10 + ds[0], b * 10 + ds[0], (e * 10) % 97, ds[1..]);
      assert Shifted(e, 1) == (Shifted(e, 0) * 10) % 97;
      ShiftedSum(e, 1, |ds| - 1);
    }
  }

  lemma {:induction false} SpelledGap(a: nat, b: nat, e: nat, s: string)
    requires e < 97 && (a - b) % 97 == e
    ensures (Spelled(a, s) - Spelled(b, s)) % 97 == Shifted(e, Width(s))
    decreases |s|
  {
    if s != [] {
      var ds := Expansion(s[0]);
      AppendGap(a, b, e, ds);
      SpelledGap(Append(a, ds), Append(b, ds), Shifted(e, |ds|), s[1..]);
      ShiftedSum(e, |ds|, Width(s[1..]));
    }
  }

  lemma TenTimesSum(a: nat, b: nat)
    ensures (((a + b) % 97) * 10) % 97 == ((a * 10) % 97 + (b * 10) % 97) % 97
  {
    var k, p, q := (a + b) / 97, (a * 10) / 97, (b * 10) / 97;
    Congruent(((a + b) % 97) * 10, (a * 10) % 97 + (b * 10) % 97, p + q - 10 * k);
  }

  lemma {:induction false} ShiftedAdds(e: nat, f: nat, j: nat)
    requires e < 97 && f < 97
    ensures Shifted((e + f) % 97, j) == (Shifted(e, j) + Shifted(f, j)) % 97
  {
    if j > 0 {
      ShiftedAdds(e, f, j - 1);
      TenTimesSum(Shifted(e, j - 1), Shifted(f, j - 1));
    }
  }

  /** i times x modulo 97, by repeated addition. */
  function Multiple(i: nat, x: nat): nat {
    if i == 0 then 0 else (Multiple(i - 1, x) + x) % 97
  }

  lemma {:induction false} ShiftedMultiple(i: nat, j: nat)
    requires i < 97
    ensures Shifted(i, j) == Multiple(i, Shifted(1, j))
  {
    if i == 0 {
      ShiftedZero(j);
    } else {
      ShiftedMultiple(i - 1, j);
      Remainder(i - 1 + 1, 0, i);
      ShiftedAdds(i - 1, 1, j);
    }
  }

  lemma {:induction false} ShiftedZero(j: nat)
    ensures Shifted(0, j) == 0
  {
    if j > 0 {
      ShiftedZero(j - 1);
    }
  }

  lemma {:induction false} MultipleIs(i: nat, x: nat)
    ensures Multiple(i, x) == (i * x) % 97
  {
    if i > 0 {
      MultipleIs(i - 1, x);
      var t := (i - 1) * x;
      assert i * x == t + x;
      Congruent(t + x, Multiple(i - 1, x) + x, t / 97);
    }
  }

  lemma MultipleFixed(i: nat, x: nat)
    requires 1 <= i <= 9 && x < 97 && Multiple(i, x) == i
    ensures x == 1
  {
    MultipleIs(i, x);
    var k := (i * x) / 97;
    assert i * x == 97 * k + i;
    if i == 1 {
    } else if i == 2 { assert 2 * x == 97 * k + 2;
    } else if i == 3 { assert 3 * x == 97 * k + 3;
    } else if i == 4 { assert 4 * x == 97 * k + 4;
    } else if i == 5 { assert 5 * x == 97 * k + 5;
    } else if i == 6 { assert 6 * x == 97 * k + 6;
    } else if i == 7 { assert 7 * x == 97 * k + 7;
    } else if i == 8 { assert 8 * x == 97 * k + 8;
    } else { assert 9 * x == 97 * k + 9;
    }
  }

  lemma ProductOfPowers(u: nat, i: nat, j: nat)
    requires u == 1
    ensures Shifted(u, i + j) == (Shifted(u, i) * Shifted(u, j)) % 97
  {
    ShiftedSum(u, i, j);
    ShiftedMultiple(Shifted(u, i), j);
    MultipleIs(Shifted(u, i), Shifted(u, j));
  }

  lemma PowerStep(u: nat, i: nat, j: nat, n: nat, a: nat, b: nat, k: nat, c: nat)
    requires u == 1 && Shifted(u, i) == a && Shifted(u, j) == b && n == i + j
    requires a * b == 97 * k + c && c < 97
    ensures Shifted(u, n) == c
  {
    ProductOfPowers(u, i, j);
    Remainder(a * b, k, c);
  }

  /** Ten to the 32, 48 and 96, given exponents that are not literals. */
  lemma PowersOfTen(u: nat, n1: nat, n2: nat, n4: nat, n8: nat, n16: nat, n32: nat, n48: nat, n96: nat)
    requires u == 1 == n1 && n2 == n1 + n1 && n4 == n2 + n2 && n8 == n4 + n4 && n16 == n8 + n8
    requires n32 == n16 + n16 && n48 == n32 + n16 && n96 == n48 + n48
    ensures Shifted(u, n32) == 61 && Shifted(u, n48) == 96 && Shifted(u, n96) == 1
  {
    assert Shifted(u, n1) == 10 by { assert Shifted(u, n1 - 1) == 1; }
    PowerStep(u, n1, n1, n2, 10, 10, 1, 3);
    PowerStep(u, n2, n2, n4, 3, 3, 0, 9);
    PowerStep(u, n4, n4, n8, 9, 9, 0, 81);
    PowerStep(u, n8, n8, n16, 81, 81, 67, 62);
    PowerStep(u, n16, n16, n32, 62, 62, 39, 61);
    PowerStep(u, n32, n16, n48, 61, 62, 38, 96);
    PowerStep(u, n48, n48, n96, 96, 96, 95, 1);
  }

  /** Multiples of a period are periods. */
  lemma {:induction false} PeriodMultiple(u: nat, j: nat, q: nat)
    requires u == 1 && Shifted(u, j) == 1
    ensures Shifted(u, j * q) == 1
  {
    if q > 0 {
      PeriodMultiple(u, j, q - 1);
      assert j * q == j * (q - 1) + j;
      ShiftedSum(u, j * (q - 1), j);
    }
  }

  /** Removing multiples of a period j from a period n leaves a period below j. */
  lemma {:induction false} PeriodRemainder(u: nat, n: nat, j: nat) returns (q: nat, r: nat)
    requires u == 1 && j > 0 && Shifted(u, n) == 1 && Shifted(u, j) == 1
    ensures n == j * q + r && r < j && Shifted(u, r) == 1
  {
    if n < j {
      q, r := 0, n;
    } else {
      ShiftedSum(u, j, n - j);
      q, r := PeriodRemainder(u, n - j, j);
      assert j * (q + 1) == j * q + j;
      q := q + 1;
    }
  }

  lemma HalveOdd(j: nat, q: nat, n: nat)
    requires j * q == 2 * n && q % 2 == 1
    ensures j % 2 == 0 && (j / 2) * q == n
  {
    var s := q / 2;
    assert j * q == j * (2 * s + 1) == 2 * (j * s) + j;
    var h := n - j * s;
    assert j == 2 * h;
    assert j * q == 2 * (h * q);
  }

  /** A proper divisor of 96 divides 48 or is 32. */
  lemma DivisorOf96(j: nat, q: nat)
    requires j * q == 96 && q >= 2
    ensures (q % 2 == 0 && j * (q / 2) == 48) || j == 32
  {
    if q % 2 == 0 {
      assert j * (q / 2) * 2 == j * q;
    } else {
      HalveOdd(j, q, 48);
      HalveOdd(j / 2, q, 24);
      HalveOdd(j / 2 / 2, q, 12);
      HalveOdd(j / 2 / 2 / 2, q, 6);
      HalveOdd(j / 2 / 2 / 2 / 2, q, 3);
      var i := j / 2 / 2 / 2 / 2 / 2;
      assert i * q == 3;
      assert i >= 2 ==> i * q >= 2 * q;
    }
  }

  /** The order of ten modulo 97 is 96, more than the digits of any IBAN. */
  lemma {:induction false} OrderOfTen(u: nat, j: nat)
    requires u == 1 && 1 <= j < 96
    ensures Shifted(u, j) != 1
    decreases j
  {
    if Shifted(u, j) == 1 {
      PowersOfTen(u, 1, 2, 4, 8, 16, 32, 48, 96);
      var q, r := PeriodRemainder(u, 96, j);
      if r > 0 {
        OrderOfTen(u, r);
      } else {
        NoProperPeriod(u, j, q);
      }
    }
  }

  lemma NoProperPeriod(u: nat, j: nat, q: nat)
    requires u == 1 && j * q == 96 && j < 96
    ensures Shifted(u, j) != 1
  {
    if Shifted(u, j) == 1 {
      assert q <= 1 ==> j * q <= j;
      PowersOfTen(u, 1, 2, 4, 8, 16, 32, 48, 96);
      DivisorOf96(j, q);
      if q % 2 == 0 && j * (q / 2) == 48 {
        PeriodMultiple(u, j, q / 2);
      }
    }
  }

  /** A digit-sized difference never returns to itself within the length of an IBAN. */
  lemma NeverReturns(i: nat, j: nat)
    requires 1 <= i <= 9 && 1 <= j < 96
    ensures Shifted(i, j) != i
  {
    if Shifted(i, j) == i {
      ShiftedMultiple(i, j);
      MultipleFixed(i, Shifted(1, j));
      OrderOfTen(1, j);
    }
  }

  lemma {:induction false} WidthBound(s: string)
    ensures |s| <= Width(s) <= 2 * |s|
  {
    if s != [] {
      WidthBound(s[1..]);
    }
  }

  lemma EndsSwap(c: char, d: char, m: string)
    requires IsDigit(c) && IsDigit(d) && DigitVal(c) > DigitVal(d) && |m| <= 32
    ensures Differ(Spelled(0, [c] + m + [d]), Spelled(0, [d] + m + [c]))
  {
    var v, w := EndsValues(c, d, m);
  }

  lemma EndsValues(c: char, d: char, m: string) returns (v: nat, w: nat)
    requires IsDigit(c) && IsDigit(d) && DigitVal(c) > DigitVal(d) && |m| <= 32
    ensures v == Spelled(0, [c] + m + [d]) && w == Spelled(0, [d] + m + [c]) && Differ(v, w)
  {
    var x, y := DigitVal(c), DigitVal(d);
    v, w := Spelled(x, m) * 10 + y, Spelled(y, m) * 10 + x;
    assert Differ(v, w) by { MiddleGap(x, y, x - y, m); }
    assert v == Spelled(0, [c] + m + [d]) by { EndsValue(c, d, m); }
    assert w == Spelled(0, [d] + m + [c]) by { EndsValue(d, c, m); }
  }

  predicate Differ(a: nat, b: nat) {
    a % 97 != b % 97
  }

  lemma MiddleGap(x: nat, y: nat, e: nat, m: string)
    requires y < x <= 9 && e == x - y && |m| <= 32
    ensures Differ(Spelled(x, m) * 10 + y, Spelled(y, m) * 10 + x)
  {
    assert (x - y) % 97 == e by { Remainder(x - y, 0, e); }
    SpelledGap(x, y, e, m);
    WidthBound(m);
    var w := Width(m);
    assert Shifted(e, w + 1) == (Shifted(e, w) * 10) % 97;
    NeverReturns(e, w + 1);
    GapStays(Spelled(x, m), Spelled(y, m), x, y, Shifted(e, w));
  }

  lemma GapStays(a: nat, b: nat, x: nat, y: nat, g: nat)
    requires y < x <= 9 && (a - b) % 97 == g && (g * 10) % 97 != x - y
    ensures (a * 10 + y) % 97 != (b * 10 + x) % 97
  {
    if (a * 10 + y) % 97 == (b * 10 + x) % 97 {
      GapReturns(a, b, x, y, g);
    }
  }

  lemma GapReturns(a: nat, b: nat, x: nat, y: nat, g: nat)
    requires y < x <= 9 && (a - b) % 97 == g && (a * 10 + y) % 97 == (b * 10 + x) % 97
    ensures (g * 10) % 97 == (x - y) % 97
  {
    var k := Quotient(a - b, g);
    var m := SameRemainder(a * 10 + y, b * 10 + x);
    assert g * 10 == x - y + 97 * (m - 10 * k);
    Congruent(g * 10, x - y, m - 10 * k);
  }

  lemma EndsValue(c: char, d: char, m: string)
    requires IsDigit(c) && IsDigit(d)
    ensures Spelled(0, [c] + m + [d]) == Spelled(DigitVal(c), m) * 10 + DigitVal(d)
  {
    SpelledConcat(0, [c] + m, [d]);
    SpelledConcat(0, [c], m);
    DigitValue(0, c);
    assert Spelled(0, [c]) == Spelled(DigitVal(c), []);
    var z := Spelled(DigitVal(c), m);
    DigitValue(z, d);
    assert Spelled(z, [d]) == Spelled(z * 10 + DigitVal(d), []);
  }

  lemma RearrangeAcross(p: string, c: char, d: char, q: string)
    requires |p| == 3
    ensures Rearranged(p + [c, d] + q) == [d] + (q + p) + [c]
  {
    var n := p + [c, d] + q;
    assert n[..4] == p + [c];
    assert n[4..] == [d] + q;
  }

  /** Any swap of unequal neighbouring digits is detected, also between the fourth and
      fifth character, which end up at opposite ends of the rearranged text. */
  lemma IbanDetectsSwap(p: string, c: char, d: char, q: string)
    requires IsDigit(c) && IsDigit(d) && c != d && IbanText(p + [c, d] + q)
    ensures !IbanText(p + [d, c] + q)
  {
    if |p| >= 4 {
      RearrangeLate(p, [c, d], q);
      RearrangeLate(p, [d, c], q);
      SpelledSwap(p[4..], c, d, q + p[..4]);
    } else if |p| <= 2 {
      RearrangeEarly(p, [c, d], q);
      RearrangeEarly(p, [d, c], q);
      SpelledSwap(q[2 - |p|..] + p, c, d, q[..2 - |p|]);
    } else {
      RearrangeAcross(p, c, d, q);
      RearrangeAcross(p, d, c, q);
      if DigitVal(c) > DigitVal(d) {
        EndsSwap(c, d, q + p);
      } else {
        EndsSwap(d, c, q + p);
      }
    }
  }

  // ---------- the same at the level of the scanned text ----------

  lemma {:induction false} NormalizeConcat(a: string, b: string)
    ensures Normalize(a + b) == Normalize(a) + Normalize(b)
  {
    if b == [] {
      assert a + b == a;
    } else {
      assert (a + b)[..|a + b| - 1] == a + b[..|b| - 1];
      NormalizeConcat(a, b[..|b| - 1]);
    }
  }

  /** Mistyping one digit or letter of a valid IBAN, spaces and case aside, is detected. */
  lemma IbanTypoDetected(a: string, x: char, y: char, b: string)
    requires Confusable(ToUpper(x), ToUpper(y)) && IbanText(Normalize(a + [x] + b))
    ensures !IbanText(Normalize(a + [y] + b))
  {
    NormalizeConcat(a + [x], b);
    NormalizeConcat(a + [y], b);
    NormalizeConcat(a, [x]);
    NormalizeConcat(a, [y]);
    IbanDetectsChange(Normalize(a), ToUpper(x), ToUpper(y), Normalize(b));
  }

  // ---------- how an IBAN gets its check digits ----------

  function TwoChars(d: nat): (s: string)
    requires d <= 99
    ensures |s| == 2 && IsDigit(s[0]) && IsDigit(s[1]) && DigitVal(s[0]) * 10 + DigitVal(s[1]) == d
  {
    [('0' as int + d / 10) as char, ('0' as int + d % 10) as char]
  }

  lemma SpelledWithCheck(cc: string, bban: string, d: nat)
    requires |cc| == 2 && d <= 99
    ensures Spelled(0, Rearranged(cc + TwoChars(d) + bban)) == Spelled(0, bban + cc) * 100 + d
  {
    var check := TwoChars(d);
    RearrangeEarly(cc, check, bban);
    assert bban[0..] == bban && bban[..0] == [];
    assert (bban[0..] + cc) + check + bban[..0] == (bban + cc) + check;
    SpelledConcat(0, bban + cc, check);
    TwoDigits(Spelled(0, bban + cc), check[0], check[1]);
    assert check == [check[0], check[1]];
  }

  /** Between 02 and 98 exactly one pair of check digits makes an account number valid: 98 less the
      remainder of the number spelled with 00 in their place. */
  lemma IbanCheckDigits(cc: string, bban: string, d: nat)
    requires |cc| == 2 && Alphanumeric(cc) && Alphanumeric(bban) && 11 <= |bban| <= 30 && 2 <= d <= 98
    ensures IbanText(cc + TwoChars(d) + bban) <==> d == 98 - Spelled(0, Rearranged(cc + TwoChars(0) + bban)) % 97
  {
    SpelledWithCheck(cc, bban, d);
    SpelledWithCheck(cc, bban, 0);
    CheckRemainder(Spelled(0, bban + cc) * 100, d);
  }

  lemma CheckRemainder(x: nat, d: nat)
    requires 2 <= d <= 98
    ensures (x + d) % 97 == 1 <==> d == 98 - x % 97
  {
    var k, v := x / 97, x % 97;
    assert x == 97 * k + v;
    if v + d == 98 {
      Remainder(x + d, k + 1, 1);
    } else if v + d < 97 {
      Remainder(x + d, k, v + d);
    } else if v + d < 194 {
      Remainder(x + d, k + 1, v + d - 97);
    } else {
      Remainder(x + d, k + 2, v + d - 194);
    }
  }

  /** Normalising works character by character: blanks, tabs and hyphens go, small letters become capitals. */
  lemma NormalizeByCharacter(a: string, c: char, b: string)
    ensures Normalize(a + [c] + b) == Normalize(a) +
      (if c == ' ' || c == '\t' || c == '-' then [] else [if 'a' <= c <= 'z' then (c as int - 32) as char else c]) + Normalize(b)
  {
    NormalizeConcat(a + [c], b);
    NormalizeConcat(a, [c]);
    assert [c][..0] == [];
  }

  lemma {:induction false} DigitsConcat(a: string, b: string)
    ensures Digits(a + b) == Digits(a) + Digits(b)
  {
    if b == [] {
      assert a + b == a;
    } else {
      assert (a + b)[..|a + b| - 1] == a + b[..|b| - 1];
      DigitsConcat(a, b[..|b| - 1]);
    }
  }

  /** Every ASCII digit counts with its value and nothing else counts. */
  lemma DigitsByCharacter(a: string, c: char, b: string)
    ensures Digits(a + [c] + b) == Digits(a) + (if '0' <= c <= '9' then [c as int - 48] else []) + Digits(b)
  {
    DigitsConcat(a + [c], b);
    DigitsConcat(a, [c]);
    assert [c][..0] == [];
  }
}
