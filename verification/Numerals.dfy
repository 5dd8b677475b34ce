/** Positional notation as num2str of libc/usr/print.c writes it. */
module Numerals {
  import opened Machine

  const ASCIINUM: string := "0123456789ABCDEF"

  function DigitOf(c: char): (d: nat)
  {
    if '0' <= c <= '9' then (c - '0') as nat
    else if 'A' <= c <= 'F' then (c - 'A') as nat + 10
    else 0
  }

  lemma DigitRoundTrip(d: nat)
    requires d < 16
    ensures DigitOf(ASCIINUM[d]) == d && (ASCIINUM[d] == '0' <==> d == 0)
  {
  }

  // Digits of a number, most significant first; none for 0.
  function Digits(n: nat, base: nat): string
    requires 2 <= base <= 16
  {
    if n == 0 then "" else Digits(n / base, base) + [ASCIINUM[n % base]]
  }

  function Numeral(n: nat, base: nat): string
    requires 2 <= base <= 16
  {
    if n == 0 then "0" else Digits(n, base)
  }

  // A number with one more digit behind it.
  function Append(v: nat, base: nat, d: nat): nat {
    v * base + d
  }

  // The number a string of digits stands for.
  function Value(s: string, base: nat): nat {
    if s == "" then 0 else Append(Value(s[..|s| - 1], base), base, DigitOf(s[|s| - 1]))
  }

  // Digits of the base, not beginning with 0 unless that is all.
  ghost predicate Canonical(s: string, base: nat) {
    && s != "" && (s[0] == '0' ==> |s| == 1)
    && forall i :: 0 <= i < |s| ==> DigitOf(s[i]) < base && s[i] in ASCIINUM
  }

  lemma DivMod(n: nat, base: nat)
    requires base > 0
    ensures n == n / base * base + n % base && n % base < base
  {
  }

  lemma LastDigit(n: nat, base: nat, q: nat, r: nat)
    requires 2 <= base <= 16 && n > 0 && q == n / base && r == n % base
    ensures n == Append(q, base, r) && r < base && q < n && (q == 0 ==> r > 0)
    ensures Digits(n, base) == Digits(q, base) + [ASCIINUM[r]] && (q == 0 ==> Digits(q, base) == "")
  {
    DivMod(n, base);
    hide DigitOf;
  }

  lemma ValueSnoc(s: string, c: char, base: nat)
    ensures Value(s + [c], base) == Append(Value(s, base), base, DigitOf(c))
  {
  }

  lemma CanonicalSnoc(s: string, d: nat, base: nat)
    requires 2 <= base <= 16 && d < base && if s == "" then d > 0 else Canonical(s, base) && s[0] != '0'
    ensures Canonical(s + [ASCIINUM[d]], base) && (s + [ASCIINUM[d]])[0] != '0'
  {
  }

  lemma {:induction false} DigitsReadBack(n: nat, base: nat)
    requires 2 <= base <= 16
    ensures Value(Digits(n, base), base) == n
    ensures n > 0 ==> Canonical(Digits(n, base), base) && Digits(n, base)[0] != '0'
  {
    if n > 0 {
      hide Digits, Value, Canonical, DigitOf, Append;
      var q, r := n / base, n % base;
      LastDigit(n, base, q, r);
      DigitsReadBack(q, base);
      DigitRoundTrip(r);
      ValueSnoc(Digits(q, base), ASCIINUM[r], base);
      CanonicalSnoc(Digits(q, base), r, base);
    } else {
      assert Digits(n, base) == "";
    }
  }

  /** Reading back what is written gives the number, and nothing is written with a leading 0. */
  lemma NumeralReadsBack(n: nat, base: nat)
    requires 2 <= base <= 16
    ensures Value(Numeral(n, base), base) == n && Canonical(Numeral(n, base), base)
  {
    DigitsReadBack(n, base);
    DigitRoundTrip(0);
  }

  /** Writing what is read gives the same text back: each number has one numeral. */
  lemma {:induction false} NumeralIsUnique(s: string, base: nat)
    requires 2 <= base <= 16 && Canonical(s, base)
    ensures Numeral(Value(s, base), base) == s
  {
    var front, c := s[..|s| - 1], s[|s| - 1];
    CanonicalFront(s, base);
    CharOfDigit(c);
    hide Digits, Append, DigitOf, Canonical;
    var d, v := DigitOf(c), Value(front, base);
    if front != "" {
      NumeralIsUnique(front, base);
      FrontPositive(front, base);
    }
    hide Value;
    WriteOneMore(v, d, base);
  }

  lemma CanonicalFront(s: string, base: nat)
    requires Canonical(s, base)
    ensures var front, c := s[..|s| - 1], s[|s| - 1];
            && s == front + [c] && c in ASCIINUM && DigitOf(c) < base
            && (front != "" ==> Canonical(front, base) && front[0] != '0')
            && Value(s, base) == Append(Value(front, base), base, DigitOf(c))
  {
    hide DigitOf, Append;
  }

  lemma WriteOneMore(v: nat, d: nat, base: nat)
    requires 2 <= base <= 16 && d < base
    ensures v > 0 || d > 0 ==> Append(v, base, d) > 0 && Digits(Append(v, base, d), base) == Digits(v, base) + [ASCIINUM[d]]
    ensures Append(0, base, 0) == 0 && Digits(0, base) == ""
  {
    OneDigit(v, d, base);
    if v > 0 { Positive(v, base); }
    hide DigitOf;
  }

  lemma OneDigit(v: nat, d: nat, base: nat)
    requires 2 <= base && d < base
    ensures Append(v, base, d) / base == v && Append(v, base, d) % base == d
  {
    var n := v * base + d;
    DivMod(n, base);
    var q, r := n / base, n % base;
    SameQuotient(q, r, v, d, base);
  }

  lemma SameQuotient(q: nat, r: nat, v: nat, d: nat, base: nat)
    requires r < base && d < base && q * base + r == v * base + d
    ensures q == v && r == d
  {
    Apart(q, v, base);
    Apart(v, q, base);
  }

  lemma Apart(q: nat, v: nat, base: nat)
    ensures q > v ==> q * base >= v * base + base
  {
    if q > v { Ordered(v, q, base); }
  }

  lemma CharOfDigit(c: char)
    requires c in ASCIINUM
    ensures DigitOf(c) < 16 && ASCIINUM[DigitOf(c)] == c && (c == '0' <==> DigitOf(c) == 0)
  {
  }

  lemma {:induction false} FrontPositive(s: string, base: nat)
    requires 2 <= base <= 16 && Canonical(s, base) && s[0] != '0'
    ensures Value(s, base) > 0
  {
    hide DigitOf, Canonical, Append, Value;
    CanonicalFront(s, base);
    var front, c := s[..|s| - 1], s[|s| - 1];
    CharOfDigit(c);
    if front != "" { FrontPositive(front, base); }
    AppendPositive(Value(front, base), base, DigitOf(c));
  }

  lemma AppendPositive(v: nat, base: nat, d: nat)
    requires base > 0 && (v > 0 || d > 0)
    ensures Append(v, base, d) > 0
  {
    if v > 0 { Positive(v, base); }
  }

  lemma Positive(v: nat, base: nat)
    requires v > 0 && base > 0
    ensures v * base > 0
  {
  }

  function Power(base: nat, k: nat): nat {
    if k == 0 then 1 else base * Power(base, k - 1)
  }

  // A number below base^k has at most k digits.
  lemma {:induction false} DigitsBound(n: nat, base: nat, k: nat)
    requires 2 <= base <= 16 && n < Power(base, k)
    ensures |Digits(n, base)| <= k
  {
    hide Digits, Power;
    DigitsOnce(n, base);
    if n > 0 {
      Shorter(n, base, k);
      DigitsBound(n / base, base, k - 1);
    }
  }

  lemma DigitsOnce(n: nat, base: nat)
    requires 2 <= base <= 16
    ensures |Digits(n, base)| == if n == 0 then 0 else |Digits(n / base, base)| + 1
  {
  }

  lemma Shorter(n: nat, base: nat, k: nat)
    requires base > 0 && 0 < n < Power(base, k)
    ensures k > 0 && n / base < Power(base, k - 1)
  {
    Quotient(n, base, Power(base, k - 1));
  }

  lemma Quotient(n: nat, base: nat, p: nat)
    requires base > 0 && n < base * p
    ensures n / base < p
  {
  }
}
