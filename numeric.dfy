/** Fixed-width unsigned integers and positional numerals (decimal and
    hexadecimal), as used by the text forms of addresses and ports. */
module Numeric {

  type Byte = x: int | 0 <= x < 0x100
  type U16 = x: int | 0 <= x < 0x1_0000
  type U32 = x: int | 0 <= x < 0x1_0000_0000

  /** The radixes the address codecs use. */
  type Base = b: nat | b == 10 || b == 16 witness 10

  function Pow(b: nat, k: nat): nat
  {
    if k == 0 then 1 else b * Pow(b, k - 1)
  }

  /** The lower-case digits, as std::to_string and inet_ntop print them. */
  const Digits: string := "0123456789abcdef"

  /** Value of a digit character in either letter case; 16 for a non-digit. */
  function DigitValue(c: char): (d: nat)
    ensures d <= 16
  {
    if '0' <= c <= '9' then c as nat - '0' as nat
    else if 'a' <= c <= 'f' then c as nat - 'a' as nat + 10
    else if 'A' <= c <= 'F' then c as nat - 'A' as nat + 10
    else 16
  }

  predicate IsDigit(c: char, base: Base)
  {
    DigitValue(c) < base
  }

  predicate AllDigits(s: string, base: Base)
  {
    forall i :: 0 <= i < |s| ==> IsDigit(s[i], base)
  }

  /** Value of a string of digits, most significant first. */
  function ToNat(s: string, base: Base): nat
    requires AllDigits(s, base)
  {
    if s == [] then 0 else ToNat(s[..|s| - 1], base) * base + DigitValue(s[|s| - 1])
  }

  /** The shortest numeral for n, in lower case. */
  function FromNat(n: nat, base: Base): (s: string)
    decreases n
  {
    if n < base then [Digits[n]] else FromNat(n / base, base) + [Digits[n % base]]
  }

  /** A numeral as FromNat prints it: non-empty, lower-case digits of the
      base, and no leading zero unless it is "0" itself. */
  predicate Canonical(s: string, base: Base)
  {
    && |s| >= 1
    && (forall i :: 0 <= i < |s| ==> s[i] in Digits[..base])
    && (|s| > 1 ==> s[0] != '0')
  }

  lemma DigitsValue(d: nat)
    requires d < 16
    ensures DigitValue(Digits[d]) == d
  {
  }

  lemma DigitInBase(d: nat, base: Base)
    requires d < base
    ensures Digits[d] in Digits[..base]
    ensures DigitValue(Digits[d]) == d
  {
    assert Digits[..base][d] == Digits[d];
  }

  lemma DivMod(n: nat, base: Base)
    ensures n == (n / base) * base + n % base
    ensures n % base < base
    ensures n >= base ==> 1 <= n / base < n
  {
  }

  lemma CanonicalDigits(s: string, base: Base)
    requires forall i :: 0 <= i < |s| ==> s[i] in Digits[..base]
    ensures AllDigits(s, base)
  {
    forall i | 0 <= i < |s| ensures IsDigit(s[i], base) {
      var d :| 0 <= d < base && Digits[d] == s[i];
      DigitsValue(d);
    }
  }

  /** FromNat prints a canonical numeral that reads back as n. */
  lemma {:induction false} FromNatCanonical(n: nat, base: Base)
    ensures Canonical(FromNat(n, base), base)
    ensures AllDigits(FromNat(n, base), base)
    ensures ToNat(FromNat(n, base), base) == n
    decreases n
  {
    var s := FromNat(n, base);
    if n < base {
      DigitInBase(n, base);
      CanonicalDigits(s, base);
    } else {
      var q, r := n / base, n % base;
      DivMod(n, base);
      var p := FromNat(q, base);
      FromNatCanonical(q, base);
      assert s == p + [Digits[r]];
      DigitInBase(r, base);
      assert s[..|s| - 1] == p;
      assert p[0] != '0' by {
        if |p| == 1 {
          assert p == [Digits[q]];
          DigitInBase(q, base);
        }
      }
      assert forall i :: 0 <= i < |s| ==> s[i] in Digits[..base] by {
        forall i | 0 <= i < |s| ensures s[i] in Digits[..base] {
          if i < |p| { assert s[i] == p[i]; }
        }
      }
      CanonicalDigits(s, base);
      assert ToNat(s, base) == ToNat(p, base) * base + DigitValue(Digits[r]);
    }
  }

  /** A canonical numeral is exactly what FromNat prints for its value. */
  lemma {:induction false} ToNatCanonical(s: string, base: Base)
    requires Canonical(s, base)
    ensures AllDigits(s, base)
    ensures FromNat(ToNat(s, base), base) == s
    decreases |s|
  {
    CanonicalDigits(s, base);
    if |s| == 1 {
      SingleDigit(s, base);
    } else {
      var p := s[..|s| - 1];
      PrefixCanonical(s, base);
      ToNatCanonical(p, base);
      LastDigit(s, p, base);
    }
  }

  lemma SingleDigit(s: string, base: Base)
    requires |s| == 1 && s[0] in Digits[..base]
    ensures AllDigits(s, base) && FromNat(ToNat(s, base), base) == s
  {
    DigitOf(s[0], base);
    var d := DigitValue(s[0]);
    assert s[..0] == [];
    assert ToNat(s, base) == d;
    assert FromNat(d, base) == [Digits[d]];
  }

  lemma LastDigit(s: string, p: string, base: Base)
    requires |s| > 1 && p == s[..|s| - 1] && s[|s| - 1] in Digits[..base]
    requires Canonical(p, base) && p[0] != '0' && AllDigits(p, base)
    requires FromNat(ToNat(p, base), base) == p
    ensures AllDigits(s, base) && FromNat(ToNat(s, base), base) == s
  {
    var last := s[|s| - 1];
    DigitOf(last, base);
    var d := DigitValue(last);
    assert s == p + [last];
    AppendDigit(p, d, base);
  }

  /** The character of a digit is the digit of its value. */
  lemma DigitOf(c: char, base: Base)
    requires c in Digits[..base]
    ensures DigitValue(c) < base && Digits[DigitValue(c)] == c
  {
    var d :| 0 <= d < base && Digits[d] == c;
    DigitsValue(d);
  }

  /** Dropping the last digit of a canonical numeral of two or more digits
      leaves a canonical numeral. */
  lemma PrefixCanonical(s: string, base: Base)
    requires Canonical(s, base) && |s| > 1
    ensures Canonical(s[..|s| - 1], base) && s[..|s| - 1][0] != '0'
  {
    var p := s[..|s| - 1];
    assert p[0] == s[0];
    assert forall i :: 0 <= i < |p| ==> p[i] == s[i];
  }

  /** Appending digit d to a canonical numeral p with a non-zero lead. */
  lemma AppendDigit(p: string, d: nat, base: Base)
    requires Canonical(p, base) && p[0] != '0' && AllDigits(p, base) && d < base
    requires FromNat(ToNat(p, base), base) == p
    ensures AllDigits(p + [Digits[d]], base)
    ensures FromNat(ToNat(p + [Digits[d]], base), base) == p + [Digits[d]]
  {
    var v, s := ToNat(p, base), p + [Digits[d]];
    AppendValue(p, d, base);
    PositiveLeading(p, base);
    AppendFromNat(v, d, base, ToNat(s, base));
    assert FromNat(ToNat(s, base), base) == FromNat(v, base) + [Digits[d]];
  }

  /** Appending a digit multiplies the value by the base and adds the digit. */
  lemma AppendValue(p: string, d: nat, base: Base)
    requires AllDigits(p, base) && d < base
    ensures AllDigits(p + [Digits[d]], base)
    ensures ToNat(p + [Digits[d]], base) == ToNat(p, base) * base + d
  {
    var s := p + [Digits[d]];
    DigitInBase(d, base);
    assert forall i :: 0 <= i < |p| ==> s[i] == p[i];
    assert AllDigits(s, base);
    assert s[..|s| - 1] == p;
  }

  /** The numeral of v * base + d is the numeral of v followed by digit d. */
  lemma AppendFromNat(v: nat, d: nat, base: Base, n: nat)
    requires d < base && v >= 1 && n == v * base + d
    ensures FromNat(n, base) == FromNat(v, base) + [Digits[d]]
  {
    ComposeDivMod(v, d, base);
  }

  lemma ComposeDivMod(v: nat, d: nat, base: Base)
    requires d < base && v >= 1
    ensures (v * base + d) / base == v && (v * base + d) % base == d
    ensures v * base + d >= base
  {
  }

  /** A numeral that does not start with '0' has a non-zero value. */
  lemma {:induction false} PositiveLeading(s: string, base: Base)
    requires |s| >= 1 && s[0] != '0' && AllDigits(s, base)
    ensures ToNat(s, base) >= 1
    decreases |s|
  {
    if |s| == 1 {
      assert DigitValue(s[0]) != 0;
    } else {
      PositiveLeading(s[..|s| - 1], base);
    }
  }

  /** A numeral of k digits is below base^k. */
  lemma {:induction false} ToNatBound(s: string, base: Base)
    requires AllDigits(s, base)
    ensures ToNat(s, base) < Pow(base, |s|)
    decreases |s|
  {
    if s != [] {
      var p := s[..|s| - 1];
      ToNatBound(p, base);
      var v, q := ToNat(p, base), Pow(base, |p|);
      assert v + 1 <= q;
      MulMono(v + 1, q, base);
      assert ToNat(s, base) == v * base + DigitValue(s[|s| - 1]);
    }
  }

  lemma MulMono(a: nat, b: nat, c: nat)
    requires a <= b
    ensures a * c <= b * c
  {
  }

  /** A numeral for a value below base^k has at most k digits. */
  lemma {:induction false} FromNatLength(n: nat, base: Base, k: nat)
    requires 1 <= k && n < Pow(base, k)
    ensures |FromNat(n, base)| <= k
    decreases k
  {
    if n >= base {
      assert Pow(base, 1) == base;
      assert k >= 2;
      assert Pow(base, k) == base * Pow(base, k - 1);
      DivBelow(n, base, Pow(base, k - 1));
      FromNatLength(n / base, base, k - 1);
    }
  }

  lemma DivBelow(n: nat, b: nat, q: nat)
    requires b >= 1 && n < b * q
    ensures n / b < q
  {
  }
}
