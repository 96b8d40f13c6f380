/** Numbers as people write them, and what simple_strtoul makes of them: digits of both cases in the radix that
    the caller gives, "0x" for hexadecimal numbers in every radix, and a leading zero for octal ones where the
    caller gives none. */
module Numerals {
  import opened CString

  const SMALL := "0123456789abcdef"
  const CAPITAL := "0123456789ABCDEF"

  /** The digit with the value d, in either case. */
  predicate Denotes(c: char, d: nat) {
    d < 16 && (c == SMALL[d] || c == CAPITAL[d])
  }

  ghost predicate IsDigitOf(c: char, base: nat) {
    exists d: nat :: d < base && Denotes(c, d)
  }

  /** n has the digit d behind those of m. */
  predicate Extends(m: nat, base: nat, d: nat, n: nat) {
    d < base && n == base * m + d
  }

  /** Digits, the most significant one first, that stand for n; no digits stand for zero. */
  ghost predicate Numeral(t: string, base: nat, n: nat) {
    if t == "" then n == 0
    else exists m: nat, d: nat ::
           Denotes(t[|t| - 1], d) && Extends(m, base, d, n) && Numeral(t[..|t| - 1], base, m)
  }

  ghost predicate DigitsOnly(t: string, base: nat) {
    forall i :: 0 <= i < |t| ==> IsDigitOf(t[i], base)
  }

  // ---- digits

  lemma DigitIs(c: char, d: nat)
    requires Denotes(c, d)
    ensures DigitValue(c) == d
  {
  }

  lemma DigitHas(c: char, base: nat)
    ensures IsDigitOf(c, base) <==> IsDigit(c, base)
  {
    var v := DigitValue(c);
    if v >= 0 {
      assert Denotes(c, v);
    }
    if d: nat :| d < base && Denotes(c, d) {
      DigitIs(c, d);
    }
  }

  /** Every text of digits is a numeral. */
  lemma {:induction false} NumeralOf(t: string, base: nat) returns (n: nat)
    requires DigitsOnly(t, base)
    ensures Numeral(t, base, n)
  {
    hide Denotes;
    n := 0;
    if t != "" {
      var m := NumeralOf(t[..|t| - 1], base);
      assert IsDigitOf(t[|t| - 1], base);
      var d: nat :| d < base && Denotes(t[|t| - 1], d);
      n := base * m + d;
      assert Extends(m, base, d, n);
    }
  }

  lemma {:induction false} NumeralDigits(t: string, base: nat, n: nat)
    requires Numeral(t, base, n)
    ensures DigitsOnly(t, base)
  {
    hide Denotes;
    if t != "" {
      var m: nat, d: nat :| Denotes(t[|t| - 1], d) && Extends(m, base, d, n) && Numeral(t[..|t| - 1], base, m);
      NumeralDigits(t[..|t| - 1], base, m);
      forall i | 0 <= i < |t| ensures IsDigitOf(t[i], base) {
        if i < |t| - 1 {
          assert t[..|t| - 1][i] == t[i];
        }
      }
    }
  }

  // ---- values

  lemma Times(q: int, base: nat)
    ensures (q * U32) * base == (q * base) * U32
  {
  }

  lemma ModPlus(k: int, x: int)
    ensures (k * U32 + x) % U32 == x % U32
  {
  }

  /** Arithmetic modulo 2^32 loses nothing but the upper bits. */
  lemma ModStep(m: nat, base: nat, d: nat)
    ensures (m % U32 * base + d) % U32 == (base * m + d) % U32
  {
    var q, r := m / U32, m % U32;
    assert m == q * U32 + r;
    assert base * m == (q * U32) * base + r * base;
    Times(q, base);
    ModPlus(q * base, r * base + d);
  }

  lemma {:induction false} NumeralValue(t: string, base: nat, n: nat)
    requires Numeral(t, base, n)
    ensures Value(t, base) == n % U32
  {
    hide Denotes;
    if t != "" {
      var m: nat, d: nat :| Denotes(t[|t| - 1], d) && Extends(m, base, d, n) && Numeral(t[..|t| - 1], base, m);
      NumeralValue(t[..|t| - 1], base, m);
      DigitIs(t[|t| - 1], d);
      ModStep(m, base, d);
    }
  }

  /** A leading zero adds nothing. */
  lemma {:induction false} LeadingZero(t: string, base: nat)
    ensures Value("0" + t, base) == Value(t, base)
  {
    if t == "" {
      assert ("0" + t)[..0] == "" && ("0" + t)[0] == '0';
    } else {
      var u := t[..|t| - 1];
      LeadingZero(u, base);
      assert ("0" + t)[..|t|] == "0" + u;
    }
  }

  // ---- what is read

  /** The run of digits of a numeral. */
  lemma RunOf(s: string, p: nat, t: string, base: nat, n: nat)
    requires Numeral(t, base, n) && Has(s, p, t) && !IsDigitOf(CharAt(s, p + |t|), base)
    ensures DigitsEnd(s, p, base) == p + |t| && Value(s[p..p + |t|], base) == n % U32
  {
    hide Numeral, IsDigitOf, IsDigit;
    NumeralDigits(t, base, n);
    NumeralValue(t, base, n);
    forall i | p <= i < p + |t| ensures IsDigit(s[i], base) {
      HasAt(s, p, t, i - p);
      assert IsDigitOf(t[i - p], base);
      DigitHas(s[i], base);
    }
    DigitHas(CharAt(s, p + |t|), base);
    DigitsEndIs(s, p, p + |t|, base);
  }

  /** "0x" and hexadecimal digits are read as such, whatever the caller's radix is. */
  lemma HexadecimalRead(s: string, p: nat, base: nat, t: string, n: nat)
    requires t != "" && Numeral(t, 16, n) && Has(s, p, "0x" + t) && !IsDigitOf(CharAt(s, p + 2 + |t|), 16)
    ensures Strtoul(s, p, base) == (n % 0x1_0000_0000, p + 2 + |t|)
  {
    hide Numeral, Value, IsDigitOf, Denotes;
    HasSplit(s, p, "0x", t);
    HasAt(s, p, "0x", 0);
    HasAt(s, p, "0x", 1);
    HasAt(s, p + 2, t, 0);
    NumeralDigits(t, 16, n);
    DigitHas(t[0], 16);
    RunOf(s, p + 2, t, 16, n);
  }

  /** A leading zero makes the digits behind it octal where the caller gives no radix. */
  lemma OctalRead(s: string, p: nat, t: string, n: nat)
    requires Numeral(t, 8, n) && Has(s, p, "0" + t) && !IsDigitOf(CharAt(s, p + 1 + |t|), 8)
    requires t == "" ==> CharAt(s, p + 1) != 'x'
    ensures Strtoul(s, p, 0) == (n % 0x1_0000_0000, p + 1 + |t|)
  {
    hide Numeral, Value, IsDigitOf, Denotes;
    HasSplit(s, p, "0", t);
    HasAt(s, p, "0", 0);
    if t != "" {
      HasAt(s, p + 1, t, 0);
      NumeralDigits(t, 8, n);
      DigitHas(t[0], 8);
    }
    RunOf(s, p + 1, t, 8, n);
  }

  /** Digits in the radix that the caller gives, zeros in front included. */
  lemma DigitsRead(s: string, p: nat, base: nat, t: string, n: nat)
    requires base > 0 && t != "" && Numeral(t, base, n) && Has(s, p, t) && !IsDigitOf(CharAt(s, p + |t|), base)
    requires t == "0" ==> CharAt(s, p + 1) != 'x'
    ensures Strtoul(s, p, base) == (n % 0x1_0000_0000, p + |t|)
  {
    hide Numeral, Value, IsDigitOf, Denotes;
    HasAt(s, p, t, 0);
    RunOf(s, p, t, base, n);
    if t[0] == '0' {
      if |t| > 1 {
        HasAt(s, p, t, 1);
        NumeralDigits(t, base, n);
        DigitHas(t[1], base);
      }
      assert t == "0" + t[1..];
      LeadingZero(t[1..], base);
      assert s[p + 1..p + |t|] == t[1..];
      DigitsEndIs(s, p + 1, p + |t|, base);
    }
  }

  /** Without a radix, digits that do not start with a zero are decimal. */
  lemma DecimalRead(s: string, p: nat, t: string, n: nat)
    requires t != "" && t[0] != '0' && Numeral(t, 10, n) && Has(s, p, t) && !IsDigitOf(CharAt(s, p + |t|), 10)
    ensures Strtoul(s, p, 0) == (n % 0x1_0000_0000, p + |t|)
  {
    hide Numeral, Value, IsDigitOf, Denotes;
    HasAt(s, p, t, 0);
    RunOf(s, p, t, 10, n);
  }

  // ---- numbers in C notation

  /** Decimal digits, octal ones behind a zero, or hexadecimal ones behind "0x". */
  ghost predicate CNumber(t: string, n: nat) {
    || (t != "" && t[0] != '0' && Numeral(t, 10, n))
    || (t != "" && t[0] == '0' && Numeral(t[1..], 8, n))
    || (|t| > 2 && t[..2] == "0x" && Numeral(t[2..], 16, n))
  }

  lemma SmallerBase(c: char, a: nat, b: nat)
    requires a <= b && IsDigitOf(c, a)
    ensures IsDigitOf(c, b)
  {
    hide Denotes;
    var d: nat :| d < a && Denotes(c, d);
    assert d < b && Denotes(c, d);
  }

  /** Without a radix, a number in C notation is read, in front of anything that does not go on with it. */
  lemma CNumberRead(s: string, p: nat, t: string, n: nat)
    requires CNumber(t, n) && Has(s, p, t)
    requires !IsDigitOf(CharAt(s, p + |t|), 16) && CharAt(s, p + |t|) != 'x'
    ensures Strtoul(s, p, 0) == (n % 0x1_0000_0000, p + |t|)
  {
    hide Numeral, Strtoul, IsDigitOf, Has;
    if IsDigitOf(CharAt(s, p + |t|), 8) {
      SmallerBase(CharAt(s, p + |t|), 8, 16);
    }
    if IsDigitOf(CharAt(s, p + |t|), 10) {
      SmallerBase(CharAt(s, p + |t|), 10, 16);
    }
    if t != "" && t[0] != '0' && Numeral(t, 10, n) {
      DecimalRead(s, p, t, n);
    } else if t != "" && t[0] == '0' && Numeral(t[1..], 8, n) {
      assert t == "0" + t[1..];
      OctalRead(s, p, t[1..], n);
    } else {
      assert t == "0x" + t[2..];
      HexadecimalRead(s, p, 0, t[2..], n);
    }
  }

  lemma DigitsOf(s: string, p: nat, q: nat, base: nat) returns (n: nat)
    requires p <= q <= |s| && forall i :: p <= i < q ==> IsDigit(s[i], base)
    ensures Numeral(s[p..q], base, n)
  {
    hide Numeral, IsDigit, IsDigitOf;
    forall i | 0 <= i < q - p ensures IsDigitOf(s[p..q][i], base) {
      DigitHas(s[p + i], base);
    }
    n := NumeralOf(s[p..q], base);
  }

  /** What is read without a radix is a number in C notation, if it is anything. */
  lemma ReadIsCNumber(s: string, p: nat) returns (n: nat)
    requires p <= |s| && Strtoul(s, p, 0).1 != p
    ensures CNumber(s[p..Strtoul(s, p, 0).1], n) && Strtoul(s, p, 0).0 == n % 0x1_0000_0000
  {
    hide Numeral, Value;
    var (radix, first) := Radix(s, p, 0);
    var q := Strtoul(s, p, 0).1;
    var t := s[p..q];
    n := DigitsOf(s, first, q, radix);
    NumeralValue(s[first..q], radix, n);
    assert t[first - p..] == s[first..q];
  }
}
