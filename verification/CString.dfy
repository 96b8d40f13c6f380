/** C strings and the number conversions of lib_generic/vsprintf.c.

    A C string is a `string` whose terminating NUL is left out; a pointer into
    it is an index, and reading at or behind the end yields the NUL.
  */
module CString {

  const U32 := 0x1_0000_0000

  type u32 = x: nat | x < U32

  function CharAt(s: string, p: nat): char {
    if p < |s| then s[p] else '\0'
  }

  /** Text t stands in s at position p. */
  predicate Has(s: string, p: nat, t: string) {
    p + |t| <= |s| && s[p..p + |t|] == t
  }

  lemma HasSplit(s: string, p: nat, a: string, b: string)
    requires Has(s, p, a + b)
    ensures Has(s, p, a) && Has(s, p + |a|, b)
  {
    assert s[p..p + |a|] == s[p..p + |a + b|][..|a|];
    assert s[p + |a|..p + |a| + |b|] == s[p..p + |a + b|][|a|..];
  }

  lemma HasAt(s: string, p: nat, t: string, i: nat)
    requires Has(s, p, t) && i < |t|
    ensures CharAt(s, p + i) == t[i]
  {
    assert s[p..p + |t|][i] == s[p + i];
  }

  /** strchr: the first position of c at or behind p, |s| when there is none. */
  function Find(s: string, p: nat, c: char): (q: nat)
    requires p <= |s|
    ensures p <= q <= |s|
    ensures c !in s[p..q]
    ensures q < |s| ==> s[q] == c
    decreases |s| - p
  {
    if p == |s| || s[p] == c then p
    else
      var q := Find(s, p + 1, c);
      assert s[p..q] == [s[p]] + s[p + 1..q];
      q
  }

  lemma {:induction false} FindIs(s: string, p: nat, q: nat, c: char)
    requires p <= q <= |s| && c !in s[p..q] && (q < |s| ==> s[q] == c)
    ensures Find(s, p, c) == q
    decreases q - p
  {
    if p < q {
      assert s[p] == s[p..q][0];
      assert s[p + 1..q] == s[p..q][1..];
      FindIs(s, p + 1, q, c);
    }
  }

  /** isxdigit together with the digit's value; -1 for any other character. */
  function DigitValue(c: char): (v: int)
    ensures -1 <= v < 16
  {
    if '0' <= c <= '9' then c as int - '0' as int
    else if 'a' <= c <= 'f' then c as int - 'a' as int + 10
    else if 'A' <= c <= 'F' then c as int - 'A' as int + 10
    else -1
  }

  predicate IsDigit(c: char, base: nat) {
    0 <= DigitValue(c) < base
  }

  /** One more digit in 32-bit arithmetic. */
  function Append(v: nat, base: nat, c: char): (r: u32) {
    (v * base + if IsDigit(c, base) then DigitValue(c) else 0) % U32
  }

  /** Positional value of a digit text. */
  function Value(t: string, base: nat): (v: nat)
    ensures v < U32
  {
    if t == [] then 0
    else Append(Value(t[..|t| - 1], base), base, t[|t| - 1])
  }

  lemma EmptyValue(s: string, p: nat, base: nat)
    requires p <= |s|
    ensures Value(s[p..p], base) == 0
  {
  }

  lemma ValueSnoc(s: string, first: nat, p: nat, base: nat)
    requires first <= p < |s|
    ensures Value(s[first..p + 1], base) == Append(Value(s[first..p], base), base, s[p])
  {
    assert s[first..p + 1][..p - first] == s[first..p];
  }

  /** End of the maximal run of digits that starts at p. */
  function DigitsEnd(s: string, p: nat, base: nat): (q: nat)
    requires p <= |s|
    ensures p <= q <= |s|
    ensures forall i :: p <= i < q ==> IsDigit(s[i], base)
    ensures q < |s| ==> !IsDigit(s[q], base)
    decreases |s| - p
  {
    if p < |s| && IsDigit(s[p], base) then DigitsEnd(s, p + 1, base) else p
  }

  lemma {:induction false} DigitsEndIs(s: string, p: nat, q: nat, base: nat)
    requires p <= q <= |s|
    requires forall i :: p <= i < q ==> IsDigit(s[i], base)
    requires !IsDigit(CharAt(s, q), base)
    ensures DigitsEnd(s, p, base) == q
    decreases q - p
  {
    if p < q {
      DigitsEndIs(s, p + 1, q, base);
    }
  }

  /** Radix and first digit: "0x" selects 16, another leading zero selects 8 when no radix was given. */
  function Radix(s: string, p: nat, base: nat): (r: (nat, nat))
    requires p <= |s|
    ensures p <= r.1 <= |s| && r.0 != 0
  {
    if CharAt(s, p) == '0' then
      if CharAt(s, p + 1) == 'x' && DigitValue(CharAt(s, p + 2)) >= 0 then (16, p + 2)
      else (if base == 0 then 8 else base, p + 1)
    else (if base == 0 then 10 else base, p)
  }

  /** What simple_strtoul returns: the number and where reading stopped. */
  function Strtoul(s: string, p: nat, base: nat): (r: (nat, nat))
    requires p <= |s|
    ensures r.0 < U32 && p <= r.1 <= |s|
  {
    var (radix, first) := Radix(s, p, base);
    var end := DigitsEnd(s, first, radix);
    (Value(s[first..end], radix), end)
  }

  /** The digit loop of simple_strtoul. */
  method ReadDigits(s: string, first: nat, base: nat) returns (result: nat, cp: nat)
    requires first <= |s|
    ensures cp == DigitsEnd(s, first, base) && result == Value(s[first..cp], base)
  {
    hide Append, Value;
    result, cp := 0, first;
    EmptyValue(s, first, base);
    while cp < |s| && IsDigit(s[cp], base)
      invariant first <= cp <= |s|
      invariant DigitsEnd(s, cp, base) == DigitsEnd(s, first, base)
      invariant result == Value(s[first..cp], base)
    {
      result := Append(result, base, s[cp]);
      ValueSnoc(s, first, cp, base);
      cp := cp + 1;
    }
  }

  method SimpleStrtoul(s: string, p: nat, base: nat) returns (result: nat, cp: nat)
    requires p <= |s|
    ensures (result, cp) == Strtoul(s, p, base)
  {
    var b := base;
    cp := p;
    if CharAt(s, cp) == '0' {
      cp := cp + 1;
      if CharAt(s, cp) == 'x' && DigitValue(CharAt(s, cp + 1)) >= 0 {
        b := 16;
        cp := cp + 1;
      }
      if b == 0 {
        b := 8;
      }
    }
    if b == 0 {
      b := 10;
    }
    assert (b, cp) == Radix(s, p, base);
    result, cp := ReadDigits(s, cp, b);
  }

  function DigitChar(d: nat): (c: char)
    requires d < 16
    ensures DigitValue(c) == d
  {
    "0123456789abcdef"[d]
  }

  /** sprintf "%lu" */
  function Dec(n: nat): (t: string)
    ensures t != []
  {
    if n < 10 then [DigitChar(n)] else Dec(n / 10) + [DigitChar(n % 10)]
  }

  lemma {:induction false} DecDigits(n: nat)
    ensures forall i :: 0 <= i < |Dec(n)| ==> IsDigit(Dec(n)[i], 10)
    ensures n > 0 ==> Dec(n)[0] != '0'
  {
    if n >= 10 {
      DecDigits(n / 10);
    }
  }

  lemma {:induction false} DecValue(n: nat)
    requires n < U32
    ensures Value(Dec(n), 10) == n
  {
    DecDigits(n);
    if n < 10 {
      assert Dec(n)[..0] == [];
    } else {
      DecValue(n / 10);
      assert Dec(n)[..|Dec(n)| - 1] == Dec(n / 10);
    }
  }

  lemma DecRun(s: string, p: nat, n: nat)
    requires Has(s, p, Dec(n)) && !IsDigit(CharAt(s, p + |Dec(n)|), 10)
    ensures DigitsEnd(s, p, 10) == p + |Dec(n)|
  {
    DecDigits(n);
    forall i | p <= i < p + |Dec(n)| ensures IsDigit(s[i], 10) {
      HasAt(s, p, Dec(n), i - p);
    }
    DigitsEndIs(s, p, p + |Dec(n)|, 10);
  }

  /** A decimal number is read back by base 0, whatever follows it other than a digit or an 'x'. */
  lemma StrtoulOfDec(s: string, p: nat, n: nat)
    requires n < U32 && Has(s, p, Dec(n))
    requires !IsDigit(CharAt(s, p + |Dec(n)|), 10)
    requires CharAt(s, p + |Dec(n)|) != 'x'
    ensures Strtoul(s, p, 0) == (n, p + |Dec(n)|)
  {
    var q := p + |Dec(n)|;
    DecValue(n);
    HasAt(s, p, Dec(n), 0);
    if n == 0 {
      DigitsEndIs(s, q, q, 8);
      assert s[q..q] == [];
    } else {
      DecDigits(n);
      assert Radix(s, p, 0) == (10, p);
      DecRun(s, p, n);
    }
  }

  /** A number of one digit. */
  lemma OneDigit(s: string, p: nat, n: nat)
    requires n < 10 && p < |s| && s[p] == DigitChar(n)
    requires !IsDigit(CharAt(s, p + 1), 10) && CharAt(s, p + 1) != 'x'
    ensures Strtoul(s, p, 0) == (n, p + 1)
  {
    hide Strtoul;
    assert Dec(n) == [DigitChar(n)] && s[p..p + 1] == Dec(n);
    StrtoulOfDec(s, p, n);
  }
}
