/** The names that partitions without one get: size and offset in hexadecimal digits. */
module MtdNames {
  import opened CString
  import opened Numerals
  import opened MtdGrammar

  lemma Powers()
    ensures Pow16(0) == 1 && Pow16(1) == 0x10 && Pow16(2) == 0x100 && Pow16(3) == 0x1000 && Pow16(4) == 0x1_0000
    ensures Pow16(5) == 0x10_0000 && Pow16(6) == 0x100_0000 && Pow16(7) == 0x1000_0000
  {
    assert Pow16(3) == 16 * Pow16(2);
    assert Pow16(5) == 16 * Pow16(4);
  }

  /** The number without its last k hexadecimal digits. */
  function Upper(n: nat, k: nat): nat {
    if k == 0 then n else Upper(n / 16, k - 1)
  }

  lemma {:induction false} UpperStep(n: nat, k: nat)
    ensures Upper(n, k + 1) == Upper(n, k) / 16
  {
    if k > 0 {
      UpperStep(n / 16, k - 1);
    }
  }

  lemma UpperNone(n: nat)
    ensures Upper(n, 0) == n
  {
  }

  lemma {:induction false} DigitAt(n: u32, k: nat)
    requires k < 8
    ensures n / Pow16(k) == Upper(n, k)
  {
    hide Pow16, Upper;
    Powers();
    UpperNone(n);
    if k > 0 {
      UpperStep(n, k - 1);
      DigitAt(n, k - 1);
    }
  }

  lemma {:induction false} UpperOfSmall(n: u32)
    ensures Upper(n, 8) == 0
  {
    hide Pow16;
    Powers();
    DigitAt(n, 7);
    UpperStep(n, 7);
  }

  lemma SmallDigit(d: nat)
    requires d < 16
    ensures Denotes(DigitChar(d), d) && IsSmall(DigitChar(d))
  {
  }

  predicate IsSmall(c: char) {
    !('A' <= c <= 'F')
  }

  /** The j-th digit from the right. */
  lemma HexDigit(n: u32, j: nat)
    requires j < 8
    ensures Hex8(n)[7 - j] == DigitChar(Upper(n, j) % 16)
  {
    hide Pow16, Upper, DigitChar;
    DigitAt(n, j);
  }

  lemma EightLong(n: u32)
    ensures |Hex8(n)| == 8
  {
  }

  lemma {:induction false} PrefixIs(n: u32, k: nat)
    requires k <= 8
    ensures Numeral(Hex8(n)[..k], 16, Upper(n, 8 - k))
  {
    hide Hex8, Denotes, Upper, DigitChar;
    EightLong(n);
    var t := Hex8(n)[..k];
    if k == 0 {
      UpperOfSmall(n);
    } else {
      var j: nat := 8 - k;
      var m, d := Upper(n, j + 1), Upper(n, j) % 16;
      PrefixIs(n, k - 1);
      UpperStep(n, j);
      HexDigit(n, j);
      SmallDigit(d);
      assert t[..k - 1] == Hex8(n)[..k - 1];
      assert Denotes(t[k - 1], d) && Extends(m, 16, d, Upper(n, j));
    }
  }

  /** Eight hexadecimal digits, small letters only. */
  ghost predicate EightDigits(t: string, n: u32) {
    |t| == 8 && Numeral(t, 16, n) && forall i :: 0 <= i < 8 ==> IsSmall(t[i])
  }

  lemma HexIs(n: u32)
    ensures EightDigits(Hex8(n), n)
  {
    hide Numeral, Upper, Pow16, DigitChar, IsSmall;
    PrefixIs(n, 8);
    UpperNone(n);
    var t := Hex8(n);
    assert t[..8] == t;
    forall i | 0 <= i < 8 ensures IsSmall(t[i]) {
      SmallDigit(n / Pow16(7 - i) % 16);
    }
  }

  /** The name of a partition without one shows its size and its offset. */
  lemma AutoNameIs(size: u32, offset: u32) returns (a: string, b: string)
    ensures EightDigits(a, size) && EightDigits(b, offset) && AutoName(size, offset) == "0x" + a + "@0x" + b
  {
    hide EightDigits, Hex8;
    a, b := Hex8(size), Hex8(offset);
    HexIs(size);
    HexIs(offset);
  }
}
