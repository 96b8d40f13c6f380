/** Operands as they are typed: numbers in all their forms, registers with and without a prefix. */
module BedbugOperands {
  import opened CString
  import opened Numerals
  import opened BitFields
  import opened Bedbug
  import opened BedbugSpecial
  import opened BedbugAssembler

  /** Digits for n, decimal ones, or hexadecimal ones behind "0x" or "0X". */
  ghost predicate TypedAs(t: string, n: nat) {
    || (t != "" && Numeral(t, 10, n))
    || (|t| > 2 && t[..2] in {"0x", "0X"} && Numeral(t[2..], 16, n))
  }

  lemma NoDigitAtEnd(s: string, base: nat)
    ensures !IsDigitOf(CharAt(s, |s|), base)
  {
    DigitHas('\0', base);
  }

  lemma SignedModulo(n: int)
    ensures Signed(n % 0x1_0000_0000) == Signed(n) && Signed(-((n % 0x1_0000_0000) as int)) == Signed(-(n as int))
  {
    var q, r := n / U32, n % U32;
    ModPlus(q, r + 0x8000_0000);
    ModPlus(-q, -r + 0x8000_0000);
  }

  lemma DigitIsPlain(c: char, base: nat)
    requires IsDigitOf(c, base)
    ensures c !in {'-', 'x', 'X', 'r', 'R', '%'}
  {
    DigitHas(c, base);
  }

  /** What stands behind a minus sign, or at the start. */
  function AfterSign(sign: bool, t: string): string {
    if sign then "-" + t else t
  }

  function WithSign(sign: bool, n: nat): int {
    if sign then -(n as int) else n
  }

  lemma DecimalTyped(sign: bool, t: string, n: nat)
    requires t != "" && Numeral(t, 10, n)
    ensures ReadNumber(AfterSign(sign, t)) == Signed(WithSign(sign, n))
  {
    hide Numeral, Strtoul, Signed, IsDigitOf;
    var s, p := AfterSign(sign, t), if sign then 1 else 0;
    assert Has(s, p, t);
    NumeralDigits(t, 10, n);
    DigitIsPlain(t[0], 10);
    if |t| > 1 {
      DigitIsPlain(t[1], 10);
    }
    NoDigitAtEnd(s, 10);
    DigitsRead(s, p, 10, t, n);
    SignedModulo(n);
  }

  lemma HexadecimalTyped(sign: bool, t: string, n: nat)
    requires |t| > 2 && t[..2] in {"0x", "0X"} && Numeral(t[2..], 16, n)
    ensures ReadNumber(AfterSign(sign, t)) == Signed(WithSign(sign, n))
  {
    hide Numeral, Strtoul, Signed, IsDigitOf;
    var s, p := AfterSign(sign, t), if sign then 1 else 0;
    var u := t[2..];
    assert Has(s, p + 2, u);
    assert t[0] == t[..2][0] && t[1] == t[..2][1];
    NumeralDigits(u, 16, n);
    if |u| > 1 {
      DigitIsPlain(u[1], 16);
    }
    NoDigitAtEnd(s, 16);
    DigitsRead(s, p + 2, 16, u, n);
    SignedModulo(n);
  }

  /** A typed number is read as a signed long, and one behind a minus sign as its negative. */
  lemma NumberIsRead(sign: bool, t: string, n: nat)
    requires TypedAs(t, n)
    ensures ReadNumber(AfterSign(sign, t)) == Signed(WithSign(sign, n))
  {
    hide Numeral, ReadNumber, Signed, AfterSign;
    if t != "" && Numeral(t, 10, n) {
      DecimalTyped(sign, t, n);
    } else {
      HexadecimalTyped(sign, t, n);
    }
  }

  lemma TypedStart(t: string, n: nat)
    requires TypedAs(t, n)
    ensures t != "" && t[0] !in {'-', 'r', 'R', '%'}
  {
    hide Numeral, IsDigitOf;
    if t != "" && Numeral(t, 10, n) {
      NumeralDigits(t, 10, n);
      DigitIsPlain(t[0], 10);
    } else {
      assert t[0] == t[..2][0];
    }
  }

  lemma FiveOnes()
    ensures Pow2(5) == 32
  {
  }

  /** A register may be written as "5", "r5", "R5", "%r5" or "%R5"; its number must not be above 31. */
  lemma RegisterIsTaken(memaddr: u32, op: Opcode, o: Operand, prefix: string, t: string, n: nat)
    requires o.kind == Register && o.bits == 5 && prefix in {"", "r", "R", "%r", "%R"}
    requires TypedAs(t, n) && n < 0x8000_0000
    ensures OperandValue(memaddr, op, o, prefix + t) == if n > 31 then BadValue(E_ASM_BAD_REGISTER) else Value(n)
  {
    hide TypedAs, ReadNumber, Signed, Low;
    TypedStart(t, n);
    NumberIsRead(false, t, n);
    SmallSigned(n);
    assert RegisterDigits(prefix + t) == t by {
      assert (prefix + t)[|prefix|..] == t;
    }
    FiveOnes();
    if n <= 31 {
      LowIsAll(n, 5);
    }
  }

  /** A plain number that fits the field is taken as it is, and a negative one as its complement. */
  lemma PlainIsTaken(memaddr: u32, op: Opcode, o: Operand, sign: bool, t: string, n: nat)
    requires o.kind == Plain && 0 < o.bits && TypedAs(t, n) && n < 0x8000_0000
    requires if sign then 0 < n <= Pow2(o.bits) else n < Pow2(o.bits)
    ensures OperandValue(memaddr, op, o, AfterSign(sign, t)) == Value(if sign then Pow2(o.bits) - n else n)
  {
    hide TypedAs, ReadNumber, Signed, Low, Pow2;
    NumberIsRead(sign, t, n);
    SmallSigned(WithSign(sign, n));
    if sign {
      LowOfNegative(WithSign(sign, n), o.bits);
    } else {
      LowIsAll(n, o.bits);
    }
  }

  lemma TenOnes()
    ensures Pow2(10) == 1024
  {
  }

  /** A special purpose register by its number, which must not be zero, or by its name: what is no number and no
      name of the table is refused. */
  lemma SpecialIsTaken(memaddr: u32, op: Opcode, o: Operand, n: nat, name: string)
    requires o.kind.Special? && o.bits == 10 && n < 1024
    ensures OperandValue(memaddr, op, o, Dec(n)) == if n == 0 then BadValue(4) else Value(Swap(n))
    ensures name != "" && !IsDigit(name[0], 10) && (forall i :: 0 <= i < |o.kind.sprs| ==>
                                                     o.kind.sprs[i].name != Lower(name)) ==>
              OperandValue(memaddr, op, o, name) == BadValue(4)
  {
    hide Low, Dec, Swap, Lower, SprByName;
    TenOnes();
    NumberIsShown(o.kind.sprs, n);
    LowIsAll(Swap(n), 10);
    if name != "" && !IsDigit(name[0], 10) {
      Named(o.kind.sprs, Lower(name));
    }
  }

  lemma DecIsLower(n: nat)
    ensures Lower(Dec(n)) == Dec(n)
  {
    DecDigits(n);
  }

  /** A time base register by its number or its name in letters of any case; everything else is refused. */
  lemma TimeBaseIsTaken(memaddr: u32, op: Opcode, o: Operand, n: nat, name: string)
    requires o.kind == TimeBase && o.bits == 10 && n < 0x8000_0000
    ensures OperandValue(memaddr, op, o, Dec(n)) == if n == 268 || n == 269 then Value(Swap(n)) else BadValue(5)
    ensures name != "" && !IsDigit(name[0], 10) ==>
              OperandValue(memaddr, op, o, name)
              == if Lower(name) == "tbl" then Value(Swap(268)) else if Lower(name) == "tbu" then Value(Swap(269))
                 else BadValue(5)
  {
    hide Low, Dec, ReadNumber;
    TenOnes();
    NumberOfDec(n);
    DecIsLower(n);
    LowIsAll(Swap(268), 10);
    LowIsAll(Swap(269), 10);
  }
}
