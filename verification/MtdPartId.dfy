/** Partition identifiers of cmd_jffs2.c: "nand0,1" names partition 1 of the first NAND device. */
module MtdPartId {
  import opened CString
  import opened MtdGrammar
  import opened Numerals
  import opened Options

  datatype PartId = PartId(nor: bool, num: nat, part: nat)

  function TypeText(nor: bool): string {
    if nor then "nor" else "nand"
  }

  /** What current_save writes. */
  function IdText(id: PartId): string {
    TypeText(id.nor) + (Dec(id.num) + ("," + Dec(id.part)))
  }

  /** id_parse: type and number of a device, and the position behind them. */
  function ParseId(s: string): (r: Option<(bool, u8, nat)>)
    ensures r.Some? ==> r.value.2 <= |s|
  {
    var nor := !Has(s, 0, "nand");
    var p := if nor then 3 else 4;
    if (nor && !Has(s, 0, "nor")) || !IsDigit(CharAt(s, p), 10) then None
    else
      var (n, q) := Strtoul(s, p, 0);
      Some((nor, n % 0x100, q))
  }

  /** The text part of find_dev_and_part. */
  function ParsePartId(s: string): (r: Option<PartId>)
    ensures r.Some? ==> r.value.num < 0x100 && r.value.part < 0x100
  {
    match ParseId(s)
    case None => None
    case Some((nor, num, p)) =>
      if CharAt(s, p) != ',' || CharAt(s, p + 1) == '\0' then None
      else
        var (n, q) := Strtoul(s, p + 1, 0);
        if CharAt(s, q) != '\0' then None else Some(PartId(nor, num, n % 0x100))
  }

  lemma OtherType(s: string, nor: bool)
    requires Has(s, 0, TypeText(nor))
    ensures nor == !Has(s, 0, "nand")
  {
    HasAt(s, 0, TypeText(nor), 1);
    if Has(s, 0, "nand") {
      HasAt(s, 0, "nand", 1);
    }
  }

  lemma FirstDigit(s: string, p: nat, n: nat)
    requires Has(s, p, Dec(n))
    ensures IsDigit(CharAt(s, p), 10) && CharAt(s, p) != '\0'
  {
    DecDigits(n);
    HasAt(s, p, Dec(n), 0);
  }

  lemma IdIsRead(s: string, nor: bool, num: u8)
    requires Has(s, 0, TypeText(nor)) && Has(s, |TypeText(nor)|, Dec(num))
    requires CharAt(s, |TypeText(nor)| + |Dec(num)|) == ','
    ensures ParseId(s) == Some((nor, num, |TypeText(nor)| + |Dec(num)|))
  {
    hide Strtoul, Dec;
    StrtoulOfDec(s, |TypeText(nor)|, num);
    FirstDigit(s, |TypeText(nor)|, num);
    OtherType(s, nor);
  }

  lemma Pieces(s: string, a: string, b: string, c: string)
    requires s == a + (b + ("," + c))
    ensures Has(s, 0, a) && Has(s, |a|, b) && CharAt(s, |a| + |b|) == ',' && Has(s, |a| + |b| + 1, c)
    ensures |s| == |a| + |b| + 1 + |c|
  {
    assert s == a + b + "," + c;
    assert s[..|a|] == a;
  }

  /** What current_save writes, find_dev_and_part reads back. */
  lemma {:induction false} PartIdRoundTrip(id: PartId)
    requires id.num < 0x100 && id.part < 0x100
    ensures ParsePartId(IdText(id)) == Some(id)
  {
    hide Strtoul, Dec, ParseId, TypeText, Has;
    var s, p := IdText(id), |TypeText(id.nor)| + |Dec(id.num)|;
    Pieces(s, TypeText(id.nor), Dec(id.num), Dec(id.part));
    IdIsRead(s, id.nor, id.num);
    StrtoulOfDec(s, p + 1, id.part);
    FirstDigit(s, p + 1, id.part);
  }

  lemma {:induction false} DecLength(n: nat)
    requires n < 1000
    ensures |Dec(n)| <= 3 && (n < 100 ==> |Dec(n)| <= 2) && (n < 10 ==> |Dec(n)| == 1)
  {
    hide DigitChar;
    if n >= 10 {
      DecLength(n / 10);
    }
  }

  /** The text fits the 16 bytes that current_save has for it. */
  lemma IdTextFits(id: PartId)
    requires id.num < 0x100 && id.part < 0x100
    ensures |IdText(id)| <= 11
  {
    hide Dec;
    DecLength(id.num);
    DecLength(id.part);
  }

  // ---- identifiers as they are typed

  /** The type, a number in C notation, a comma, and another such number. */
  ghost predicate Identifies(s: string, id: PartId, num: string, part: string, n: nat, m: nat) {
    && s == TypeText(id.nor) + (num + ("," + part)) && CNumber(num, n) && CNumber(part, m)
    && id.num == n % 0x100 && id.part == m % 0x100
  }

  lemma LowByte(n: nat)
    ensures n % 0x1_0000_0000 % 0x100 == n % 0x100
  {
  }

  lemma NoDigits()
    ensures !IsDigitOf(',', 16) && !IsDigitOf('\0', 16)
  {
    DigitHas(',', 16);
    DigitHas('\0', 16);
  }

  lemma NumberStarts(t: string, n: nat)
    requires CNumber(t, n)
    ensures t != "" && IsDigit(t[0], 10)
  {
    hide Numeral, IsDigitOf;
    if t[0] != '0' && Numeral(t, 10, n) {
      NumeralDigits(t, 10, n);
      DigitHas(t[0], 10);
    } else if |t| > 2 && t[..2] == "0x" {
      assert t[0] == t[..2][0];
    }
  }

  lemma TypeLength(nor: bool)
    ensures |TypeText(nor)| == if nor then 3 else 4
    ensures TypeText(nor) == if nor then "nor" else "nand"
  {
  }

  lemma NumberNotNul(c: char)
    requires IsDigit(c, 10)
    ensures c != '\0'
  {
  }

  /** Every such text is read, with both numbers modulo 256. */
  lemma {:induction false} IdentifierIsRead(s: string, id: PartId, num: string, part: string, n: nat, m: nat)
    requires Identifies(s, id, num, part, n, m)
    ensures ParsePartId(s) == Some(id)
  {
    hide Strtoul, CNumber, IsDigitOf, TypeText, Has, IsDigit;
    var a := |TypeText(id.nor)|;
    var p := a + |num|;
    Pieces(s, TypeText(id.nor), num, part);
    OtherType(s, id.nor);
    TypeLength(id.nor);
    NoDigits();
    NumberStarts(num, n);
    NumberStarts(part, m);
    HasAt(s, a, num, 0);
    HasAt(s, p + 1, part, 0);
    NumberNotNul(part[0]);
    CNumberRead(s, a, num, n);
    CNumberRead(s, p + 1, part, m);
    LowByte(n);
    LowByte(m);
  }

  lemma DigitGoesOn(s: string, p: nat)
    requires p <= |s| && IsDigit(CharAt(s, p), 10)
    ensures Strtoul(s, p, 0).1 > p
  {
  }

  /** No other text is. */
  lemma ReadIsIdentifier(s: string) returns (num: string, part: string, n: nat, m: nat)
    requires '\0' !in s && ParsePartId(s).Some?
    ensures Identifies(s, ParsePartId(s).value, num, part, n, m)
  {
    hide Strtoul, CNumber, IsDigitOf, IsDigit;
    var (nor, _, p) := ParseId(s).value;
    var a := if nor then 3 else 4;
    var q := Strtoul(s, p + 1, 0).1;
    DigitGoesOn(s, a);
    assert q == |s|;
    n := ReadIsCNumber(s, a);
    m := ReadIsCNumber(s, p + 1);
    num, part := s[a..p], s[p + 1..q];
    LowByte(n);
    LowByte(m);
    TypeLength(nor);
    assert s == s[..a] + (s[a..p] + ("," + s[p + 1..]));
  }
}
