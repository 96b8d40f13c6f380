/** Partition definitions as they are typed: sizes with units, offsets, names and the ro flag in every form. */
module MtdDefinitions {
  import opened CString
  import opened Numerals
  import opened Options
  import opened MtdGrammar

  /** A number in C notation with its unit. */
  datatype Amount = Amount(digits: string, n: nat, unit: string) {
    ghost predicate Legal() {
      CNumber(digits, n) && unit in {"", "k", "K", "m", "M", "g", "G"}
    }

    function Text(): string {
      digits + unit
    }

    function Bytes(): u32 {
      n * (if unit == "" then 1 else if unit in {"k", "K"} then 0x400 else if unit in {"m", "M"} then 0x10_0000
           else 0x4000_0000) % 0x1_0000_0000
    }
  }

  /** A definition; without a size it takes the rest of the device. */
  datatype Definition = Definition(size: Option<Amount>, offset: Option<Amount>, name: Option<string>, ro: bool) {
    ghost predicate Legal() {
      && (size.Some? ==> size.value.Legal()) && (offset.Some? ==> offset.value.Legal())
      && (name.Some? ==> name.value != "" && ')' !in name.value)
    }

    function SizeText(): string {
      if size.Some? then size.value.Text() else "-"
    }

    function OffsetText(): string {
      if offset.Some? then "@" + offset.value.Text() else ""
    }

    function NameText(): string {
      if name.Some? then "(" + name.value + ")" else ""
    }

    function RoText(): string {
      if ro then "ro" else ""
    }

    function Text(): string {
      SizeText() + (OffsetText() + (NameText() + RoText()))
    }

    function Size(): u32 {
      if size.Some? then size.value.Bytes() else 0xFFFF_FFFF
    }

    function Offset(): u32 {
      if offset.Some? then offset.value.Bytes() else 0xFFFF_FFFF
    }

    /** What is read. */
    function Result(): Part {
      Part(Size(), Offset(), if name.Some? then name.value else AutoName(Size(), Offset()), name.None?, ro)
    }
  }

  /** What can follow a number: nothing that goes on with it. */
  predicate Ends(c: char) {
    c in {'@', '(', 'r', ',', ';', '\0'}
  }

  lemma EndIsNoDigit(c: char)
    requires c in {'@', '(', 'r', ',', ';', '\0', 'k', 'K', 'm', 'M', 'g', 'G'}
    ensures !IsDigitOf(c, 16) && c != 'x'
  {
    DigitHas(c, 16);
  }

  lemma Shifted(n: nat)
    ensures Shift10(n % U32) == n * 0x400 % 0x1_0000_0000
  {
    ModStep(n, 0x400, 0);
  }

  lemma UnitScales(a: Amount, c: char)
    requires a.unit in {"", "k", "K", "m", "M", "g", "G"}
    requires if a.unit == "" then Ends(c) else a.unit == [c]
    ensures Scaled(a.n % U32, c) == a.Bytes() && (IsSuffix(c) <==> a.unit != "")
  {
    hide Shift10;
    Shifted(a.n);
    Shifted(a.n * 0x400);
    Shifted(a.n * 0x10_0000);
  }

  lemma FollowerIs(a: Amount, c: char)
    requires a.unit in {"", "k", "K", "m", "M", "g", "G"}
    requires if a.unit == "" then Ends(c) else a.unit[0] == c
    ensures !IsDigitOf(c, 16) && c != 'x' && (a.unit != "" ==> a.unit == [c])
  {
    EndIsNoDigit(c);
  }

  lemma AmountIsRead(s: string, p: nat, a: Amount)
    requires a.Legal() && Has(s, p, a.Text()) && Ends(CharAt(s, p + |a.Text()|))
    ensures MemsizeParse(s, p) == (a.Bytes(), p + |a.Text()|)
  {
    hide Strtoul, CNumber, IsDigitOf, Scaled, IsSuffix, Amount.Bytes, Ends;
    HasSplit(s, p, a.digits, a.unit);
    var q := p + |a.digits|;
    var c := CharAt(s, q);
    if a.unit != "" {
      HasAt(s, q, a.unit, 0);
    }
    FollowerIs(a, c);
    CNumberRead(s, p, a.digits, a.n);
    UnitScales(a, c);
  }

  // ---- the parts of a definition

  lemma AmountStarts(a: Amount)
    requires a.Legal()
    ensures a.Text() != "" && a.Text()[0] != '-'
  {
    hide Numeral, IsDigitOf;
    if a.digits[0] != '0' && Numeral(a.digits, 10, a.n) {
      NumeralDigits(a.digits, 10, a.n);
      DigitHas(a.digits[0], 10);
    } else if |a.digits| > 2 && a.digits[..2] == "0x" {
      assert a.digits[0] == a.digits[..2][0];
    }
  }

  lemma SizeIsRead(s: string, p: nat, d: Definition)
    requires d.Legal() && Has(s, p, d.SizeText()) && Ends(CharAt(s, p + |d.SizeText()|))
    ensures ParseSize(s, p) == if d.size.Some? && d.Size() < 4096 then Bad else Good(d.Size(), p + |d.SizeText()|)
  {
    hide MemsizeParse, CNumber, Ends, Amount.Bytes, Amount.Text;
    HasAt(s, p, d.SizeText(), 0) by {
      if d.size.Some? {
        AmountStarts(d.size.value);
      }
    }
    if d.size.Some? {
      AmountStarts(d.size.value);
      AmountIsRead(s, p, d.size.value);
    }
  }

  lemma OffsetIsRead(s: string, p: nat, d: Definition)
    requires d.Legal() && Has(s, p, d.OffsetText()) && Ends(CharAt(s, p + |d.OffsetText()|))
    requires CharAt(s, p + |d.OffsetText()|) != '@'
    ensures ParseOffset(s, p) == (d.Offset(), p + |d.OffsetText()|)
  {
    hide MemsizeParse, CNumber, Ends, Amount.Bytes, Amount.Text;
    if d.offset.Some? {
      HasSplit(s, p, "@", d.offset.value.Text());
      HasAt(s, p, "@", 0);
      AmountIsRead(s, p + 1, d.offset.value);
    }
  }

  lemma NameIsRead(s: string, p: nat, d: Definition)
    requires d.Legal() && Has(s, p, d.NameText()) && (d.name.None? ==> CharAt(s, p) != '(')
    ensures ParseName(s, p) == Good(if d.name.Some? then d.name.value else "", p + |d.NameText()|)
  {
    if d.name.Some? {
      var n := d.name.value;
      assert d.NameText() == "(" + (n + ")");
      HasSplit(s, p, "(", n + ")");
      HasSplit(s, p + 1, n, ")");
      HasAt(s, p, "(", 0);
      HasAt(s, p + 1 + |n|, ")", 0);
      FindIs(s, p + 1, p + 1 + |n|, ')');
    }
  }

  lemma RoIsRead(s: string, p: nat, d: Definition)
    requires Has(s, p, d.RoText()) && (!d.ro ==> CharAt(s, p) != 'r')
    ensures ParseRo(s, p) == (d.ro, p + |d.RoText()|)
  {
    if Has(s, p, "ro") {
      HasAt(s, p, "ro", 0);
    }
  }

  lemma Pieces(s: string, p: nat, d: Definition)
    requires Has(s, p, d.Text())
    ensures var p1 := p + |d.SizeText()|;
            var p2 := p1 + |d.OffsetText()|;
            var p3 := p2 + |d.NameText()|;
            && Has(s, p, d.SizeText()) && Has(s, p1, d.OffsetText()) && Has(s, p2, d.NameText())
            && Has(s, p3, d.RoText()) && p + |d.Text()| == p3 + |d.RoText()|
  {
    hide Has, Definition.SizeText, Definition.OffsetText, Definition.NameText, Definition.RoText;
    HasSplit(s, p, d.SizeText(), d.OffsetText() + (d.NameText() + d.RoText()));
    HasSplit(s, p + |d.SizeText()|, d.OffsetText(), d.NameText() + d.RoText());
    HasSplit(s, p + |d.SizeText()| + |d.OffsetText()|, d.NameText(), d.RoText());
  }

  lemma FirstChars(d: Definition)
    ensures if d.offset.Some? then d.OffsetText() != "" && d.OffsetText()[0] == '@' else d.OffsetText() == ""
    ensures if d.name.Some? then d.NameText() != "" && d.NameText()[0] == '(' else d.NameText() == ""
    ensures if d.ro then d.RoText() != "" && d.RoText()[0] == 'r' else d.RoText() == ""
  {
    hide Amount.Text;
  }

  lemma EndsAre()
    ensures Ends('@') && Ends('(') && Ends('r') && Ends(',') && Ends(';') && Ends('\0')
  {
  }

  /** The first character of the flag, the name and the offset, or what follows them. */
  lemma NextChars(s: string, p: nat, d: Definition)
    requires Has(s, p, d.Text()) && CharAt(s, p + |d.Text()|) in {',', ';', '\0'}
    ensures var p1 := p + |d.SizeText()|;
            var p2 := p1 + |d.OffsetText()|;
            var p3 := p2 + |d.NameText()|;
            && Ends(CharAt(s, p1)) && Ends(CharAt(s, p2)) && CharAt(s, p2) != '@'
            && (d.name.None? ==> CharAt(s, p2) != '(') && (!d.ro ==> CharAt(s, p3) in {',', ';', '\0'})
            && (d.ro ==> CharAt(s, p3) == 'r')
  {
    hide Has, Ends, Definition.Text, Definition.SizeText, Definition.OffsetText, Definition.NameText,
         Definition.RoText;
    Pieces(s, p, d);
    FirstChars(d);
    EndsAre();
    var p1 := p + |d.SizeText()|;
    var p2 := p1 + |d.OffsetText()|;
    if d.ro {
      HasAt(s, p2 + |d.NameText()|, d.RoText(), 0);
    }
    if d.name.Some? {
      HasAt(s, p2, d.NameText(), 0);
    }
    if d.offset.Some? {
      HasAt(s, p1, d.OffsetText(), 0);
    }
  }

  lemma NamesAreNotEmpty(d: Definition)
    requires d.Legal()
    ensures d.name.Some? ==> d.name.value != ""
  {
  }

  /** Every definition is read with its size and offset in bytes modulo 2^32, its name, or one made of both, and
      its flag; it is refused if the size is below 4096, or stands for the rest in front of another definition. */
  lemma {:induction false} DefinitionIsRead(s: string, p: nat, d: Definition)
    requires d.Legal() && Has(s, p, d.Text())
    requires p + |d.Text()| == |s| || s[p + |d.Text()|] in {',', ';'}
    ensures var next := p + |d.Text()|;
            ParsePart(s, p)
            == if d.Size() < 4096 || (d.Size() == 0xFFFF_FFFF && CharAt(s, next) == ',') then Bad
               else Good(d.Result(), if CharAt(s, next) == ',' then next + 1 else next)
  {
    hide ParseSize, ParseOffset, ParseName, ParseRo, Has, Ends, AutoName, Definition.SizeText, Definition.OffsetText,
         Definition.NameText, Definition.RoText, Definition.Text, Amount.Bytes, Definition.Legal;
    Pieces(s, p, d);
    NextChars(s, p, d);
    var p1 := p + |d.SizeText()|;
    var p2 := p1 + |d.OffsetText()|;
    var p3 := p2 + |d.NameText()|;
    SizeIsRead(s, p, d);
    OffsetIsRead(s, p1, d);
    NameIsRead(s, p2, d);
    RoIsRead(s, p3, d);
    NamesAreNotEmpty(d);
  }
}
