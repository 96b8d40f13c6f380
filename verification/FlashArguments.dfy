/** The two arguments of the flash commands as text: which texts are taken, and which range they stand for. */
module FlashArguments {
  import opened CString
  import opened Numerals
  import opened FlashRanges
  import opened FlashSafety
  import opened FlashExact
  import opened FlashAddress

  /** Hexadecimal digits for n, with "0x" in front or without it. */
  ghost predicate Hexadecimal(t: string, n: nat) {
    || (t != "" && Numeral(t, 16, n))
    || (|t| > 2 && t[..2] == "0x" && Numeral(t[2..], 16, n))
  }

  lemma NoDigitAtEnd(s: string)
    ensures !IsDigitOf(CharAt(s, |s|), 16)
  {
    DigitHas('\0', 16);
  }

  /** A hexadecimal number up to the end of the text is taken. */
  lemma HexadecimalIsTaken(s: string, p: nat, n: nat)
    requires p <= |s| && Hexadecimal(s[p..], n)
    ensures IsNumber(s, p) && Strtoul(s, p, 16).0 == n % 0x1_0000_0000
  {
    hide Numeral, Strtoul, IsDigitOf;
    var t := s[p..];
    NoDigitAtEnd(s);
    if t != "" && Numeral(t, 16, n) {
      DigitsRead(s, p, 16, t, n);
    } else {
      assert t == "0x" + t[2..];
      HexadecimalRead(s, p, 16, t[2..], n);
    }
  }

  lemma RunIsNumeral(s: string, p: nat) returns (n: nat)
    requires p <= |s| && forall i :: p <= i < |s| ==> IsDigit(s[i], 16)
    ensures Numeral(s[p..], 16, n)
  {
    hide Numeral, IsDigit, IsDigitOf;
    forall i | 0 <= i < |s| - p ensures IsDigitOf(s[p..][i], 16) {
      DigitHas(s[p + i], 16);
    }
    n := NumeralOf(s[p..], 16);
  }

  /** Nothing else is. */
  lemma TakenIsHexadecimal(s: string, p: nat) returns (n: nat)
    requires p <= |s| && IsNumber(s, p)
    ensures Hexadecimal(s[p..], n)
  {
    hide Numeral, Value;
    var first := Radix(s, p, 16).1;
    if first == p + 2 {
      n := RunIsNumeral(s, first);
      assert s[p..][2..] == s[first..];
    } else {
      n := RunIsNumeral(s, p);
    }
  }

  lemma NumberIsHexadecimal(s: string, p: nat)
    requires p <= |s|
    ensures IsNumber(s, p) <==> exists n: nat :: Hexadecimal(s[p..], n)
  {
    hide Hexadecimal, IsNumber;
    if IsNumber(s, p) {
      var n := TakenIsHexadecimal(s, p);
    }
    if n: nat :| Hexadecimal(s[p..], n) {
      HexadecimalIsTaken(s, p, n);
    }
  }

  /** "start end" is taken exactly if both are hexadecimal numbers; it stands for the addresses from the one
      to the other, whatever the banks are. */
  lemma PlainRange(banks: seq<Bank>, arg1: string, arg2: string, a: nat, b: nat)
    requires CharAt(arg2, 0) != '+'
    ensures AddrRange(banks, arg1, arg2).Range?
            <==> (exists n: nat :: Hexadecimal(arg1, n)) && (exists n: nat :: Hexadecimal(arg2, n))
    ensures Hexadecimal(arg1, a) && Hexadecimal(arg2, b) ==>
              AddrRange(banks, arg1, arg2) == Range(a % 0x1_0000_0000, b % 0x1_0000_0000)
  {
    hide Hexadecimal, IsNumber, Strtoul;
    assert arg1[0..] == arg1 && arg2[0..] == arg2;
    NumberIsHexadecimal(arg1, 0);
    NumberIsHexadecimal(arg2, 0);
    if Hexadecimal(arg1, a) && Hexadecimal(arg2, b) {
      HexadecimalIsTaken(arg1, 0, a);
      HexadecimalIsTaken(arg2, 0, b);
    }
  }

  /** The text forms that LengthIsPlanned is about. */
  lemma LengthForm(arg1: string, arg2: string, first: nat, len: nat)
    requires Hexadecimal(arg1, first) && CharAt(arg2, 0) == '+' && Hexadecimal(arg2[1..], len)
    ensures StartAndLength(arg1, arg2, first % 0x1_0000_0000, len % 0x1_0000_0000)
  {
    hide Hexadecimal, IsNumber, Strtoul;
    assert arg1[0..] == arg1;
    HexadecimalIsTaken(arg1, 0, first);
    HexadecimalIsTaken(arg2, 1, len);
  }

  /** On banks without gaps, "start end" plans exactly if the one address is the start of a sector and the other
      the end of a sector; the sectors that are planned make up the range. */
  lemma EndIsPlanned(banks: seq<Bank>, arg1: string, arg2: string, first: u32, last: u32, a: int)
    requires Contiguous(banks) && first <= last <= Top(banks)
    requires CharAt(arg2, 0) != '+' && Hexadecimal(arg1, first) && Hexadecimal(arg2, last)
    ensures var r := AddrRange(banks, arg1, arg2);
            && r.Range? && (Plans(banks, r) <==> StartsAny(banks, first) && EndsFrom(banks, 0, last))
            && (Plans(banks, r) ==>
                  (Covers(banks, 0, PlanFrom(banks, 0, r.first, r.last).sels, a) <==> first <= a <= last))
  {
    hide Hexadecimal, AddrRange, Covers, StartsAny, EndsFrom, Top, PlanFrom;
    PlainRange(banks, arg1, arg2, first, last);
    PlanIsExact(banks, first, last, a);
  }
}
