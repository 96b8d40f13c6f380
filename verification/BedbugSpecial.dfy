/** Special purpose and time base registers of bedbug.c: names, numbers, and the split field that holds them. */
module BedbugSpecial {
  import opened CString
  import opened Bedbug

  const TBL := 268
  const TBU := 269

  /** The two halves of a ten-bit number, swapped. */
  function Swap(i: int): (r: nat)
    ensures r < 1024
  {
    i / 32 % 32 + i % 32 * 32
  }

  lemma SwapTwice(i: nat)
    requires i < 1024
    ensures Swap(Swap(i)) == i
  {
  }

  /** The first register with this name, 0 when there is none. */
  function SprByName(sprs: seq<Spr>, name: string): nat {
    if sprs == [] then 0
    else if sprs[0].name == name then Swap(sprs[0].number)
    else SprByName(sprs[1..], name)
  }

  /** spr_value */
  function SprValue(sprs: seq<Spr>, name: string): nat {
    if name == "" then 0
    else if IsDigit(name[0], 10) then Swap(ReadNumber(name))
    else SprByName(sprs, Lower(name))
  }

  /** The first name of a register, its number when it has none. */
  function NameOf(sprs: seq<Spr>, number: nat): string {
    if sprs == [] then Dec(number)
    else if sprs[0].number == number then sprs[0].name
    else NameOf(sprs[1..], number)
  }

  /** spr_name */
  function SprName(sprs: seq<Spr>, value: nat): string {
    NameOf(sprs, Swap(value))
  }

  /** tbr_value */
  function TbrValue(name: string): nat {
    var low := Lower(name);
    if low == "" then 0
    else if IsDigit(low[0], 10) then
      (if ReadNumber(low) == TBL || ReadNumber(low) == TBU then Swap(ReadNumber(low)) else 0)
    else if low == "tbl" then Swap(TBL)
    else if low == "tbu" then Swap(TBU)
    else 0
  }

  /** tbr_name */
  function TbrName(value: nat): string {
    if Swap(value) == TBL then "TBL" else if Swap(value) == TBU then "TBU" else "???"
  }

  method FindSpr(sprs: seq<Spr>, name: string) returns (spr: nat)
    ensures spr == SprValue(sprs, name)
  {
    hide Swap, Lower, ReadNumber;
    if name == "" {
      return 0;
    }
    if IsDigit(name[0], 10) {
      return Swap(ReadNumber(name));
    }
    var i := 0;
    while i < |sprs|
      invariant 0 <= i <= |sprs| && SprByName(sprs[i..], Lower(name)) == SprByName(sprs, Lower(name))
    {
      if sprs[i].name == Lower(name) {
        return Swap(sprs[i].number);
      }
      assert sprs[i..][1..] == sprs[i + 1..];
      i := i + 1;
    }
    return 0;
  }

  // ---- what is typed, and what is shown

  lemma PositiveDec(n: nat)
    requires 0 < n < U32
    ensures Strtoul(Dec(n), 0, 10).0 == n
  {
    hide Value, Dec;
    var t := Dec(n);
    DecDigits(n);
    DecValue(n);
    assert Has(t, 0, t);
    DecRun(t, 0, n);
    assert t[0..|t|] == t;
  }

  lemma ZeroDec()
    ensures Dec(0) == "0" && Strtoul("0", 0, 10) == (0, 1)
  {
    assert Value("0"[1..1], 10) == 0;
  }

  lemma DecStart(n: nat)
    ensures Dec(n) != "" && IsDigit(Dec(n)[0], 10) && (n > 0 ==> Dec(n)[0] != '0')
  {
    DecDigits(n);
  }

  lemma SmallSigned(n: int)
    requires -0x8000_0000 <= n < 0x8000_0000
    ensures Signed(n) == n
  {
  }

  lemma NumberOfDec(n: nat)
    requires n < 0x8000_0000
    ensures ReadNumber(Dec(n)) == n && IsDigit(Dec(n)[0], 10)
  {
    hide Strtoul, Dec, Signed;
    DecStart(n);
    ZeroDec();
    SmallSigned(n);
    if n > 0 {
      PositiveDec(n);
    }
  }

  /** The name that is shown is that of the first register with the number, and the number itself if there is none. */
  lemma {:induction false} NameIsFirst(sprs: seq<Spr>, number: nat, k: nat)
    requires k <= |sprs| && forall i :: 0 <= i < k ==> sprs[i].number != number
    requires k < |sprs| ==> sprs[k].number == number
    ensures NameOf(sprs, number) == if k < |sprs| then sprs[k].name else Dec(number)
    decreases k
  {
    hide Dec;
    if k > 0 {
      NameIsFirst(sprs[1..], number, k - 1);
    }
  }

  lemma SwapZero()
    ensures Swap(0) == 0
  {
  }

  /** A register is taken by its number, if that is not zero, and shown under its name. */
  lemma NumberIsShown(sprs: seq<Spr>, n: nat)
    requires n < 1024
    ensures SprValue(sprs, Dec(n)) == Swap(n) && SprName(sprs, Swap(n)) == NameOf(sprs, n)
    ensures SprValue(sprs, Dec(n)) == 0 <==> n == 0
  {
    hide ReadNumber, Dec, Swap;
    NumberOfDec(n);
    SwapTwice(n);
    SwapZero();
  }

  ghost predicate HasUpper(s: string) {
    exists i :: 0 <= i < |s| && IsUpper(s[i])
  }

  /** The i-th register is the first one with this name. */
  ghost predicate First(sprs: seq<Spr>, name: string, i: nat) {
    i < |sprs| && sprs[i].name == name && forall j :: 0 <= j < i ==> sprs[j].name != name
  }

  lemma {:induction false} Named(sprs: seq<Spr>, name: string)
    ensures SprByName(sprs, name) != 0 <==> exists i: nat :: First(sprs, name, i) && Swap(sprs[i].number) != 0
  {
    hide Swap;
    if sprs != [] && sprs[0].name != name {
      var rest := sprs[1..];
      Named(rest, name);
      if SprByName(rest, name) != 0 {
        var i: nat :| First(rest, name, i) && Swap(rest[i].number) != 0;
        assert First(sprs, name, i + 1);
      }
      if i: nat :| First(sprs, name, i) && Swap(sprs[i].number) != 0 {
        assert sprs[i].name == name && i > 0 && rest[i - 1] == sprs[i];
        assert forall j :: 0 <= j < i - 1 ==> rest[j] == sprs[j + 1];
        assert First(rest, name, i - 1);
      }
    } else if sprs != [] {
      assert First(sprs, name, 0);
    }
  }

  /** A name is taken exactly if its lower-case form stands in the table, for a number that is not zero in
      ten bits; so a table with capital letters in its names has no name that is taken. */
  lemma {:induction false} NameIsTaken(sprs: seq<Spr>, name: string)
    requires name != "" && !IsDigit(name[0], 10)
    ensures SprValue(sprs, name) != 0 <==> exists i: nat :: First(sprs, Lower(name), i) && Swap(sprs[i].number) != 0
    ensures (forall i :: 0 <= i < |sprs| ==> HasUpper(sprs[i].name)) ==> SprValue(sprs, name) == 0
  {
    hide Swap;
    assert !HasUpper(Lower(name));
    Named(sprs, Lower(name));
    if SprByName(sprs, Lower(name)) != 0 {
      var i: nat :| First(sprs, Lower(name), i) && Swap(sprs[i].number) != 0;
      assert !HasUpper(sprs[i].name);
    }
  }

  /** Time base registers are shown under the names by which they are taken. */
  lemma TbrIsTaken()
    ensures TbrValue(TbrName(Swap(TBL))) == Swap(TBL) != 0 && TbrValue(TbrName(Swap(TBU))) == Swap(TBU) != 0
  {
    hide ReadNumber;
    assert Lower("TBL") == "tbl" && Lower("TBU") == "tbu";
  }
}
