/** Operand fields of PowerPC instructions in bedbug.c: what the assembler packs, the
    disassembler shows and the stepper follows. Host and target are big-endian. */
module Bedbug {
  import opened CString
  import opened BitFields

  /** The operands that a branch has, and all others. */
  datatype Name = O_LI | O_BD | O_BO | O_BI | O_AA | O_LK | O_Other(id: nat)

  /** What an operand is: an address, a register, a special purpose register of a table of names
      and numbers, a time base register, or a number. */
  datatype Kind = Address | Register | Special(sprs: seq<Spr>) | TimeBase | Plain

  datatype Spr = Spr(name: string, number: nat)

  /** An entry of the operand table. */
  datatype Operand = Operand(name: Name, bits: nat, shift: nat, kind: Kind, silent: bool)

  /** An entry of the opcode table. */
  datatype Opcode = Opcode(code: u32, mask: u32, fields: seq<Operand>, name: string, relative: bool)

  predicate Apart(a: Operand, b: Operand) {
    a.shift + a.bits <= b.shift || b.shift + b.bits <= a.shift
  }

  /** Operands do not overlap, and the opcode leaves those free that are assembled. */
  ghost predicate WellFormed(op: Opcode) {
    && (forall i, j :: 0 <= i < j < |op.fields| ==> Apart(op.fields[i], op.fields[j]))
    && (forall i :: 0 <= i < |op.fields| ==>
          var o := op.fields[i];
          0 < o.bits && o.shift + o.bits <= 32 && (!o.silent ==> Field(op.code, o.shift, o.bits) == 0))
  }

  predicate IsUpper(c: char) {
    'A' <= c <= 'Z'
  }

  function Lower(s: string): (r: string)
    ensures |r| == |s|
  {
    seq(|s|, i requires 0 <= i < |s| => if IsUpper(s[i]) then (s[i] as int + 32) as char else s[i])
  }

  // ---- numbers

  /** A 32-bit pattern as a signed long. */
  function Signed(x: int): (r: int)
    ensures -0x8000_0000 <= r < 0x8000_0000
    ensures (r - x) % U32 == 0
  {
    (x + 0x8000_0000) % U32 - 0x8000_0000
  }

  /** read_number */
  function ReadNumber(txt: string): int {
    if txt == "" then 0
    else
      var p := if txt[0] == '-' then 1 else 0;
      var hex := CharAt(txt, p) == '0' && (CharAt(txt, p + 1) == 'x' || CharAt(txt, p + 1) == 'X');
      var v := if hex then Strtoul(txt, p + 2, 16).0 else Strtoul(txt, p, 10).0;
      Signed(if p == 1 then -v else v)
  }

  // ---- branch targets

  /** The field that parse_operand makes of a byte distance. */
  function Displacement(data: int, bits: nat): (r: nat)
    requires 0 < bits
    ensures r < Pow2(bits)
  {
    Low(data / 4, bits - 1) + if data < 0 then Pow2(bits - 1) else 0
  }

  /** The word distance that print_operands and find_next_address read from a field. */
  function Extended(field: nat, bits: nat): int
    requires 0 < bits
  {
    if field >= Pow2(bits - 1) then field - Pow2(bits) else field
  }

  /** The address that a field leads to from a base. */
  function Target(field: nat, bits: nat, base: u32): u32
    requires 0 < bits
  {
    (4 * Extended(field, bits) + base) % U32
  }

  /** Word distances that fit the field are read back, and no others. */
  lemma DisplacementReadBack(data: int, bits: nat)
    requires 0 < bits
    ensures -(Pow2(bits - 1) as int) <= Extended(Displacement(data, bits), bits) < Pow2(bits - 1)
    ensures Extended(Displacement(data, bits), bits) == data / 4
            <==> -(Pow2(bits - 1) as int) <= data / 4 < Pow2(bits - 1)
  {
    hide Low;
    var words, half := data / 4, Pow2(bits - 1);
    if 0 <= words < half {
      LowIsAll(words, bits - 1);
    } else if -(half as int) <= words < 0 {
      LowOfNegative(words, bits - 1);
    }
  }

  lemma Powers()
    ensures Pow2(30) == 0x4000_0000
  {
    assert Pow2(10) == 1024;
    assert Pow2(20) == 0x10_0000;
  }

  lemma {:induction false} HalfWord(bits: nat)
    requires 0 < bits <= 30
    ensures Pow2(bits) == 2 * Pow2(bits - 1) && Pow2(bits) <= 0x4000_0000
    decreases 30 - bits
  {
    if bits < 30 {
      HalfWord(bits + 1);
    } else {
      Powers();
    }
  }

  /** Small distances that lead to the same address are the same. */
  lemma Congruent(words: int, distance: int, target: u32, base: u32)
    requires -0x2000_0000 <= words < 0x2000_0000 && distance == Signed(target - base)
    ensures (4 * words + base) % U32 == target <==> 4 * words == distance
  {
  }

  /** A branch from base to a target is read back as that target exactly if the distance
      is a number of whole words that fits the field. */
  lemma {:induction false} BranchReadBack(target: u32, base: u32, bits: nat)
    requires 0 < bits <= 30
    ensures var distance := Signed(target - base);
            Target(Displacement(distance, bits), bits, base) == target
            <==> distance % 4 == 0 && -2 * (Pow2(bits) as int) <= distance < 2 * Pow2(bits)
  {
    hide Displacement, Extended;
    var distance := Signed(target - base);
    var words := Extended(Displacement(distance, bits), bits);
    DisplacementReadBack(distance, bits);
    HalfWord(bits);
    Congruent(words, distance, target, base);
  }
}
