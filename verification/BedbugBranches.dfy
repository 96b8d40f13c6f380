/** The direct branches of bedbug/tables.h, from the typed target to the address that is
    shown and followed. */
module BedbugBranches {
  import opened CString
  import opened BitFields
  import opened Bedbug
  import opened BedbugAssembler
  import opened BedbugLookup
  import opened BedbugTools
  import opened BedbugStepper

  const BRANCH_MASK := 0xFC00_0003

  const LI := Operand(O_LI, 24, 2, Address, false)
  const BD := Operand(O_BD, 14, 2, Address, false)
  const BI := Operand(O_BI, 5, 16, Plain, false)
  const BO := Operand(O_BO, 5, 21, Plain, false)
  const AA := Operand(O_AA, 1, 1, Plain, true)
  const LK := Operand(O_LK, 1, 0, Plain, true)

  /** b, bl, ba, bla and bc, bcl, bca, bcla. */
  function Branch(conditional: bool, aa: bool, lk: bool): Opcode {
    Opcode((if conditional then BC else B) + (if aa then 2 else 0) + (if lk then 1 else 0),
           BRANCH_MASK,
           if conditional then [BO, BI, BD, AA, LK] else [LI, AA, LK],
           (if conditional then "bc" else "b") + (if lk then "l" else "") + (if aa then "a" else ""),
           !aa)
  }

  /** Number of the operand with the distance. */
  function AddressIndex(conditional: bool): nat {
    if conditional then 2 else 0
  }

  lemma HighFields(code: u32)
    requires BC <= code < BC + 4
    ensures Field(code, 16, 5) == 0 && Field(code, 21, 5) == 0
  {
    hide Low, Shr;
    ShrFew(0x4000);
    ShrByte(code, 8);
    ShrByte(code / 0x100, 0);
    ShrByte(code, 13);
    ShrByte(code / 0x100, 5);
    LowOfBytes(0x40, 5);
    LowOfBytes(2, 5);
    assert code / 0x100 / 0x100 == 0x4000;
  }

  lemma LowBit(w: nat)
    ensures Low(w, 1) == w % 2
  {
  }

  lemma FreeFields(code: u32)
    requires BC <= code < BC + 4 || B <= code < B + 4
    ensures code >= B ==> Field(code, 2, 24) == 0
    ensures code < B ==> Field(code, 2, 14) == 0 && Field(code, 16, 5) == 0 && Field(code, 21, 5) == 0
    ensures Field(code, 1, 1) == code / 2 % 2 && Field(code, 0, 1) == code % 2
  {
    hide Low, Shr;
    ShrFew(code);
    if code >= B {
      assert code / 4 == 0x100_0000 * 0x12;
      LowOfBytes(0x12, 24);
    } else {
      assert code / 4 == 0x1_0000 * 0x1000;
      LowOfBytes(0x1000, 14);
      HighFields(code);
    }
    LowBit(code / 2);
    LowBit(code);
  }

  /** The branches of the table are as the theorems about assembling and following need them. */
  lemma {:induction false} BranchTable(conditional: bool, aa: bool, lk: bool)
    ensures var op := Branch(conditional, aa, lk);
            && WellFormed(op) && Positive(op) && Typed(op) && IsDirect(op)
            && Field(op.code, 1, 1) == (if aa then 1 else 0) && Field(op.code, 0, 1) == (if lk then 1 else 0)
  {
    hide Field;
    FreeFields(Branch(conditional, aa, lk).code);
  }

  lemma MaskFields()
    ensures Field(BRANCH_MASK, 2, 24) == 0 && Field(BRANCH_MASK, 2, 14) == 0
    ensures Field(BRANCH_MASK, 16, 5) == 0 && Field(BRANCH_MASK, 21, 5) == 0
  {
    hide Low, Shr;
    ShrFew(BRANCH_MASK);
    assert BRANCH_MASK / 4 == 0x100_0000 * 0x3F == 0x1_0000 * 0x3F00;
    LowOfBytes(0x3F, 24);
    LowOfBytes(0x3F00, 14);
    ShrByte(BRANCH_MASK, 8);
    ShrByte(BRANCH_MASK / 0x100, 0);
    ShrByte(BRANCH_MASK, 13);
    ShrByte(BRANCH_MASK / 0x100, 5);
    ShrFew(0xFC00);
    LowOfBytes(0xFC, 5);
    assert Shl(0x3F, 2) == 0xFC && Shl(0x3F, 4) == 4 * Shl(0x3F, 2) && Shl(0x3F, 5) == 2 * Shl(0x3F, 4);
    LowOfShl(0x3F, 5, 5);
  }

  lemma ShlThreeBytes(v: nat)
    ensures Shl(v, 24) == 0x100_0000 * v
  {
    ShlByte(v, 0);
    ShlByte(v, 8);
    ShlByte(v, 16);
  }

  lemma CodeKept(code: u32)
    requires BC <= code < BC + 4 || B <= code < B + 4
    ensures And(code, BRANCH_MASK) == code
  {
    hide And, Shl;
    AndBits(code, BRANCH_MASK);
    AndBits(code / 2, BRANCH_MASK / 2);
    var high := if code < B then 0x10 else 0x12;
    AndBothShl(high, 0x3F, 24);
    ShlThreeBytes(high);
    ShlThreeBytes(0x3F);
    SixOnes();
    AndOnes(high, 6);
    assert code / 4 == 0x100_0000 * high && BRANCH_MASK / 4 == 0x100_0000 * 0x3F;
    AndBits(code / 4, BRANCH_MASK / 4);
  }

  /** The mask of a branch takes in its opcode and leaves out its operands. */
  lemma {:induction false} BranchMask(conditional: bool, aa: bool, lk: bool)
    ensures OwnMask(Branch(conditional, aa, lk))
  {
    hide Field, And;
    MaskFields();
    CodeKept(Branch(conditional, aa, lk).code);
  }

  lemma IndexOfName(op: Opcode, k: nat)
    requires k < |op.fields| && forall j :: 0 <= j < k ==> op.fields[j].name != op.fields[k].name
    ensures IndexOf(op, op.fields[k].name, 0) == k
  {
    var r := IndexOf(op, op.fields[k].name, 0);
  }

  lemma OperandsOf(conditional: bool, aa: bool, lk: bool)
    ensures var op := Branch(conditional, aa, lk);
            && op.fields[AddressIndex(conditional)] == (if conditional then BD else LI)
            && IndexOf(op, O_AA, 0) == AddressIndex(conditional) + 1
            && IndexOf(op, O_LK, 0) == AddressIndex(conditional) + 2
            && IndexOf(op, DistanceName(op), 0) == AddressIndex(conditional)
            && (conditional ==> IndexOf(op, O_BO, 0) == 0 && IndexOf(op, O_BI, 0) == 1)
  {
    hide IndexOf;
    var op := Branch(conditional, aa, lk);
    for k := 0 to |op.fields|
      invariant forall j :: 0 <= j < k ==> IndexOf(op, op.fields[j].name, 0) == j
    {
      IndexOfName(op, k);
    }
    assert op.fields[AddressIndex(conditional)].name == DistanceName(op);
    assert op.fields[AddressIndex(conditional) + 1].name == O_AA
           && op.fields[AddressIndex(conditional) + 2].name == O_LK;
    assert conditional ==> op.fields[0].name == O_BO && op.fields[1].name == O_BI;
  }

  /** A direct branch that has been assembled at pc is shown and followed to the same
      address; that is the typed target exactly if its distance is a number of whole
      words that fits the field. A link bit makes "next" go behind the branch. */
  lemma {:induction false} AssembledBranch(conditional: bool, aa: bool, lk: bool, pc: u32, s: string, p: nat,
                                          ctr: u32, cr: u32, lr: u32)
    requires p <= |s|
    requires OperandValues(pc, Branch(conditional, aa, lk), 0, s, p).Values?
    ensures var op, i := Branch(conditional, aa, lk), AddressIndex(conditional);
            var vs := OperandValues(pc, op, 0, s, p).vs;
            var instr := Packed(op, vs, |vs|);
            var shown, next := ShownTarget(op, instr, i, pc), NextAddress(pc, op, instr, ctr, cr, lr);
            var taken := conditional ==> ValidForm(vs[0]) && Architected(vs[0], vs[1], ctr, cr);
            var txt := OperandText(op, 0, s, p, i);
            && Leads(next, pc, taken, shown, lk)
            && (shown == ReadNumber(txt) % U32
                <==> Distance(pc, op, txt) % 4 == 0
                     && -2 * (Pow2(op.fields[i].bits) as int) <= Distance(pc, op, txt) < 2 * Pow2(op.fields[i].bits))
  {
    hide Field, Packed, OperandValues, OperandValue, IndexOf, Target, ReadNumber, Architected,
         ValidForm, WellFormed, Typed,
         Pow2, OperandText;
    var op, i := Branch(conditional, aa, lk), AddressIndex(conditional);
    var vs := OperandValues(pc, op, 0, s, p).vs;
    var instr := Packed(op, vs, |vs|);
    BranchTable(conditional, aa, lk);
    OperandsOf(conditional, aa, lk);
    AssembledOperands(pc, op, s, p, i);
    AssembledOperands(pc, op, s, p, i + 1);
    AssembledOperands(pc, op, s, p, i + 2);
    if conditional {
      AssembledOperands(pc, op, s, p, 0);
      AssembledOperands(pc, op, s, p, 1);
    }
    ValueOfText(pc, op, 0, s, p, i);
    BranchIsShownAgain(pc, op, instr, i, OperandText(op, 0, s, p, i));
  }

  /** An assembled branch is found again in every ordered table that has its entry: the stepper and
      the disassembler then read it with the opcode it was written with. */
  lemma {:induction false} BranchIsFound(table: seq<Opcode>, k: nat, conditional: bool, aa: bool, lk: bool,
                                         pc: u32, s: string, p: nat)
    requires Grouped(table) && k < |table| && table[k] == Branch(conditional, aa, lk) && p <= |s|
    requires OperandValues(pc, Branch(conditional, aa, lk), 0, s, p).Values?
    ensures var vs := OperandValues(pc, Branch(conditional, aa, lk), 0, s, p).vs;
            Lookup(table, Packed(table[k], vs, |vs|)) == k
  {
    hide Field, Packed, OperandValues, Branch, Grouped, Lookup, OwnMask, WellFormed;
    BranchTable(conditional, aa, lk);
    BranchMask(conditional, aa, lk);
    AssembledIsFound(pc, table, k, s, p);
  }

  /** A direct branch that is assembled for an address is found in the table and followed from there to the
      address that is shown for it; that is the typed target exactly if its distance fits the field. */
  ghost predicate FollowedAsShown(table: seq<Opcode>, conditional: bool, aa: bool, lk: bool,
                                  nip: u32, s: string, p: nat, ctr: u32, cr: u32, lr: u32)
    requires p <= |s|
  {
    var op, i, pc := Branch(conditional, aa, lk), AddressIndex(conditional), nip - nip % 4;
    var r := OperandValues(pc, op, 0, s, p);
    r.Values? ==>
      var vs, instr := r.vs, Packed(op, r.vs, |r.vs|);
      var shown, txt := ShownTarget(op, instr, i, pc), OperandText(op, 0, s, p, i);
      var taken := conditional ==> ValidForm(vs[0]) && Architected(vs[0], vs[1], ctr, cr);
      && Leads(NextOf(table, nip, instr, ctr, cr, lr), pc, taken, shown, lk)
      && (shown == ReadNumber(txt) % U32
          <==> Distance(pc, op, txt) % 4 == 0
               && -2 * (Pow2(op.fields[i].bits) as int) <= Distance(pc, op, txt) < 2 * Pow2(op.fields[i].bits))
  }

  /** Both together, in every ordered table that has the entry of the branch. */
  lemma {:induction false} BranchIsFollowed(table: seq<Opcode>, k: nat, conditional: bool, aa: bool, lk: bool,
                                            nip: u32, s: string, p: nat, ctr: u32, cr: u32, lr: u32)
    requires Grouped(table) && k < |table| && table[k] == Branch(conditional, aa, lk) && p <= |s|
    ensures FollowedAsShown(table, conditional, aa, lk, nip, s, p, ctr, cr, lr)
  {
    hide Grouped, Lookup, OperandValues, Packed, ReadNumber, Pow2, Architected, ValidForm, NextAddress, Leads,
         ShownTarget, Distance, OperandText;
    var pc, op := nip - nip % 4, Branch(conditional, aa, lk);
    if OperandValues(pc, op, 0, s, p).Values? {
      BranchIsFound(table, k, conditional, aa, lk, pc, s, p);
      AssembledBranch(conditional, aa, lk, pc, s, p, ctr, cr, lr);
    }
  }
}
