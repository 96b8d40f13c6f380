/** find_next_address of bedbug.c: where execution goes on behind an instruction. */
module BedbugStepper {
  import opened CString
  import opened BitFields
  import opened Bedbug
  import opened BedbugLookup
  import opened BedbugTools

  const BC := 0x4000_0000
  const B := 0x4800_0000
  const BCLR := 0x4C00_0020
  const BCCTR := 0x4C00_0420

  // ---- conditions

  /** Bit of a word, counted from the most significant one. */
  predicate Bit(w: nat, i: nat) {
    i < 32 && Field(w, 31 - i, 1) == 1
  }

  /** The branch condition of the PowerPC architecture: bits 2 and 3 of BO select a test
      of the decremented count register, bits 0 and 1 one of a condition register bit. */
  predicate Architected(bo: nat, bi: nat, ctr: u32, cr: u32) {
    var b0, b1, b2, b3 := bo / 16 % 2 == 1, bo / 8 % 2 == 1, bo / 4 % 2 == 1, bo / 2 % 2 == 1;
    && (b2 || ((ctr - 1) % U32 != 0) != b3)
    && (b0 || Bit(cr, bi) == b1)
  }

  /** BO values whose ignored bits are zero; for all others the code takes no branch. */
  predicate ValidForm(bo: nat) {
    !(bo / 4 % 2 == 1 && bo / 2 % 2 == 1) && !(bo / 16 % 2 == 1 && bo / 8 % 2 == 1)
  }

  method Condition(bo: nat, bi: nat, ctr0: u32, cr: u32) returns (taken: bool)
    requires bo < 32
    ensures taken == (ValidForm(bo) && Architected(bo, bi, ctr0, cr))
  {
    hide Field;
    var ctr, ctrOk, condOk := (ctr0 - 1) % U32, false, false;
    match bo / 2 % 16 {
      case 0 =>
        ctrOk, condOk := ctr != 0, !Bit(cr, bi);
      case 1 =>
        ctrOk, condOk := ctr == 0, !Bit(cr, bi);
      case 2 =>
        ctrOk, condOk := true, !Bit(cr, bi);
      case 4 =>
        ctrOk, condOk := ctr != 0, Bit(cr, bi);
      case 5 =>
        ctrOk, condOk := ctr == 0, Bit(cr, bi);
      case 6 =>
        ctrOk, condOk := true, Bit(cr, bi);
      case 8 =>
        ctrOk, condOk := ctr != 0, ctr != 0;
      case 9 =>
        ctrOk, condOk := ctr == 0, ctr == 0;
      case 10 =>
        ctrOk, condOk := true, true;
      case _ =>
    }
    taken := ctrOk && condOk;
  }

  // ---- the next address

  datatype Next = Unknown | Next(step: u32, next: u32)

  /** Where a branch goes: step follows it, next goes behind a call. */
  function Follow(pc: u32, taken: bool, target: u32, lk: nat): Next {
    var behind := (pc + 4) % U32;
    if !taken then Next(behind, behind)
    else if lk != 0 then Next(target, behind)
    else Next(target, target)
  }

  /** Operand widths that the code takes for granted. */
  predicate Typed(op: Opcode) {
    forall i :: 0 <= i < |op.fields| ==>
      match op.fields[i].name
      case O_LI => op.fields[i].bits == 24
      case O_BD => op.fields[i].bits == 14
      case O_BO => op.fields[i].bits == 5
      case O_BI => op.fields[i].bits == 5
      case _ => true
  }

  predicate IsDirect(op: Opcode) {
    op.code == BC || op.code == BC + 1 || op.code == BC + 2 || op.code == BC + 3
    || op.code == B || op.code == B + 1 || op.code == B + 2 || op.code == B + 3
  }

  predicate IsIndirect(op: Opcode) {
    op.code == BCLR || op.code == BCLR + 1 || op.code == BCCTR || op.code == BCCTR + 1
  }

  /** The operand with the distance of a direct branch. */
  function DistanceName(op: Opcode): Name {
    if op.code < B then O_BD else O_LI
  }

  function DistanceBits(op: Opcode): (n: nat)
    ensures n > 0
  {
    if op.code < B then 14 else 24
  }

  /** Whether a branch with BO and BI operands is taken. */
  predicate IsTaken(op: Opcode, instr: nat, ctr: u32, cr: u32)
    requires HasOperand(op, O_BO) && HasOperand(op, O_BI)
  {
    var bo := OperandOf(op, instr, O_BO);
    ValidForm(bo) && Architected(bo, OperandOf(op, instr, O_BI), ctr, cr)
  }

  /** The next address behind the instruction at pc. */
  function NextAddress(pc: u32, op: Opcode, instr: nat, ctr: u32, cr: u32, lr: u32): Next {
    var conditional := !(IsDirect(op) && op.code >= B);
    if !IsDirect(op) && !IsIndirect(op) then Follow(pc, false, 0, 0)
    else if conditional && !(HasOperand(op, O_BO) && HasOperand(op, O_BI)) then Unknown
    else if !HasOperand(op, O_LK) then Unknown
    else if IsDirect(op) && !(HasOperand(op, DistanceName(op)) && HasOperand(op, O_AA)) then Unknown
    else
      var taken := conditional ==> IsTaken(op, instr, ctr, cr);
      var target :=
        if IsDirect(op) then
          Target(OperandOf(op, instr, DistanceName(op)), DistanceBits(op),
                 if OperandOf(op, instr, O_AA) != 0 then 0 else pc)
        else if op.code == BCCTR || op.code == BCCTR + 1 then ctr
        else lr;
      Follow(pc, taken, target, OperandOf(op, instr, O_LK))
  }

  /** The next address behind the instruction at nip, with the opcode that the table has for it. */
  function NextOf(table: seq<Opcode>, nip: u32, instr: nat, ctr: u32, cr: u32, lr: u32): Next {
    var k := Lookup(table, instr);
    if k == |table| then Unknown else NextAddress(nip - nip % 4, table[k], instr, ctr, cr, lr)
  }

  /** What step and next are behind the instruction at pc when it branches to a target: step goes there, next
      does so as well, unless the branch is a call; both go on behind the instruction when it is not taken. */
  ghost predicate Leads(r: Next, pc: u32, taken: bool, target: u32, lk: bool) {
    var behind := (pc + 4) % 0x1_0000_0000;
    && r.Next?
    && r.step == (if taken then target else behind)
    && r.next == (if taken && !lk then target else behind)
  }

  // ---- the routine

  lemma FiveBits()
    ensures Pow2(5) == 32
  {
  }

  /** The operands of a conditional branch, and whether it is taken. */
  method Decide(op: Opcode, instr: nat, ctr: u32, cr: u32) returns (ok: bool, taken: bool)
    requires Typed(op)
    ensures ok == (HasOperand(op, O_BO) && HasOperand(op, O_BI))
    ensures ok ==> taken == IsTaken(op, instr, ctr, cr)
  {
    hide Architected, ValidForm, Field;
    taken := false;
    var bo, bi;
    ok, bo := GetOperandValue(op, instr, O_BO);
    if !ok {
      return;
    }
    ok, bi := GetOperandValue(op, instr, O_BI);
    if !ok {
      return;
    }
    FiveBits();
    taken := Condition(bo, bi, ctr, cr);
  }

  /** Distance and AA operand of a direct branch: the target. */
  method Aim(pc: u32, op: Opcode, instr: nat) returns (ok: bool, target: u32)
    requires Typed(op) && IsDirect(op)
    ensures ok == (HasOperand(op, DistanceName(op)) && HasOperand(op, O_AA))
    ensures ok ==> target == Target(OperandOf(op, instr, DistanceName(op)), DistanceBits(op),
                                    if OperandOf(op, instr, O_AA) != 0 then 0 else pc)
  {
    hide Field;
    target := 0;
    var addr, aa;
    ok, addr := GetOperandValue(op, instr, DistanceName(op));
    if !ok {
      return;
    }
    ok, aa := GetOperandValue(op, instr, O_AA);
    if !ok {
      return;
    }
    var distance: int := addr;
    if addr >= Pow2(DistanceBits(op) - 1) {
      distance := addr - Pow2(DistanceBits(op));
    }
    distance := 4 * distance;
    target := (if aa != 0 then distance else distance + pc) % U32;
  }

  /** The rest of find_next_address: the operands of a branch, and where it goes. */
  method FollowOpcode(pc: u32, op: Opcode, instr: nat, ctr: u32, cr: u32, lr: u32) returns (r: Next)
    requires Typed(op)
    ensures r == NextAddress(pc, op, instr, ctr, cr, lr)
  {
    hide IsTaken, HasOperand, OperandOf, Target, Typed;
    var taken, target, ok, lk := true, 0, true, 0;
    if !IsDirect(op) && !IsIndirect(op) {
      return Follow(pc, false, 0, 0);
    }
    if !(IsDirect(op) && op.code >= B) {
      ok, taken := Decide(op, instr, ctr, cr);
      if !ok {
        return Unknown;
      }
    }
    ok, lk := GetOperandValue(op, instr, O_LK);
    if !ok {
      return Unknown;
    }
    if IsDirect(op) {
      ok, target := Aim(pc, op, instr);
      if !ok {
        return Unknown;
      }
    } else {
      target := if op.code == BCCTR || op.code == BCCTR + 1 then ctr else lr;
    }
    return Follow(pc, taken, target, lk);
  }

  /** find_next_address: the opcode of the instruction at nip, and where it leads. */
  method FindNextAddress(nip: u32, table: seq<Opcode>, instr: nat, ctr: u32, cr: u32, lr: u32) returns (r: Next)
    requires forall i :: 0 <= i < |table| ==> Typed(table[i])
    ensures r == NextOf(table, nip, instr, ctr, cr, lr)
  {
    hide Lookup, NextAddress;
    var k := FindOpcode(table, instr);
    if k == |table| {
      return Unknown;
    }
    r := FollowOpcode(nip - nip % 4, table[k], instr, ctr, cr, lr);
  }
}
