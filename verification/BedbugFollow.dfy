/** Where every instruction word leads with the opcode table of bedbug: step and next, from the bits of the word. */
module BedbugFollow {
  import opened CString
  import opened BitFields
  import opened Bedbug
  import opened BedbugAssembler
  import opened BedbugBranches
  import opened BedbugLookup
  import opened BedbugStepper
  import opened BedbugTable
  import opened BedbugTools

  // ---- the condition, form by form

  /** The number that bits stand for, the most significant one first. */
  function BigEndian(bits: seq<bool>): nat {
    if bits == [] then 0 else 2 * BigEndian(bits[..|bits| - 1]) + if bits[|bits| - 1] then 1 else 0
  }

  lemma WithoutLast(bits: seq<bool>)
    requires bits != []
    ensures BigEndian(bits) / 2 == BigEndian(bits[..|bits| - 1])
  {
  }

  lemma ShrNext(w: nat, k: nat)
    ensures Shr(w, 0) == w && Shr(w, k + 1) == Shr(w / 2, k)
  {
  }

  lemma {:induction false} UpperBits(bits: seq<bool>, k: nat)
    requires k <= |bits|
    ensures Shr(BigEndian(bits), k) == BigEndian(bits[..|bits| - k])
    decreases k
  {
    hide Shr, BigEndian;
    if k > 0 {
      var front := bits[..|bits| - 1];
      WithoutLast(bits);
      ShrNext(BigEndian(bits), k - 1);
      UpperBits(front, k - 1);
      assert front[..|front| - (k - 1)] == bits[..|bits| - k];
    } else {
      ShrNext(BigEndian(bits), 0);
      assert bits[..|bits|] == bits;
    }
  }

  /** Bit i of the condition register is the i-th one from the left. */
  lemma BitFromTheLeft(bits: seq<bool>, i: nat)
    requires |bits| == 32
    ensures Bit(BigEndian(bits), i) <==> i < 32 && bits[i]
  {
    hide Shr;
    if i < 32 {
      UpperBits(bits, 31 - i);
      LowBit(BigEndian(bits[..i + 1]));
      assert bits[..i + 1][i] == bits[i];
    }
  }

  /** The nine forms of a branch condition: decrement the count register and branch if it is not zero or zero,
      branch if a bit of the condition register is clear or set, both, or always. The lowest bit of BO is a hint. */
  lemma ConditionForms(bo: nat, bi: nat, ctr: u32, cr: u32)
    requires bo < 32
    ensures var zero, bit, taken := ctr == 1, Bit(cr, bi), ValidForm(bo) && Architected(bo, bi, ctr, cr);
            && (bo / 2 == 0 ==> (taken <==> !zero && !bit)) && (bo / 2 == 1 ==> (taken <==> zero && !bit))
            && (bo / 2 == 2 ==> (taken <==> !bit))
            && (bo / 2 == 4 ==> (taken <==> !zero && bit)) && (bo / 2 == 5 ==> (taken <==> zero && bit))
            && (bo / 2 == 6 ==> (taken <==> bit))
            && (bo / 2 == 8 ==> (taken <==> !zero)) && (bo / 2 == 9 ==> (taken <==> zero))
            && (bo / 2 == 10 ==> taken)
            && (bo / 2 in {3, 7, 11, 12, 13, 14, 15} ==> !taken)
  {
    hide Field;
  }

  // ---- branches to the link and the count register

  const INDIRECT_MASK := 0xFC00_07FF

  /** bclr, bclrl, bcctr and bcctrl. */
  function Indirect(counter: bool, lk: bool): Opcode {
    Opcode((if counter then BCCTR else BCLR) + (if lk then 1 else 0), INDIRECT_MASK, [BO, BI, LK],
           if counter then (if lk then "bcctrl" else "bcctr") else (if lk then "bclrl" else "bclr"), false)
  }

  function IndirectAt(counter: bool, lk: bool): (k: nat)
    ensures 18 <= k < 33
  {
    (if counter then 31 else 19) + if lk then 1 else 0
  }

  lemma IndirectRows(counter: bool, lk: bool)
    ensures var k := IndirectAt(counter, lk); Rows()[k] == Rows2()[k - 18]
  {
    hide Rows0, Rows1, Rows2, Rows3, Rows31, RowsAbove;
  }

  lemma IndirectEntries(sprs: seq<Spr>, counter: bool, lk: bool)
    ensures Table(sprs)[IndirectAt(counter, lk)] == Indirect(counter, lk)
  {
    hide Rows, Regular;
    IndirectRows(counter, lk);
  }

  /** The lowest bit of a word is that of its opcode, where the mask takes it in. */
  lemma LowestBit(op: Opcode, instr: nat)
    requires Matches(op, instr) && op.mask % 2 == 1
    ensures Field(instr, 0, 1) == op.code % 2
  {
    hide And, Low;
    AndBits(instr, op.mask);
    ShrFew(instr);
    LowBit(instr);
  }

  lemma IndirectOperands(counter: bool, lk: bool, instr: nat)
    requires Matches(Indirect(counter, lk), instr)
    ensures var op := Indirect(counter, lk);
            && HasOperand(op, O_BO) && HasOperand(op, O_BI) && HasOperand(op, O_LK)
            && OperandOf(op, instr, O_BO) == Field(instr, 21, 5) && OperandOf(op, instr, O_BI) == Field(instr, 16, 5)
            && OperandOf(op, instr, O_LK) == if lk then 1 else 0
  {
    hide Field, Matches, IndexOf;
    var op := Indirect(counter, lk);
    assert op.fields[0].name == O_BO && op.fields[1].name == O_BI && op.fields[2].name == O_LK;
    IndexOfName(op, 0);
    IndexOfName(op, 1);
    IndexOfName(op, 2);
    LowestBit(op, instr);
  }

  /** A word with the opcode of bclr or bclrl leads to the link register, one with that of bcctr or bcctrl to the
      count register, if the condition of its BO and BI fields holds in a valid form. */
  ghost predicate FollowedToRegister(table: seq<Opcode>, counter: bool, lk: bool, nip: u32, instr: u32,
                                     ctr: u32, cr: u32, lr: u32) {
    Matches(Indirect(counter, lk), instr) ==>
      var bo, bi := Field(instr, 21, 5), Field(instr, 16, 5);
      Leads(NextOf(table, nip, instr, ctr, cr, lr), nip - nip % 4,
            ValidForm(bo) && Architected(bo, bi, ctr, cr), if counter then ctr else lr, lk)
  }

  lemma IndirectInTable(table: seq<Opcode>, k: nat, counter: bool, lk: bool, nip: u32, instr: u32,
                        ctr: u32, cr: u32, lr: u32)
    requires Grouped(table) && k < |table| && table[k] == Indirect(counter, lk)
    ensures FollowedToRegister(table, counter, lk, nip, instr, ctr, cr, lr)
  {
    hide Field, Matches, Lookup, Grouped, IndexOf, OperandOf, HasOperand, Architected, ValidForm;
    LookupIsMatch(table, instr, k);
    if Matches(Indirect(counter, lk), instr) {
      IndirectOperands(counter, lk, instr);
    }
  }

  lemma IndirectIsFollowed(sprs: seq<Spr>, counter: bool, lk: bool, nip: u32, instr: u32, ctr: u32, cr: u32, lr: u32)
    ensures FollowedToRegister(Table(sprs), counter, lk, nip, instr, ctr, cr, lr)
  {
    hide *;
    TableIsGood(sprs);
    IndirectEntries(sprs, counter, lk);
    IndirectInTable(Table(sprs), IndirectAt(counter, lk), counter, lk, nip, instr, ctr, cr, lr);
  }

  // ---- direct branches

  /** The second lowest bit of a word is that of its opcode, where the mask takes it in. */
  lemma SecondBit(op: Opcode, instr: nat)
    requires Matches(op, instr) && op.mask / 2 % 2 == 1
    ensures Field(instr, 1, 1) == op.code / 2 % 2
  {
    hide And, Low;
    AndBits(instr, op.mask);
    AndBits(instr / 2, op.mask / 2);
    ShrFew(instr);
    LowBit(instr / 2);
  }

  lemma DirectOperands(conditional: bool, aa: bool, lk: bool, instr: nat)
    requires Matches(Branch(conditional, aa, lk), instr)
    ensures var op := Branch(conditional, aa, lk);
            && HasOperand(op, DistanceName(op)) && HasOperand(op, O_AA) && HasOperand(op, O_LK)
            && OperandOf(op, instr, DistanceName(op)) == Field(instr, 2, if conditional then 14 else 24)
            && OperandOf(op, instr, O_AA) == (if aa then 1 else 0)
            && OperandOf(op, instr, O_LK) == (if lk then 1 else 0)
            && (conditional ==>
                  && HasOperand(op, O_BO) && HasOperand(op, O_BI)
                  && OperandOf(op, instr, O_BO) == Field(instr, 21, 5)
                  && OperandOf(op, instr, O_BI) == Field(instr, 16, 5))
  {
    hide Field, Matches, IndexOf;
    OperandsOf(conditional, aa, lk);
    LowestBit(Branch(conditional, aa, lk), instr);
    SecondBit(Branch(conditional, aa, lk), instr);
  }

  /** The distance in words that a field of 14 or 24 bits stands for. */
  function Words(field: nat, conditional: bool): int {
    if conditional then (if field < 0x2000 then field else field - 0x4000)
    else if field < 0x80_0000 then field else field - 0x100_0000
  }

  lemma WordsAreExtended(field: nat, conditional: bool)
    ensures Extended(field, if conditional then 14 else 24) == Words(field, conditional)
  {
    assert Pow2(10) == 1024;
    assert Pow2(13) == 0x2000 && Pow2(14) == 0x4000;
    assert Pow2(20) == 0x10_0000;
    assert Pow2(23) == 0x80_0000 && Pow2(24) == 0x100_0000;
  }

  /** A word with the opcode of a direct branch leads to the address that its distance gives, from the branch
      or from zero; without condition always, else if the condition of its BO and BI fields holds in a valid form. */
  ghost predicate FollowedToDistance(table: seq<Opcode>, conditional: bool, aa: bool, lk: bool, nip: u32, instr: u32,
                                     ctr: u32, cr: u32, lr: u32) {
    Matches(Branch(conditional, aa, lk), instr) ==>
      var bo, bi, pc := Field(instr, 21, 5), Field(instr, 16, 5), nip - nip % 4;
      var words := Words(Field(instr, 2, if conditional then 14 else 24), conditional);
      Leads(NextOf(table, nip, instr, ctr, cr, lr), pc, conditional ==> ValidForm(bo) && Architected(bo, bi, ctr, cr),
            (4 * words + if aa then 0 else pc) % 0x1_0000_0000, lk)
  }

  lemma DirectInTable(table: seq<Opcode>, k: nat, conditional: bool, aa: bool, lk: bool, nip: u32, instr: u32,
                      ctr: u32, cr: u32, lr: u32)
    requires Grouped(table) && k < |table| && table[k] == Branch(conditional, aa, lk)
    ensures FollowedToDistance(table, conditional, aa, lk, nip, instr, ctr, cr, lr)
  {
    hide Field, Matches, Lookup, Grouped, IndexOf, OperandOf, HasOperand, Architected, ValidForm, Extended, Words;
    LookupIsMatch(table, instr, k);
    if Matches(Branch(conditional, aa, lk), instr) {
      DirectOperands(conditional, aa, lk, instr);
      WordsAreExtended(Field(instr, 2, if conditional then 14 else 24), conditional);
    }
  }

  lemma DirectIsFollowed(sprs: seq<Spr>, conditional: bool, aa: bool, lk: bool, nip: u32, instr: u32,
                         ctr: u32, cr: u32, lr: u32)
    ensures FollowedToDistance(Table(sprs), conditional, aa, lk, nip, instr, ctr, cr, lr)
  {
    hide *;
    TableIsGood(sprs);
    BranchEntries(sprs, conditional, aa, lk);
    DirectInTable(Table(sprs), BranchAt(conditional, aa, lk), conditional, aa, lk, nip, instr, ctr, cr, lr);
  }

  // ---- all other instructions

  const DIRECT := ["b", "bl", "ba", "bla", "bc", "bcl", "bca", "bcla"]
  const INDIRECT := ["bclr", "bclrl", "bcctr", "bcctrl"]

  predicate IsBranch(op: Opcode) {
    op.name in DIRECT || op.name in INDIRECT
  }

  lemma BranchNames(conditional: bool, aa: bool, lk: bool)
    ensures IsBranch(Branch(conditional, aa, lk)) && IsBranch(Indirect(conditional, lk))
  {
    var l := if lk then 1 else 0;
    var i := (if conditional then 4 else 0) + (if aa then 2 else 0) + l;
    assert Branch(conditional, aa, lk).name == DIRECT[i];
    assert Indirect(conditional, lk).name == INDIRECT[(if conditional then 2 else 0) + l];
  }

  /** An opcode that the stepper follows is that of a branch of the table. */
  lemma FollowedCodes(op: Opcode) returns (conditional: bool, aa: bool, lk: bool)
    requires IsDirect(op) || IsIndirect(op)
    ensures op.code == (if IsDirect(op) then Branch(conditional, aa, lk) else Indirect(conditional, lk)).code
  {
    lk := op.code % 2 == 1;
    aa := op.code / 2 % 2 == 1;
    conditional := if IsDirect(op) then op.code < B else op.code >= BCCTR;
  }

  /** In an ordered table an opcode that is that of a branch has its name. */
  lemma OnlyBranchesAreFollowed(sprs: seq<Spr>, k: nat)
    requires k < 206 && (IsDirect(Table(sprs)[k]) || IsIndirect(Table(sprs)[k]))
    ensures IsBranch(Table(sprs)[k])
  {
    hide Table, Branch, Indirect, IsBranch;
    TableIsGood(sprs);
    var conditional, aa, lk := FollowedCodes(Table(sprs)[k]);
    BranchEntries(sprs, conditional, aa, lk);
    IndirectEntries(sprs, conditional, lk);
    BranchNames(conditional, aa, lk);
    var i := if IsDirect(Table(sprs)[k]) then BranchAt(conditional, aa, lk) else IndirectAt(conditional, lk);
    assert i == k;
  }

  /** Every instruction that the table knows, and that is no branch, leads to the one behind it. */
  ghost predicate GoesOn(table: seq<Opcode>, k: nat, nip: u32, instr: u32, ctr: u32, cr: u32, lr: u32)
    requires k < |table|
  {
    Matches(table[k], instr) && !IsBranch(table[k]) ==>
      Leads(NextOf(table, nip, instr, ctr, cr, lr), nip - nip % 4, false, 0, false)
  }

  lemma OthersGoOn(sprs: seq<Spr>, k: nat, nip: u32, instr: u32, ctr: u32, cr: u32, lr: u32)
    requires k < 206
    ensures GoesOn(Table(sprs), k, nip, instr, ctr, cr, lr)
  {
    hide Table, Matches, IsBranch, IsDirect, IsIndirect, Grouped, GoodTable, Lookup;
    TableIsGood(sprs);
    LookupIsMatch(Table(sprs), instr, k);
    if IsDirect(Table(sprs)[k]) || IsIndirect(Table(sprs)[k]) {
      OnlyBranchesAreFollowed(sprs, k);
    }
  }

  /** Nothing is known about a word exactly if no entry of the table has its opcode. */
  lemma UnknownWords(sprs: seq<Spr>, instr: u32)
    ensures Lookup(Table(sprs), instr) == 206 <==> forall k :: 0 <= k < 206 ==> !Matches(Table(sprs)[k], instr)
  {
    hide Table, Matches, Grouped, GoodTable, Lookup;
    TableIsGood(sprs);
    forall k | 0 <= k < 206 ensures Lookup(Table(sprs), instr) == k <==> Matches(Table(sprs)[k], instr) {
      LookupIsMatch(Table(sprs), instr, k);
    }
  }

  // ---- assembled lines

  predicate StartsWithB(name: string) {
    name != "" && name[0] == 'b'
  }

  predicate NoneStarts(rows: seq<OpRow>) {
    forall i :: 0 <= i < |rows| ==> !StartsWithB(rows[i].name)
  }

  lemma NamesBelow()
    ensures NoneStarts(Rows0()) && NoneStarts(Rows3())
    ensures !StartsWithB(Rows1()[4].name)
    ensures forall i :: 0 <= i < 15 && StartsWithB(Rows2()[i].name) ==> i in {1, 2, 13, 14}
  {
    hide Regular;
  }

  lemma Names4()
    ensures NoneStarts(Rows4())
  {
    hide Regular;
  }

  lemma Names5()
    ensures NoneStarts(Rows5())
  {
    hide Regular;
  }

  lemma Names6()
    ensures NoneStarts(Rows6())
  {
    hide Regular;
  }

  lemma Names7()
    ensures NoneStarts(Rows7())
  {
    hide Regular;
  }

  lemma Names8()
    ensures NoneStarts(Rows8())
  {
    hide Regular;
  }

  lemma Names9()
    ensures NoneStarts(Rows9())
  {
    hide Regular;
  }

  lemma NamesAbove()
    ensures NoneStarts(Rows10()) && NoneStarts(Rows11())
  {
    hide Regular;
  }

  lemma DirectName(conditional: bool, aa: bool, lk: bool, counter: bool, link: bool)
    ensures Branch(conditional, aa, lk).name != Indirect(counter, link).name
  {
    var name := Indirect(counter, link).name;
    assert |name| >= 4 && name[2] in {'l', 'c'} && name[3] in {'r', 't'};
  }

  lemma NamesFrom45()
    ensures NoneStarts(Rows31() + RowsAbove())
  {
    hide Regular, StartsWithB, Rows4, Rows5, Rows6, Rows7, Rows8, Rows9, Rows10, Rows11;
    Names4();
    Names5();
    Names6();
    Names7();
    Names8();
    Names9();
    NamesAbove();
  }

  /** The names of the branches are the only ones that start with a 'b'. */
  lemma BranchPlaces(k: nat)
    requires k < 206 && StartsWithB(Rows()[k].name)
    ensures (9 <= k < 18 && k != 13) || k in {19, 20, 31, 32}
  {
    hide Regular, StartsWithB, Rows0, Rows1, Rows2, Rows3, Rows31, RowsAbove;
    NamesBelow();
    NamesFrom45();
  }

  /** bclr, bclrl, bcctr and bcctrl have one entry each. */
  lemma IndirectName(sprs: seq<Spr>, k: nat, counter: bool, lk: bool)
    requires k < 206 && Table(sprs)[k].name == Indirect(counter, lk).name
    ensures k == IndirectAt(counter, lk)
  {
    hide Rows, Regular, Branch, Operands;
    BranchPlaces(k);
    if k < 18 {
      var conditional, j := k < 14, if k < 14 then k - 9 else k - 14;
      BranchEntries(sprs, conditional, j >= 2, j % 2 == 1);
      DirectName(conditional, j >= 2, j % 2 == 1, counter, lk);
    } else {
      IndirectEntries(sprs, k >= 31, k in {20, 32});
    }
  }

  /** A line with bclr, bclrl, bcctr or bcctrl, assembled at the address that it is followed from. */
  ghost predicate LineToRegister(table: seq<Opcode>, counter: bool, lk: bool, nip: u32, s: string,
                                 ctr: u32, cr: u32, lr: u32)
    requires GoodTable(table)
  {
    var (word, p) := GetWord(s, 0);
    var pc := nip - nip % 4;
    var r := Assemble(pc, table, s);
    r.Assembled? && Lower(word) == Indirect(counter, lk).name ==>
      var values := OperandValues(pc, Indirect(counter, lk), 0, s, p);
      && values.Values? && r.instr < 0x1_0000_0000
      && Leads(NextOf(table, nip, r.instr, ctr, cr, lr), pc,
               ValidForm(values.vs[0]) && Architected(values.vs[0], values.vs[1], ctr, cr),
               if counter then ctr else lr, lk)
  }

  lemma LineInTable(table: seq<Opcode>, k: nat, counter: bool, lk: bool, nip: u32, s: string,
                    ctr: u32, cr: u32, lr: u32)
    requires GoodTable(table) && k < |table| && table[k] == Indirect(counter, lk)
    requires forall j :: 0 <= j < |table| && table[j].name == Indirect(counter, lk).name ==> j == k
    ensures LineToRegister(table, counter, lk, nip, s, ctr, cr, lr)
  {
    hide Field, Grouped, WellFormed, OwnMask, OperandValues, Packed, Matches, Lookup, NextOf, GetWord, ByName,
         Leads, Architected, ValidForm, Lower;
    var (word, p) := GetWord(s, 0);
    var pc := nip - nip % 4;
    var r := Assemble(pc, table, s);
    if r.Assembled? && Lower(word) == Indirect(counter, lk).name {
      AssembledOperands(pc, table[k], s, p, 0);
      AssembledOperands(pc, table[k], s, p, 1);
      AssembledIsFound(pc, table, k, s, p);
      LookupIsMatch(table, r.instr, k);
      IndirectInTable(table, k, counter, lk, nip, r.instr, ctr, cr, lr);
    }
  }

  lemma IndirectLine(sprs: seq<Spr>, counter: bool, lk: bool, nip: u32, s: string, ctr: u32, cr: u32, lr: u32)
    ensures GoodTable(Table(sprs)) && LineToRegister(Table(sprs), counter, lk, nip, s, ctr, cr, lr)
  {
    hide LineToRegister, GoodTable, Table, Grouped;
    TableIsGood(sprs);
    IndirectEntries(sprs, counter, lk);
    forall j | 0 <= j < 206 && Table(sprs)[j].name == Indirect(counter, lk).name
      ensures j == IndirectAt(counter, lk)
    {
      IndirectName(sprs, j, counter, lk);
    }
    LineInTable(Table(sprs), IndirectAt(counter, lk), counter, lk, nip, s, ctr, cr, lr);
  }
}
