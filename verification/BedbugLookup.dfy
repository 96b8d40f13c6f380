/** find_opcode of bedbug.c: the entry of the opcode table that an instruction belongs to. */
module BedbugLookup {
  import opened CString
  import opened BitFields
  import opened Bedbug
  import opened BedbugAssembler

  predicate Matches(op: Opcode, instr: nat) {
    And(instr, op.mask) == op.code
  }

  /** The upper six bits. */
  function Primary(w: nat): nat {
    Shr(w, 26)
  }

  /** An ordered table whose masks take in the upper six bits, and are the same for all opcodes
      that agree in them. */
  ghost predicate Grouped(table: seq<Opcode>) {
    && (forall i :: 0 <= i < |table| ==> Primary(table[i].mask) == 0x3F)
    && (forall i, j :: 0 <= i < j < |table| ==> table[i].code < table[j].code)
    && (forall i, j :: 0 <= i < j < |table| && Primary(table[i].code) == Primary(table[j].code) ==>
          table[i].mask == table[j].mask)
  }

  /** The bisection between two entries, |table| when it finds nothing. */
  function Bisect(table: seq<Opcode>, instr: nat, top: nat, bottom: int): (r: nat)
    requires top <= |table| && -1 <= bottom < |table|
    ensures r <= |table|
    ensures r < |table| ==> Matches(table[r], instr)
    decreases bottom + 1 - top
  {
    if top > bottom then |table|
    else
      var idx := (top + bottom) / 2;
      var masked := And(instr, table[idx].mask);
      if masked < table[idx].code then Bisect(table, instr, top, idx - 1)
      else if masked > table[idx].code then Bisect(table, instr, idx + 1, bottom)
      else idx
  }

  function Lookup(table: seq<Opcode>, instr: nat): (r: nat)
    ensures r <= |table|
    ensures r < |table| ==> Matches(table[r], instr)
  {
    Bisect(table, instr, 0, |table| - 1)
  }

  method FindOpcode(table: seq<Opcode>, instr: nat) returns (idx: nat)
    ensures idx == Lookup(table, instr)
  {
    hide And;
    var top: nat, bottom: int := 0, |table| - 1;
    while top <= bottom
      invariant top <= |table| && -1 <= bottom < |table|
      invariant Bisect(table, instr, top, bottom) == Lookup(table, instr)
      decreases bottom + 1 - top
    {
      idx := (top + bottom) / 2;
      var masked := And(instr, table[idx].mask);
      if masked < table[idx].code {
        bottom := idx - 1;
      } else if masked > table[idx].code {
        top := idx + 1;
      } else {
        return;
      }
    }
    idx := |table|;
  }

  lemma SixOnes()
    ensures Pow2(6) == 0x40
  {
    assert Pow2(3) == 8;
  }

  /** The upper bits of a masked instruction are its own. */
  lemma PrimaryKept(instr: u32, mask: nat)
    requires Primary(mask) == 0x3F
    ensures Primary(And(instr, mask)) == Primary(instr)
  {
    hide And, Shr;
    ShrAnd(instr, mask, 26);
    WordSize();
    ShrBelow(instr, 6, 26);
    SixOnes();
    AndOnes(Shr(instr, 26), 6);
  }

  /** Every comparison with another entry points to the one that the instruction belongs to. */
  lemma Points(table: seq<Opcode>, instr: u32, k: nat, i: nat)
    requires Grouped(table) && k < |table| && i < |table| && Matches(table[k], instr)
    ensures i < k ==> And(instr, table[i].mask) > table[i].code
    ensures k < i ==> And(instr, table[i].mask) < table[i].code
  {
    hide And, Shr;
    PrimaryKept(instr, table[i].mask);
    PrimaryKept(instr, table[k].mask);
    ShrMonotone(And(instr, table[i].mask), table[i].code, 26);
    ShrMonotone(table[i].code, And(instr, table[i].mask), 26);
    ShrMonotone(table[i].code, table[k].code, 26);
    ShrMonotone(table[k].code, table[i].code, 26);
  }

  lemma {:induction false} BisectFinds(table: seq<Opcode>, instr: u32, top: nat, bottom: int, k: nat)
    requires top <= k <= bottom < |table| && Grouped(table) && Matches(table[k], instr)
    ensures Bisect(table, instr, top, bottom) == k
    decreases bottom - top
  {
    hide And, Grouped;
    var idx := (top + bottom) / 2;
    Points(table, instr, k, idx);
    if idx < k {
      BisectFinds(table, instr, idx + 1, bottom, k);
    } else if idx > k {
      BisectFinds(table, instr, top, idx - 1, k);
    }
  }

  /** The search finds an entry exactly if the instruction has the entry's opcode under its mask. */
  lemma LookupIsMatch(table: seq<Opcode>, instr: u32, k: nat)
    requires Grouped(table) && k < |table|
    ensures Lookup(table, instr) == k <==> Matches(table[k], instr)
  {
    hide Grouped, Matches;
    if Matches(table[k], instr) {
      BisectFinds(table, instr, 0, |table| - 1, k);
    }
  }

  /** The mask belongs to the opcode and leaves its operands out. */
  ghost predicate OwnMask(op: Opcode) {
    && And(op.code, op.mask) == op.code
    && forall i :: 0 <= i < |op.fields| && !op.fields[i].silent ==>
         Field(op.mask, op.fields[i].shift, op.fields[i].bits) == 0
  }

  lemma {:induction false} PackedMatches(op: Opcode, vs: seq<nat>, n: nat)
    requires OwnMask(op) && Fits(op, vs) && n <= |vs|
    ensures Matches(op, Packed(op, vs, n))
  {
    hide And, Or, Shl, Field;
    if n > 0 {
      PackedMatches(op, vs, n - 1);
      var o := op.fields[n - 1];
      if !o.silent {
        AndOr(Packed(op, vs, n - 1), Shl(vs[n - 1], o.shift), op.mask);
        AndOfShl(vs[n - 1], o.shift, o.bits, op.mask);
        OrZero(op.code);
      }
    }
  }

  /** Whatever is assembled with the k-th opcode of the table is found to be an instruction with that opcode. */
  ghost predicate FoundAgain(memaddr: u32, table: seq<Opcode>, k: nat, s: string, p: nat)
    requires k < |table| && Positive(table[k]) && p <= |s|
  {
    var r := OperandValues(memaddr, table[k], 0, s, p);
    r.Values? ==> Lookup(table, Packed(table[k], r.vs, |r.vs|)) == k
  }

  lemma {:induction false} AssembledIsFound(memaddr: u32, table: seq<Opcode>, k: nat, s: string, p: nat)
    requires Grouped(table) && k < |table| && p <= |s|
    requires WellFormed(table[k]) && Positive(table[k]) && OwnMask(table[k])
    ensures FoundAgain(memaddr, table, k, s, p)
  {
    hide OperandValues, Packed, Grouped, Lookup, OwnMask, WellFormed, Field;
    var op, r := table[k], OperandValues(memaddr, table[k], 0, s, p);
    if r.Values? {
      forall j | 0 <= j < |r.vs| ensures r.vs[j] < Pow2(op.fields[j].bits) {
        ValuesFit(memaddr, op, 0, s, p, j);
      }
      PackedMatches(op, r.vs, |r.vs|);
      PackedIsWord(op, r.vs, |r.vs|);
      WordSize();
      LookupIsMatch(table, Packed(op, r.vs, |r.vs|), k);
    }
  }

  ghost predicate GoodTable(table: seq<Opcode>) {
    Grouped(table) && forall k :: 0 <= k < |table| ==> WellFormed(table[k]) && Positive(table[k]) && OwnMask(table[k])
  }

  /** A line that asmppc assembles is disassembled with the opcode that it names, and with its operands. */
  ghost predicate ReadBack(memaddr: u32, table: seq<Opcode>, s: string)
    requires GoodTable(table)
  {
    var r := Assemble(memaddr, table, s);
    r.Assembled? ==>
      var (word, p) := GetWord(s, 0);
      var k := Lookup(table, r.instr);
      && k < |table| && table[k].name == Lower(word)
      && var values := OperandValues(memaddr, table[k], 0, s, p);
         values.Values? && forall i :: 0 <= i < |table[k].fields| ==>
           Field(r.instr, table[k].fields[i].shift, table[k].fields[i].bits) == Expected(table[k], values.vs, i)
  }

  lemma LineIsReadBack(memaddr: u32, table: seq<Opcode>, s: string)
    requires GoodTable(table)
    ensures ReadBack(memaddr, table, s)
  {
    hide OperandValues, Packed, Grouped, Lookup, OwnMask, WellFormed, Positive, Field, GetWord, ByName, Expected;
    var (word, p) := GetWord(s, 0);
    var k := ByName(table, Lower(word), 0);
    if Assemble(memaddr, table, s).Assembled? {
      AssembledIsFound(memaddr, table, k, s, p);
      forall i | 0 <= i < |table[k].fields|
        ensures var vs := OperandValues(memaddr, table[k], 0, s, p).vs;
                Field(Packed(table[k], vs, |vs|), table[k].fields[i].shift, table[k].fields[i].bits)
                == Expected(table[k], vs, i)
      {
        AssembledOperands(memaddr, table[k], s, p, i);
      }
    }
  }
}
