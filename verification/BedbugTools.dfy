/** The routines of bedbug.c that assemble an instruction, read its operands and follow its branches. */
module BedbugTools {
  import opened CString
  import opened BitFields
  import opened Bedbug
  import opened BedbugAssembler

  // ---- assembling

  method NextWord(s: string, start: nat) returns (word: string, p: nat)
    requires start <= |s|
    ensures (word, p) == GetWord(s, start)
  {
    p := start;
    while p < |s| && IsBlank(s[p])
      invariant start <= p <= |s| && SkipBlanks(s, p) == SkipBlanks(s, start)
    {
      p := p + 1;
    }
    var first := p;
    while p < |s| && !IsBlank(s[p]) && s[p] != ','
      invariant first <= p <= |s| && WordEnd(s, p) == WordEnd(s, first)
    {
      p := p + 1;
    }
    word := s[first..p];
    if p < |s| && s[p] == ',' {
      p := p + 1;
    }
  }

  method FindByName(table: seq<Opcode>, name: string) returns (idx: nat)
    ensures idx == ByName(table, name, 0)
  {
    idx := 0;
    while idx < |table|
      invariant idx <= |table| && ByName(table, name, idx) == ByName(table, name, 0)
    {
      if table[idx].name == name {
        return;
      }
      idx := idx + 1;
    }
  }

  lemma PrefixedTwice(vs: seq<nat>, v: nat, rest: Parsed)
    ensures Prefixed(vs, Prefixed([v], rest)) == Prefixed(vs + [v], rest)
  {
    if rest.Values? {
      assert vs + ([v] + rest.vs) == vs + [v] + rest.vs;
    }
  }

  lemma {:induction false} SamePacked(op: Opcode, vs: seq<nat>, v: nat, n: nat)
    requires n <= |vs| && n <= |op.fields|
    ensures Packed(op, vs + [v], n) == Packed(op, vs, n)
  {
    hide Or, Shl;
    if n > 0 {
      SamePacked(op, vs, v, n - 1);
    }
  }

  lemma PackedStep(op: Opcode, vs: seq<nat>, v: nat)
    requires |vs| < |op.fields|
    ensures var o, n := op.fields[|vs|], |vs|;
            Packed(op, vs + [v], n + 1) ==
            if o.silent then Packed(op, vs, n) else Or(Packed(op, vs, n), Shl(v, o.shift))
  {
    hide Or, Shl;
    SamePacked(op, vs, v, |vs|);
  }

  /** The loop over the operands of one opcode. */
  method PackOperands(memaddr: u32, op: Opcode, s: string, start: nat) returns (r: Asm)
    requires start <= |s| && Positive(op)
    ensures match OperandValues(memaddr, op, 0, s, start)
            case ParseError(err) => r == Failed(err)
            case Values(vs) => r == Assembled(Packed(op, vs, |vs|))
  {
    hide OperandValue, GetWord, Or, Shl;
    var instr: nat, n: nat, p: nat := op.code, 0, start;
    ghost var vs: seq<nat> := [];
    ghost var all := OperandValues(memaddr, op, 0, s, start);
    assert all == Prefixed([], all);
    while n < |op.fields|
      invariant n <= |op.fields| && p <= |s| && |vs| == n
      invariant all == Prefixed(vs, OperandValues(memaddr, op, n, s, p))
      invariant instr == Packed(op, vs, n)
    {
      var o := op.fields[n];
      var v: nat := 0;
      if !o.silent {
        var word, next := NextWord(s, p);
        if word == "" {
          return Failed(E_ASM_NUM_OPERANDS);
        }
        var value := OperandValue(memaddr, op, o, word);
        if value.BadValue? {
          return Failed(value.err);
        }
        v, p := value.v, next;
        instr := Or(instr, Shl(v, o.shift));
      }
      PackedStep(op, vs, v);
      PrefixedTwice(vs, v, OperandValues(memaddr, op, n + 1, s, p));
      vs := vs + [v];
      n := n + 1;
    }
    assert vs + [] == vs;
    return Assembled(instr);
  }

  method AsmPpc(memaddr: u32, table: seq<Opcode>, s: string) returns (r: Asm)
    requires forall i :: 0 <= i < |table| ==> Positive(table[i])
    ensures r == Assemble(memaddr, table, s)
  {
    hide OperandValues, Packed, GetWord, ByName;
    var word, p := NextWord(s, 0);
    if word == "" {
      return NoText;
    }
    var k := FindByName(table, Lower(word));
    if k == |table| {
      return Failed(E_ASM_BAD_OPCODE);
    }
    r := PackOperands(memaddr, table[k], s, p);
  }

  // ---- reading operands

  /** Number of the first operand from the k-th on with a name. */
  function IndexOf(op: Opcode, name: Name, k: nat): (r: nat)
    requires k <= |op.fields|
    ensures k <= r <= |op.fields|
    ensures r < |op.fields| ==> op.fields[r].name == name
    ensures forall i :: k <= i < r ==> op.fields[i].name != name
    decreases |op.fields| - k
  {
    if k == |op.fields| || op.fields[k].name == name then k else IndexOf(op, name, k + 1)
  }

  predicate HasOperand(op: Opcode, name: Name) {
    IndexOf(op, name, 0) < |op.fields|
  }

  /** The value of a named operand. */
  function OperandOf(op: Opcode, instr: nat, name: Name): nat
    requires HasOperand(op, name)
  {
    var o := op.fields[IndexOf(op, name, 0)];
    Field(instr, o.shift, o.bits)
  }

  method GetOperandValue(op: Opcode, instr: nat, name: Name) returns (ok: bool, value: nat)
    ensures ok == HasOperand(op, name) && (ok ==> value == OperandOf(op, instr, name))
  {
    var i: nat := 0;
    while i < |op.fields|
      invariant i <= |op.fields| && IndexOf(op, name, i) == IndexOf(op, name, 0)
    {
      if op.fields[i].name == name {
        return true, Field(instr, op.fields[i].shift, op.fields[i].bits);
      }
      i := i + 1;
    }
    return false, 0;
  }

  /** The address that print_operands shows for an address operand. */
  function ShownTarget(op: Opcode, instr: nat, i: nat, virtual: u32): u32
    requires i < |op.fields| && 0 < op.fields[i].bits
  {
    var o := op.fields[i];
    Target(Field(instr, o.shift, o.bits), o.bits, if op.relative then virtual else 0)
  }

  /** The distance that parse_operand puts into an address operand. */
  function Distance(memaddr: u32, op: Opcode, txt: string): int {
    if op.relative then Signed(ReadNumber(txt) - memaddr) else ReadNumber(txt)
  }

  lemma NumberIsSigned(txt: string)
    ensures -0x8000_0000 <= ReadNumber(txt) < 0x8000_0000
  {
    hide Strtoul;
  }

  lemma SignedWraps(x: int, base: u32)
    ensures Signed(x % U32 - base) == Signed(x - base)
    ensures -0x8000_0000 <= x < 0x8000_0000 ==> Signed(x) == x
  {
  }

  /** An assembled address is shown again at the same place exactly if its distance is a
      number of whole words that fits the operand. */
  lemma BranchIsShownAgain(memaddr: u32, op: Opcode, instr: nat, i: nat, txt: string)
    requires i < |op.fields| && 0 < op.fields[i].bits <= 30 && op.fields[i].kind == Address
    requires OperandValue(memaddr, op, op.fields[i], txt) == Value(Field(instr, op.fields[i].shift, op.fields[i].bits))
    ensures var distance, bits := Distance(memaddr, op, txt), op.fields[i].bits;
            ShownTarget(op, instr, i, memaddr) == ReadNumber(txt) % U32
            <==> distance % 4 == 0 && -2 * (Pow2(bits) as int) <= distance < 2 * Pow2(bits)
  {
    hide Field, Displacement, Target, ReadNumber;
    var base := if op.relative then memaddr else 0;
    var number := ReadNumber(txt);
    NumberIsSigned(txt);
    BranchReadBack(number % U32, base, op.fields[i].bits);
    SignedWraps(number, base);
    SignedWraps(number, 0);
  }
}
