/** The assembler of bedbug.c: words of a line, operand values, and the packed instruction. */
module BedbugAssembler {
  import opened CString
  import opened BitFields
  import opened Bedbug
  import opened BedbugSpecial

  const E_ASM_BAD_OPCODE := 1
  const E_ASM_NUM_OPERANDS := 2
  const E_ASM_BAD_REGISTER := 3
  const E_ASM_BAD_SPR := 4
  const E_ASM_BAD_TBR := 5

  // ---- words

  predicate IsBlank(c: char) {
    c == ' ' || c == '\t'
  }

  function SkipBlanks(s: string, p: nat): (q: nat)
    requires p <= |s|
    ensures p <= q <= |s|
    decreases |s| - p
  {
    if p < |s| && IsBlank(s[p]) then SkipBlanks(s, p + 1) else p
  }

  function WordEnd(s: string, p: nat): (q: nat)
    requires p <= |s|
    ensures p <= q <= |s|
    decreases |s| - p
  {
    if p < |s| && !IsBlank(s[p]) && s[p] != ',' then WordEnd(s, p + 1) else p
  }

  /** The next word and where reading goes on; a comma behind the word is used up. */
  function GetWord(s: string, p: nat): (r: (string, nat))
    requires p <= |s|
    ensures p <= r.1 <= |s|
  {
    var q := SkipBlanks(s, p);
    var e := WordEnd(s, q);
    (s[q..e], if e < |s| && s[e] == ',' then e + 1 else e)
  }

  // ---- values

  datatype Value = Value(v: nat) | BadValue(err: int)

  /** The digits of a register name: "r5", "R5", "%r5" or "5". */
  function RegisterDigits(txt: string): string {
    if CharAt(txt, 0) == 'r' || CharAt(txt, 0) == 'R' then txt[1..]
    else if CharAt(txt, 0) == '%' && (CharAt(txt, 1) == 'r' || CharAt(txt, 1) == 'R') then txt[2..]
    else txt
  }

  /** parse_operand, before the value is shifted to its place. */
  function OperandValue(memaddr: u32, op: Opcode, o: Operand, txt: string): (r: Value)
    requires 0 < o.bits
    ensures r.Value? ==> r.v < Pow2(o.bits)
  {
    match o.kind
    case Address =>
      var data := ReadNumber(txt);
      Value(Displacement(if op.relative then Signed(data - memaddr) else data, o.bits))
    case Register =>
      var n := ReadNumber(RegisterDigits(txt));
      if n > 31 then BadValue(E_ASM_BAD_REGISTER) else Value(Low(n, o.bits))
    case Special(sprs) =>
      var code := SprValue(sprs, txt);
      if code == 0 then BadValue(E_ASM_BAD_SPR) else Value(Low(code, o.bits))
    case TimeBase =>
      var code := TbrValue(txt);
      if code == 0 then BadValue(E_ASM_BAD_TBR) else Value(Low(code, o.bits))
    case Plain => Value(Low(ReadNumber(txt), o.bits))
  }

  datatype Parsed = Values(vs: seq<nat>) | ParseError(err: int)

  predicate Positive(op: Opcode) {
    forall i :: 0 <= i < |op.fields| ==> 0 < op.fields[i].bits
  }

  /** The values of the operands from the k-th on; a silent one has none and counts as zero. */
  function OperandValues(memaddr: u32, op: Opcode, k: nat, s: string, p: nat): (r: Parsed)
    requires k <= |op.fields| && p <= |s| && Positive(op)
    ensures r.Values? ==> |r.vs| == |op.fields| - k
    decreases |op.fields| - k
  {
    if k == |op.fields| then Values([])
    else if op.fields[k].silent then Prefixed([0], OperandValues(memaddr, op, k + 1, s, p))
    else
      var (word, next) := GetWord(s, p);
      if word == "" then ParseError(E_ASM_NUM_OPERANDS)
      else
        match OperandValue(memaddr, op, op.fields[k], word)
        case BadValue(err) => ParseError(err)
        case Value(v) => Prefixed([v], OperandValues(memaddr, op, k + 1, s, next))
  }

  function Prefixed(vs: seq<nat>, rest: Parsed): Parsed {
    if rest.Values? then Values(vs + rest.vs) else rest
  }

  /** The opcode with the first n values at their places. */
  function Packed(op: Opcode, vs: seq<nat>, n: nat): nat
    requires n <= |vs| && n <= |op.fields|
  {
    if n == 0 then op.code
    else
      var o := op.fields[n - 1];
      if o.silent then Packed(op, vs, n - 1) else Or(Packed(op, vs, n - 1), Shl(vs[n - 1], o.shift))
  }

  datatype Asm = NoText | Assembled(instr: nat) | Failed(err: int)

  /** Number of the first opcode from the k-th on with this name, |table| when there is none. */
  function ByName(table: seq<Opcode>, name: string, k: nat): (r: nat)
    requires k <= |table|
    ensures k <= r <= |table|
    ensures r < |table| ==> table[r].name == name
    ensures forall i :: k <= i < r ==> table[i].name != name
    decreases |table| - k
  {
    if k == |table| || table[k].name == name then k else ByName(table, name, k + 1)
  }

  /** asmppc */
  function Assemble(memaddr: u32, table: seq<Opcode>, s: string): Asm
    requires forall i :: 0 <= i < |table| ==> Positive(table[i])
  {
    var (word, p) := GetWord(s, 0);
    if word == "" then NoText
    else
      var k := ByName(table, Lower(word), 0);
      if k == |table| then Failed(E_ASM_BAD_OPCODE)
      else
        match OperandValues(memaddr, table[k], 0, s, p)
        case ParseError(err) => Failed(err)
        case Values(vs) => Assembled(Packed(table[k], vs, |vs|))
  }

  // ---- every operand is recovered

  /** What an operand of an instruction should read as. */
  function Expected(op: Opcode, vs: seq<nat>, i: nat): nat
    requires i < |op.fields| && |vs| == |op.fields|
  {
    var o := op.fields[i];
    if o.silent then Field(op.code, o.shift, o.bits) else vs[i]
  }

  lemma {:induction false} ValuesFit(memaddr: u32, op: Opcode, k: nat, s: string, p: nat, i: nat)
    requires k <= |op.fields| && p <= |s| && Positive(op)
    ensures var r := OperandValues(memaddr, op, k, s, p);
            r.Values? && i < |r.vs| ==> r.vs[i] < Pow2(op.fields[k + i].bits)
    decreases |op.fields| - k
  {
    hide OperandValue, GetWord;
    if k < |op.fields| {
      var next := if op.fields[k].silent then p else GetWord(s, p).1;
      if i > 0 {
        ValuesFit(memaddr, op, k + 1, s, next, i - 1);
      }
    }
  }

  /** The word of the i-th operand, when reading starts with the k-th one at p. */
  function OperandText(op: Opcode, k: nat, s: string, p: nat, i: nat): string
    requires k <= i < |op.fields| && p <= |s|
    decreases i - k
  {
    if i == k then GetWord(s, p).0
    else OperandText(op, k + 1, s, if op.fields[k].silent then p else GetWord(s, p).1, i)
  }

  /** Every value is the one of the operand's own word. */
  lemma {:induction false} ValueOfText(memaddr: u32, op: Opcode, k: nat, s: string, p: nat, i: nat)
    requires k <= i < |op.fields| && p <= |s| && Positive(op) && !op.fields[i].silent
    ensures var r := OperandValues(memaddr, op, k, s, p);
            r.Values? ==> OperandValue(memaddr, op, op.fields[i], OperandText(op, k, s, p, i)) == Value(r.vs[i - k])
    decreases i - k
  {
    hide OperandValue, GetWord;
    if k < i {
      ValueOfText(memaddr, op, k + 1, s, if op.fields[k].silent then p else GetWord(s, p).1, i);
    }
  }

  ghost predicate Fits(op: Opcode, vs: seq<nat>) {
    |vs| == |op.fields| && forall i :: 0 <= i < |vs| ==> vs[i] < Pow2(op.fields[i].bits)
  }

  lemma FieldApart(op: Opcode, i: nat, j: nat)
    requires WellFormed(op) && i < |op.fields| && j < |op.fields|
    ensures i != j ==> Apart(op.fields[i], op.fields[j])
  {
    if i < j {
      assert Apart(op.fields[i], op.fields[j]);
    } else if j < i {
      assert Apart(op.fields[j], op.fields[i]);
    }
  }

  /** The i-th operand after the first n values have been packed. */
  lemma {:induction false} PackedField(op: Opcode, vs: seq<nat>, n: nat, i: nat)
    requires WellFormed(op) && Fits(op, vs) && n <= |vs| && i < |vs|
    ensures Field(Packed(op, vs, n), op.fields[i].shift, op.fields[i].bits)
            == if i < n then Expected(op, vs, i) else Field(op.code, op.fields[i].shift, op.fields[i].bits)
  {
    hide Field, Or, Shl;
    if n > 0 {
      var o, p := op.fields[i], op.fields[n - 1];
      PackedField(op, vs, n - 1, i);
      if !p.silent {
        FieldOr(Packed(op, vs, n - 1), Shl(vs[n - 1], p.shift), o.shift, o.bits);
        OrZero(Field(Packed(op, vs, n - 1), o.shift, o.bits));
        FieldApart(op, i, n - 1);
        FieldOfShl(vs[n - 1], p.shift, p.bits, o.shift, o.bits);
        if i == n - 1 {
          OrZero(vs[n - 1]);
        }
      }
    }
  }

  lemma WordSize()
    ensures Pow2(32) == U32
  {
    assert Pow2(10) == 1024;
    assert Pow2(20) == 0x10_0000;
  }

  lemma {:induction false} PowGrows(a: nat, b: nat)
    requires a <= b
    ensures Pow2(a) <= Pow2(b)
    decreases b
  {
    if a < b {
      PowGrows(a, b - 1);
    }
  }

  lemma {:induction false} PackedIsWord(op: Opcode, vs: seq<nat>, n: nat)
    requires WellFormed(op) && Fits(op, vs) && n <= |vs|
    ensures Packed(op, vs, n) < Pow2(32)
  {
    hide Or, Shl, Field, Pow2;
    WordSize();
    if n > 0 {
      var p := op.fields[n - 1];
      PackedIsWord(op, vs, n - 1);
      ShlBelow(vs[n - 1], p.bits, p.shift);
      PowGrows(p.bits + p.shift, 32);
      OrBelow(Packed(op, vs, n - 1), Shl(vs[n - 1], p.shift), 32);
    }
  }

  /** Every operand of an assembled instruction is recovered from it, the silent ones from the opcode. */
  lemma AssembledOperands(memaddr: u32, op: Opcode, s: string, p: nat, i: nat)
    requires WellFormed(op) && Positive(op) && p <= |s| && i < |op.fields|
    ensures var r := OperandValues(memaddr, op, 0, s, p);
            r.Values? ==>
              && Packed(op, r.vs, |r.vs|) < U32
              && Field(Packed(op, r.vs, |r.vs|), op.fields[i].shift, op.fields[i].bits) == Expected(op, r.vs, i)
  {
    hide Field, OperandValues, Packed;
    var r := OperandValues(memaddr, op, 0, s, p);
    if r.Values? {
      forall j | 0 <= j < |r.vs| ensures r.vs[j] < Pow2(op.fields[j].bits) {
        ValuesFit(memaddr, op, 0, s, p, j);
      }
      PackedField(op, r.vs, |r.vs|, i);
      PackedIsWord(op, r.vs, |r.vs|);
      WordSize();
    }
  }
}
