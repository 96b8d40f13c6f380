/** Lines for the assembler, as words with blanks and commas between them, and what becomes of each word. */
module BedbugLines {
  import opened CString
  import opened Bedbug
  import opened BedbugAssembler

  predicate Blanks(t: string) {
    forall i :: 0 <= i < |t| ==> t[i] in {' ', '\t'}
  }

  predicate IsWord(t: string) {
    t != "" && forall i :: 0 <= i < |t| ==> t[i] !in {' ', '\t', ','}
  }

  /** Behind position p the text consists of these words. A word ends at a blank, a comma or the end, and one comma
      right behind it belongs to it. */
  ghost predicate Spelled(s: string, p: nat, ws: seq<string>)
    decreases |ws|
  {
    p <= |s| &&
    if ws == [] then Blanks(s[p..]) || (exists q :: p <= q < |s| && s[q] == ',' && Blanks(s[p..q]))
    else exists q :: p <= q && WordAt(s, p, q, ws[0]) && Spelled(s, Behind(s, q + |ws[0]|), ws[1..])
  }

  predicate WordAt(s: string, p: nat, q: nat, word: string) {
    && p <= q && q + |word| <= |s| && Blanks(s[p..q]) && IsWord(word) && s[q..q + |word|] == word
    && (q + |word| == |s| || s[q + |word|] in {' ', '\t', ','})
  }

  function Behind(s: string, e: nat): nat {
    if CharAt(s, e) == ',' then e + 1 else e
  }

  // ---- words

  lemma {:induction false} BlanksAreSkipped(s: string, p: nat, q: nat)
    requires p <= q <= |s| && Blanks(s[p..q]) && (q < |s| ==> s[q] !in {' ', '\t'})
    ensures SkipBlanks(s, p) == q
    decreases q - p
  {
    if p < q {
      assert s[p] == s[p..q][0];
      var rest := s[p + 1..q];
      forall i | 0 <= i < |rest| ensures rest[i] in {' ', '\t'} {
        assert rest[i] == s[p..q][i + 1];
      }
      BlanksAreSkipped(s, p + 1, q);
    }
  }

  lemma {:induction false} WordIsEnded(s: string, q: nat, e: nat)
    requires q <= e <= |s| && (forall i :: q <= i < e ==> s[i] !in {' ', '\t', ','})
    requires e == |s| || s[e] in {' ', '\t', ','}
    ensures WordEnd(s, q) == e
    decreases e - q
  {
    if q < e {
      WordIsEnded(s, q + 1, e);
    }
  }

  lemma WordIsRead(s: string, p: nat, q: nat, word: string)
    requires WordAt(s, p, q, word)
    ensures GetWord(s, p) == (word, Behind(s, q + |word|)) && word != ""
  {
    forall i | q <= i < q + |word| ensures s[i] !in {' ', '\t', ','} {
      assert s[i] == s[q..q + |word|][i - q];
    }
    BlanksAreSkipped(s, p, q);
    WordIsEnded(s, q, q + |word|);
  }

  lemma NothingIsRead(s: string, p: nat)
    requires Spelled(s, p, [])
    ensures GetWord(s, p).0 == ""
  {
    if Blanks(s[p..]) {
      assert s[p..] == s[p..|s|];
      BlanksAreSkipped(s, p, |s|);
    } else {
      var q :| p <= q < |s| && s[q] == ',' && Blanks(s[p..q]);
      BlanksAreSkipped(s, p, q);
    }
  }

  lemma FirstIsRead(s: string, p: nat, ws: seq<string>)
    requires Spelled(s, p, ws) && ws != []
    ensures GetWord(s, p).0 == ws[0] != "" && Spelled(s, GetWord(s, p).1, ws[1..])
  {
    hide GetWord, WordAt, Behind, Blanks;
    var q :| p <= q && WordAt(s, p, q, ws[0]) && Spelled(s, Behind(s, q + |ws[0]|), ws[1..]);
    WordIsRead(s, p, q, ws[0]);
  }

  // ---- operands

  /** The word that belongs to the i-th operand when the k-th one has the first word: silent ones have none. */
  function WordOf(op: Opcode, k: nat, i: nat): nat
    requires k <= i <= |op.fields|
  {
    if k == i then 0 else WordOf(op, k, i - 1) + if op.fields[i - 1].silent then 0 else 1
  }

  lemma {:induction false} WordOfTail(op: Opcode, k: nat, i: nat)
    requires k < i <= |op.fields|
    ensures WordOf(op, k, i) == WordOf(op, k + 1, i) + if op.fields[k].silent then 0 else 1
    decreases i
  {
    if k + 1 < i {
      WordOfTail(op, k, i - 1);
    }
  }

  /** The i-th operand has a word, and a value in it. */
  ghost predicate Given(memaddr: u32, op: Opcode, k: nat, ws: seq<string>, i: nat)
    requires k <= i < |op.fields| && Positive(op)
  {
    op.fields[i].silent
    || (WordOf(op, k, i) < |ws| && OperandValue(memaddr, op, op.fields[i], ws[WordOf(op, k, i)]).Value?)
  }

  function ErrorOf(memaddr: u32, op: Opcode, k: nat, ws: seq<string>, i: nat): int
    requires k <= i < |op.fields| && Positive(op)
  {
    if |ws| <= WordOf(op, k, i) then 2
    else
      var v := OperandValue(memaddr, op, op.fields[i], ws[WordOf(op, k, i)]);
      if v.BadValue? then v.err else 0
  }

  /** The value of the i-th operand is that of its word. */
  ghost predicate HasValue(memaddr: u32, op: Opcode, k: nat, ws: seq<string>, i: nat, vs: seq<nat>)
    requires k <= i < |op.fields| && Positive(op) && |vs| == |op.fields| - k
  {
    op.fields[i].silent
    || (WordOf(op, k, i) < |ws| && OperandValue(memaddr, op, op.fields[i], ws[WordOf(op, k, i)]) == Value(vs[i - k]))
  }

  /** The values are those of the words in their order. */
  ghost predicate ValuesOfWords(memaddr: u32, op: Opcode, k: nat, ws: seq<string>, vs: seq<nat>)
    requires k <= |op.fields| && Positive(op)
  {
    |vs| == |op.fields| - k && forall i :: k <= i < |op.fields| ==> HasValue(memaddr, op, k, ws, i, vs)
  }

  /** What is left of the words behind the k-th operand. */
  function Rest(op: Opcode, k: nat, ws: seq<string>): seq<string>
    requires k < |op.fields| && (op.fields[k].silent || ws != [])
  {
    if op.fields[k].silent then ws else ws[1..]
  }

  lemma GivenTail(memaddr: u32, op: Opcode, k: nat, ws: seq<string>, i: nat, next: nat)
    requires next == k + 1 <= i < |op.fields| && Positive(op) && (op.fields[k].silent || ws != [])
    ensures Given(memaddr, op, k, ws, i) <==> Given(memaddr, op, next, Rest(op, k, ws), i)
    ensures ErrorOf(memaddr, op, k, ws, i) == ErrorOf(memaddr, op, next, Rest(op, k, ws), i)
    ensures WordOf(op, k, i) == WordOf(op, next, i) + if op.fields[k].silent then 0 else 1
  {
    hide OperandValue;
    WordOfTail(op, k, i);
  }

  lemma ValueTail(memaddr: u32, op: Opcode, k: nat, ws: seq<string>, i: nat, next: nat, v: nat, vs: seq<nat>)
    requires next == k + 1 <= i < |op.fields| && Positive(op) && (op.fields[k].silent || ws != [])
    requires |vs| == |op.fields| - next
    ensures HasValue(memaddr, op, k, ws, i, [v] + vs) <==> HasValue(memaddr, op, next, Rest(op, k, ws), i, vs)
  {
    hide OperandValue;
    WordOfTail(op, k, i);
  }

  lemma FirstValue(memaddr: u32, op: Opcode, k: nat, ws: seq<string>, v: nat, vs: seq<nat>)
    requires k < |op.fields| && Positive(op) && (op.fields[k].silent || ws != []) && |vs| == |op.fields| - k - 1
    requires op.fields[k].silent || OperandValue(memaddr, op, op.fields[k], ws[0]) == Value(v)
    ensures HasValue(memaddr, op, k, ws, k, [v] + vs)
  {
    hide OperandValue;
  }

  lemma ValuesTail(memaddr: u32, op: Opcode, k: nat, ws: seq<string>, next: nat, v: nat, vs: seq<nat>)
    requires next == k + 1 <= |op.fields| && Positive(op) && (op.fields[k].silent || ws != [])
    requires op.fields[k].silent || OperandValue(memaddr, op, op.fields[k], ws[0]) == Value(v)
    requires ValuesOfWords(memaddr, op, next, Rest(op, k, ws), vs)
    ensures ValuesOfWords(memaddr, op, k, ws, [v] + vs)
  {
    hide OperandValue, HasValue, Rest, Positive;
    var all := [v] + vs;
    forall i | k <= i < |op.fields| ensures HasValue(memaddr, op, k, ws, i, all) {
      if k < i {
        ValueTail(memaddr, op, k, ws, i, next, v, vs);
        assert HasValue(memaddr, op, next, Rest(op, k, ws), i, vs);
      } else {
        FirstValue(memaddr, op, k, ws, v, vs);
      }
    }
  }

  lemma NoValues(memaddr: u32, op: Opcode, ws: seq<string>)
    requires Positive(op)
    ensures ValuesOfWords(memaddr, op, |op.fields|, ws, [])
  {
  }

  lemma GivenFirst(memaddr: u32, op: Opcode, k: nat, ws: seq<string>) returns (v: nat)
    requires k < |op.fields| && Positive(op) && Given(memaddr, op, k, ws, k)
    ensures if op.fields[k].silent then v == 0
            else ws != [] && OperandValue(memaddr, op, op.fields[k], ws[0]) == Value(v)
  {
    hide OperandValue;
    v := if op.fields[k].silent then 0 else OperandValue(memaddr, op, op.fields[k], ws[0]).v;
  }

  /** Every operand gets its own word; a line with enough words, all of them good, gives all the values. */
  lemma {:induction false} WordsAreValues(memaddr: u32, op: Opcode, k: nat, s: string, p: nat, ws: seq<string>)
    requires k <= |op.fields| && p <= |s| && Positive(op) && Spelled(s, p, ws)
    requires forall i :: k <= i < |op.fields| ==> Given(memaddr, op, k, ws, i)
    ensures var r := OperandValues(memaddr, op, k, s, p); r.Values? && ValuesOfWords(memaddr, op, k, ws, r.vs)
    decreases |op.fields| - k
  {
    hide OperandValue, GetWord, Spelled, Given, HasValue, ValuesOfWords;
    if k == |op.fields| {
      NoValues(memaddr, op, ws);
    } else {
      var silent := op.fields[k].silent;
      assert Given(memaddr, op, k, ws, k);
      var v := GivenFirst(memaddr, op, k, ws);
      if !silent {
        FirstIsRead(s, p, ws);
      }
      var next, rest, q := k + 1, Rest(op, k, ws), if silent then p else GetWord(s, p).1;
      forall i | next <= i < |op.fields| ensures Given(memaddr, op, next, rest, i) {
        GivenTail(memaddr, op, k, ws, i, next);
        assert Given(memaddr, op, k, ws, i);
      }
      WordsAreValues(memaddr, op, next, s, q, rest);
      ValuesTail(memaddr, op, k, ws, next, v, OperandValues(memaddr, op, next, s, q).vs);
    }
  }

  /** The first operand without a good word gives the error: 2 for a missing word, otherwise that of the word. */
  lemma {:induction false} FirstBadWord(memaddr: u32, op: Opcode, k: nat, s: string, p: nat, ws: seq<string>, n: nat)
    requires k <= n < |op.fields| && Positive(op) && Spelled(s, p, ws)
    requires !Given(memaddr, op, k, ws, n) && forall i :: k <= i < n ==> Given(memaddr, op, k, ws, i)
    ensures OperandValues(memaddr, op, k, s, p) == ParseError(ErrorOf(memaddr, op, k, ws, n))
    decreases n - k
  {
    hide OperandValue, GetWord, Spelled;
    if ws == [] {
      NothingIsRead(s, p);
    } else {
      FirstIsRead(s, p, ws);
    }
    if k < n {
      assert Given(memaddr, op, k, ws, k);
      var next, rest := k + 1, Rest(op, k, ws);
      GivenTail(memaddr, op, k, ws, n, next);
      forall i | next <= i < n ensures Given(memaddr, op, next, rest, i) {
        GivenTail(memaddr, op, k, ws, i, next);
        assert Given(memaddr, op, k, ws, i);
      }
      FirstBadWord(memaddr, op, next, s, if op.fields[k].silent then p else GetWord(s, p).1, rest, n);
    }
  }

  // ---- whole lines

  /** Capital letters become small ones, and everything else stays. */
  lemma LowerIs(s: string, i: nat, k: nat)
    requires i < |s| && k < 26
    ensures s[i] as int == 'A' as int + k ==> Lower(s)[i] as int == 'a' as int + k
    ensures s[i] < 'A' || 'Z' < s[i] ==> Lower(s)[i] == s[i]
  {
  }

  /** A line without words, and one with a name that the table does not have. */
  lemma NoOpcode(memaddr: u32, table: seq<Opcode>, s: string, ws: seq<string>)
    requires (forall i :: 0 <= i < |table| ==> Positive(table[i])) && Spelled(s, 0, ws)
    requires ws != [] ==> forall k :: 0 <= k < |table| ==> table[k].name != Lower(ws[0])
    ensures Assemble(memaddr, table, s) == if ws == [] then NoText else Failed(1)
  {
    hide GetWord, Spelled, Lower;
    if ws == [] {
      NothingIsRead(s, 0);
    } else {
      FirstIsRead(s, 0, ws);
    }
  }

  /** The entry is the first one with this name. */
  ghost predicate NamedFirst(table: seq<Opcode>, k: nat, name: string) {
    k < |table| && table[k].name == name && forall j :: 0 <= j < k ==> table[j].name != name
  }

  lemma ByNameIs(table: seq<Opcode>, k: nat, name: string)
    requires NamedFirst(table, k, name)
    ensures ByName(table, name, 0) == k
  {
    var r := ByName(table, name, 0);
  }

  /** A line with the name of an opcode, in letters of any case, and words for all its operands. */
  lemma LineIsAssembled(memaddr: u32, table: seq<Opcode>, s: string, ws: seq<string>, k: nat)
    requires (forall i :: 0 <= i < |table| ==> Positive(table[i])) && ws != [] && Spelled(s, 0, ws)
    requires NamedFirst(table, k, Lower(ws[0]))
    requires forall i :: 0 <= i < |table[k].fields| ==> Given(memaddr, table[k], 0, ws[1..], i)
    ensures exists vs :: ValuesOfWords(memaddr, table[k], 0, ws[1..], vs)
                         && Assemble(memaddr, table, s) == Assembled(Packed(table[k], vs, |vs|))
  {
    hide OperandValues, GetWord, Spelled, Packed, Lower, Given, ValuesOfWords;
    FirstIsRead(s, 0, ws);
    ByNameIs(table, k, Lower(ws[0]));
    WordsAreValues(memaddr, table[k], 0, s, GetWord(s, 0).1, ws[1..]);
  }

  /** A line with a missing or bad operand: the first such operand gives the error. */
  lemma LineFails(memaddr: u32, table: seq<Opcode>, s: string, ws: seq<string>, k: nat, n: nat)
    requires (forall i :: 0 <= i < |table| ==> Positive(table[i])) && ws != [] && Spelled(s, 0, ws)
    requires NamedFirst(table, k, Lower(ws[0])) && n < |table[k].fields|
    requires !Given(memaddr, table[k], 0, ws[1..], n)
    requires forall i :: 0 <= i < n ==> Given(memaddr, table[k], 0, ws[1..], i)
    ensures Assemble(memaddr, table, s) == Failed(ErrorOf(memaddr, table[k], 0, ws[1..], n))
  {
    hide OperandValues, GetWord, Spelled, Packed, Lower, Given, ErrorOf;
    FirstIsRead(s, 0, ws);
    ByNameIs(table, k, Lower(ws[0]));
    FirstBadWord(memaddr, table[k], 0, s, GetWord(s, 0).1, ws[1..], n);
  }
}
