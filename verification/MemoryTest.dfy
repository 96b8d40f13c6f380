/** The strided read/invert memory test of cmd_mem.c, over memories that may be faulty.

    Offsets are counted in 4-byte words; word w of the tested range has the
    address start + 4w. A word is the sequence of its 32 bits.
  */
module MemoryTest {
  import opened BitFields

  type Word = x: seq<bool> | |x| == 32 witness seq(32, _ => false)

  function Not(x: Word): Word {
    seq(32, i requires 0 <= i < 32 => !x[i])
  }

  function Xor(x: Word, y: Word): Word {
    seq(32, i requires 0 <= i < 32 => x[i] != y[i])
  }

  function Bit(n: nat, i: nat): bool {
    if i == 0 then n % 2 == 1 else Bit(n / 2, i - 1)
  }

  function Bits(n: nat): Word {
    seq(32, i requires 0 <= i < 32 => Bit(n, i))
  }

  /** How the tested words reach storage: the address decoder, and the bits of
      every cell that always read as one or as zero. */
  datatype Ram = Ram(cellOf: seq<nat>, ones: seq<Word>, zeros: seq<Word>)

  /** n words of the range are backed by the cells. */
  ghost predicate Backed(ram: Ram, n: nat, cells: nat) {
    && |ram.ones| == |ram.zeros| == cells && n <= |ram.cellOf|
    && forall w :: 0 <= w < n ==> ram.cellOf[w] < cells
  }

  function Sense(stored: Word, ones: Word, zeros: Word): Word {
    seq(32, i requires 0 <= i < 32 => (stored[i] || ones[i]) && !zeros[i])
  }

  predicate NoStuckBits(ones: Word, zeros: Word) {
    forall i :: 0 <= i < 32 ==> !ones[i] && !zeros[i]
  }

  /** No cell that the range uses has a stuck bit. */
  ghost predicate Clean(ram: Ram, n: nat, cells: nat)
    requires Backed(ram, n, cells)
  {
    forall w :: 0 <= w < n ==> NoStuckBits(ram.ones[ram.cellOf[w]], ram.zeros[ram.cellOf[w]])
  }

  /** No two words of the range share a cell. */
  ghost predicate Injective(ram: Ram, n: nat)
    requires n <= |ram.cellOf|
  {
    forall u, w :: 0 <= u < w < n ==> ram.cellOf[u] != ram.cellOf[w]
  }

  /** What the test expects in word w. */
  function Expected(addAsData: bool, pattern: Word, start: nat, w: nat): Word {
    if addAsData then Xor(pattern, Bits(start + 4 * w)) else pattern
  }

  /** The number that bits stand for, the lowest one first. */
  function Number(x: seq<bool>): nat {
    if x == [] then 0 else (if x[0] then 1 else 0) + 2 * Number(x[1..])
  }

  lemma {:induction false} NumberOf(n: nat, x: seq<bool>)
    requires n < Pow2(|x|) && forall i :: 0 <= i < |x| ==> x[i] == Bit(n, i)
    ensures Number(x) == n
    decreases |x|
  {
    if x != [] {
      assert x[0] == Bit(n, 0);
      forall i | 0 <= i < |x| - 1 ensures x[1..][i] == Bit(n / 2, i) {
        assert x[i + 1] == Bit(n, i + 1);
      }
      NumberOf(n / 2, x[1..]);
    }
  }

  lemma NoBitsOfZero(i: nat)
    ensures !Bit(0, i)
  {
  }

  /** A word is filled with the pattern as it was given, and with pattern 0 and the address as data, with its
      own address. */
  lemma FillIsNumber(pattern: nat, start: nat, w: nat)
    requires pattern < 0x1_0000_0000 && start + 4 * w < 0x1_0000_0000
    ensures Number(Expected(false, Bits(pattern), start, w)) == pattern
    ensures Number(Expected(true, Bits(0), start, w)) == start + 4 * w
  {
    hide Bit;
    assert Pow2(10) == 1024;
    assert Pow2(20) == 0x10_0000;
    assert Pow2(32) == 0x1_0000_0000;
    NumberOf(pattern, Bits(pattern));
    var x := Expected(true, Bits(0), start, w);
    forall i | 0 <= i < 32 ensures x[i] == Bit(start + 4 * w, i) {
      NoBitsOfZero(i);
    }
    NumberOf(start + 4 * w, x);
  }

  /** Aligned addresses agree in the lowest bit, so no word is mistaken for another one's inverse. */
  lemma InverseDiffers(add: bool, pattern: Word, start: nat, u: nat, w: nat)
    requires start % 4 == 0
    ensures Not(Expected(add, pattern, start, u)) != Expected(add, pattern, start, w)
  {
    assert Bit(start + 4 * u, 0) == Bit(start + 4 * w, 0);
    assert Not(Expected(add, pattern, start, u))[0] != Expected(add, pattern, start, w)[0];
  }

  lemma InvertedPattern(add: bool, pattern: Word, start: nat, w: nat)
    ensures Expected(add, Not(pattern), start, w) == Not(Expected(add, pattern, start, w))
  {
    hide Bit;
  }

  lemma NotNot(x: Word)
    ensures Not(Not(x)) == x
  {
  }

  /** A cell that has shown a word and its inverse has no stuck bit. */
  lemma ShowsBoth(e: Word, ones: Word, zeros: Word)
    requires Sense(e, ones, zeros) == e && Sense(Not(e), ones, zeros) == Not(e)
    ensures NoStuckBits(ones, zeros)
  {
    forall i | 0 <= i < 32 ensures !ones[i] && !zeros[i] {
      assert Sense(e, ones, zeros)[i] == e[i] && Sense(Not(e), ones, zeros)[i] == Not(e)[i];
    }
  }

  lemma SenseTwice(x: Word, ones: Word, zeros: Word)
    ensures Sense(Sense(x, ones, zeros), ones, zeros) == Sense(x, ones, zeros)
    ensures NoStuckBits(ones, zeros) ==> Sense(x, ones, zeros) == x
  {
  }

  // ---- the visiting order

  /** w modulo st */
  function Residue(w: nat, st: nat): (r: nat)
    requires st > 0
    ensures r < st && r <= w
  {
    if w < st then w else Residue(w - st, st)
  }

  /** Words that a sweep has passed: all residues below o, and residue o below i. */
  predicate Passed(st: nat, o: nat, i: nat, w: nat)
    requires st > 0
  {
    Residue(w, st) < o || (Residue(w, st) == o && w < i)
  }

  lemma {:induction false} SameResidue(st: nat, i: nat, w: nat)
    requires st > 0 && Residue(w, st) == Residue(i, st) && i <= w < i + st
    ensures w == i
  {
    if i >= st {
      SameResidue(st, i - st, w - st);
    }
  }

  /** Going on by one stride passes exactly one more word. */
  lemma PassOne(st: nat, o: nat, i: nat, w: nat)
    requires st > 0 && Residue(i, st) == o
    ensures Passed(st, o, i + st, w) <==> Passed(st, o, i, w) || w == i
    ensures !Passed(st, o, i, i)
    ensures Residue(i + st, st) == o
  {
    if Residue(w, st) == o && i <= w < i + st {
      SameResidue(st, i, w);
    }
  }

  // ---- the memory

  datatype Access = Read(w: nat) | Write(w: nat)

  /** The tested memory; the log keeps every access to it. */
  class Memory {
    const ram: Ram
    const cells: array<Word>
    ghost var log: seq<Access>

    constructor (ram: Ram, cells: array<Word>)
      ensures this.ram == ram && this.cells == cells && log == []
    {
      this.ram, this.cells := ram, cells;
      log := [];
    }

    ghost predicate Backs(n: nat)
      reads this
    {
      Backed(ram, n, cells.Length)
    }

    /** No stuck bit, and no two words in one cell. */
    ghost predicate Faultless(n: nat)
      requires Backs(n)
      reads this
    {
      Clean(ram, n, cells.Length) && Injective(ram, n)
    }

    method Load(ghost n: nat, w: nat) returns (x: Word)
      requires Backs(n) && w < n
      modifies this`log
      ensures var c := ram.cellOf[w]; x == Sense(cells[c], ram.ones[c], ram.zeros[c])
      ensures log == old(log) + [Read(w)]
    {
      hide Sense;
      log := log + [Read(w)];
      var c := ram.cellOf[w];
      x := Sense(cells[c], ram.ones[c], ram.zeros[c]);
    }

    method Store(ghost n: nat, w: nat, x: Word)
      requires Backs(n) && w < n
      modifies this`log, cells
      ensures cells[..] == old(cells[..])[ram.cellOf[w] := x]
      ensures log == old(log) + [Write(w)]
    {
      log := log + [Write(w)];
      cells[ram.cellOf[w]] := x;
    }
  }

  /** The accesses of a sweep that visits words in this order: each one is read, and then written. */
  ghost function Visits(order: seq<nat>): seq<Access> {
    if order == [] then []
    else Visits(order[..|order| - 1]) + [Read(order[|order| - 1]), Write(order[|order| - 1])]
  }

  lemma VisitsMore(order: seq<nat>, w: nat)
    ensures Visits(order + [w]) == Visits(order) + [Read(w)] + [Write(w)]
  {
    assert (order + [w])[..|order|] == order;
  }

  lemma NoVisits()
    ensures Visits([]) == []
  {
  }

  // ---- one sweep

  ghost predicate Stored(ram: Ram, cells: seq<Word>, w: nat, x: Word)
    requires w < |ram.cellOf| && ram.cellOf[w] < |cells|
  {
    cells[ram.cellOf[w]] == x
  }

  /** State of a sweep that has found no error so far, for a range without stuck bits:
      the passed words have cells of their own, which hold the inverse. */
  ghost predicate SweepState(ram: Ram, cells: seq<Word>, n: nat, passed: set<nat>, add: bool, pattern: Word, start: nat)
    requires Backed(ram, n, |cells|)
  {
    && (forall u :: u in passed ==> u < n && Stored(ram, cells, u, Not(Expected(add, pattern, start, u))))
    && (forall u, w :: u in passed && w in passed && u != w ==> ram.cellOf[u] != ram.cellOf[w])
    && (Injective(ram, n) ==>
          forall w :: 0 <= w < n && w !in passed ==> Stored(ram, cells, w, Expected(add, pattern, start, w)))
  }

  /** What a visit without a complaint has shown about the cell of a word. */
  ghost predicate Shown(ram: Ram, n: nat, cells: nat, w: nat, e: Word)
    requires Backed(ram, n, cells) && w < n
  {
    Sense(e, ram.ones[ram.cellOf[w]], ram.zeros[ram.cellOf[w]]) == e
  }

  /** One visit: read, compare, write the inverse. */
  lemma VisitStep(ram: Ram, cells: seq<Word>, n: nat, passed: set<nat>, add: bool, pattern: Word, start: nat, w: nat)
    requires Backed(ram, n, |cells|) && Clean(ram, n, |cells|) && start % 4 == 0
    requires SweepState(ram, cells, n, passed, add, pattern, start) && w < n && w !in passed
    ensures var c := ram.cellOf[w];
            var e := Expected(add, pattern, start, w);
            && (Injective(ram, n) ==> Sense(cells[c], ram.ones[c], ram.zeros[c]) == e)
            && (Sense(cells[c], ram.ones[c], ram.zeros[c]) == e ==>
                  SweepState(ram, cells[c := Not(e)], n, passed + {w}, add, pattern, start))
  {
    hide Expected, NoStuckBits, Sense;
    var c := ram.cellOf[w];
    SenseTwice(cells[c], ram.ones[c], ram.zeros[c]);
    if u :| u in passed && ram.cellOf[u] == c {
      InverseDiffers(add, pattern, start, u, w);
    }
  }

  ghost predicate EachOnce(order: seq<nat>, n: nat) {
    && (forall w: nat :: w in order <==> w < n)
    && (forall i, j :: 0 <= i < j < |order| ==> order[i] != order[j])
  }

  ghost function Range(n: nat): (r: set<nat>)
    ensures forall w: nat :: w in r <==> w < n
  {
    if n == 0 then {} else Range(n - 1) + {n - 1}
  }

  /** The words passed so far, each visited once. */
  ghost predicate Progress(st: nat, o: nat, i: nat, n: nat, passed: set<nat>, order: seq<nat>)
    requires st > 0
  {
    && (forall w: nat :: w in passed <==> w < n && Passed(st, o, i, w))
    && (forall w: nat :: w in order <==> w in passed)
    && (forall a, b :: 0 <= a < b < |order| ==> order[a] != order[b])
  }

  lemma ProgressVisit(st: nat, o: nat, i: nat, n: nat, passed: set<nat>, order: seq<nat>)
    requires st > 0 && i < n && Residue(i, st) == o && Progress(st, o, i, n, passed, order)
    ensures i !in passed && Progress(st, o, i + st, n, passed + {i}, order + [i])
    ensures Residue(i + st, st) == o
  {
    hide Residue, Passed;
    forall w: nat ensures Passed(st, o, i + st, w) <==> Passed(st, o, i, w) || w == i {
      PassOne(st, o, i, w);
    }
    PassOne(st, o, i, i);
  }

  /** Nothing of a column stands in front of its first word. */
  lemma ColumnStart(st: nat, o: nat, w: nat)
    requires st > 0
    ensures Residue(w, st) == o ==> w >= o
  {
  }

  /** A column that has run out of the range is complete. */
  lemma ProgressColumn(st: nat, o: nat, i: nat, n: nat, passed: set<nat>, order: seq<nat>)
    requires st > 0 && n <= i && Progress(st, o, i, n, passed, order)
    ensures Progress(st, o + 1, o + 1, n, passed, order)
  {
    hide Residue;
    forall w: nat | w < n ensures Passed(st, o, i, w) <==> Passed(st, o + 1, o + 1, w) {
      ColumnStart(st, o + 1, w);
    }
  }

  lemma ProgressStart(st: nat, n: nat)
    requires st > 0
    ensures Progress(st, 0, 0, n, {}, [])
  {
    hide Residue;
  }

  lemma ProgressDone(st: nat, i: nat, n: nat, passed: set<nat>, order: seq<nat>)
    requires st > 0 && Progress(st, st, i, n, passed, order)
    ensures passed == Range(n) && EachOnce(order, n)
  {
    hide Residue;
    assert forall w: nat :: Residue(w, st) < st;
  }

  lemma ResidueOf(o: nat, st: nat)
    requires o < st
    ensures Residue(o, st) == o
  {
  }

  lemma ShownBy(ram: Ram, n: nat, cells: seq<Word>, w: nat, e: Word)
    requires Backed(ram, n, |cells|) && w < n
    requires Sense(cells[ram.cellOf[w]], ram.ones[ram.cellOf[w]], ram.zeros[ram.cellOf[w]]) == e
    ensures Shown(ram, n, |cells|, w, e)
  {
    SenseTwice(cells[ram.cellOf[w]], ram.ones[ram.cellOf[w]], ram.zeros[ram.cellOf[w]]);
  }

  /** One sweep over the range: every word is compared with what is expected and
      overwritten by the inverse. The test stops at the first difference. */
  method Sweep(mem: Memory, n: nat, st: nat, add: bool, pattern: Word, start: nat)
    returns (fail: bool, ghost order: seq<nat>)
    requires mem.Backs(n) && st > 0 && start % 4 == 0
    requires Clean(mem.ram, n, mem.cells.Length) ==> SweepState(mem.ram, mem.cells[..], n, {}, add, pattern, start)
    modifies mem`log, mem.cells
    // a complete sweep reads and writes every word once, and touches nothing else
    ensures !fail ==> EachOnce(order, n) && mem.log == old(mem.log) + Visits(order)
    ensures !fail ==> forall w :: 0 <= w < n ==>
              Shown(mem.ram, n, mem.cells.Length, w, Expected(add, pattern, start, w))
    ensures !fail && Clean(mem.ram, n, mem.cells.Length) ==>
              SweepState(mem.ram, mem.cells[..], n, Range(n), add, pattern, start)
    ensures Clean(mem.ram, n, mem.cells.Length) && Injective(mem.ram, n) ==> !fail
  {
    hide Expected, Progress, SweepState, EachOnce, Clean, Injective, Shown, Sense, Residue, Visits;
    ghost var ram, cells, base := mem.ram, mem.cells, mem.log;
    ghost var passed: set<nat> := {};
    order := [];
    ProgressStart(st, n);
    NoVisits();
    var o := 0;
    while o < st
      invariant o <= st && Progress(st, o, o, n, passed, order) && mem.log == base + Visits(order)
      invariant Clean(ram, n, cells.Length) ==> SweepState(ram, cells[..], n, passed, add, pattern, start)
      invariant forall w :: w in passed ==> w < n && Shown(ram, n, cells.Length, w, Expected(add, pattern, start, w))
    {
      var i := o;
      ResidueOf(o, st);
      while i < n
        invariant Residue(i, st) == o && Progress(st, o, i, n, passed, order) && mem.log == base + Visits(order)
        invariant Clean(ram, n, cells.Length) ==> SweepState(ram, cells[..], n, passed, add, pattern, start)
        invariant forall w :: w in passed ==> w < n && Shown(ram, n, cells.Length, w, Expected(add, pattern, start, w))
        decreases n - i
      {
        ProgressVisit(st, o, i, n, passed, order);
        VisitsMore(order, i);
        ghost var before := cells[..];
        var check := Expected(add, pattern, start, i);
        if Clean(ram, n, cells.Length) {
          VisitStep(ram, before, n, passed, add, pattern, start, i);
        }
        var data := mem.Load(n, i);
        if data != check {
          return true, order;
        }
        ShownBy(ram, n, before, i, check);
        mem.Store(n, i, Not(check));
        passed, order := passed + {i}, order + [i];
        i := i + st;
      }
      ProgressColumn(st, o, i, n, passed, order);
      o := o + 1;
    }
    ProgressDone(st, o, n, passed, order);
    fail := false;
  }

  // ---- the whole test

  /** Every word holds what the test expects at the start of a round. */
  ghost predicate Filled(ram: Ram, cells: seq<Word>, n: nat, add: bool, pattern: Word, start: nat)
    requires Backed(ram, n, |cells|)
  {
    forall w :: 0 <= w < n ==> Stored(ram, cells, w, Expected(add, pattern, start, w))
  }

  lemma FillStarts(ram: Ram, cells: seq<Word>, n: nat, add: bool, pattern: Word, start: nat)
    requires Backed(ram, n, |cells|) && (Injective(ram, n) ==> Filled(ram, cells, n, add, pattern, start))
    ensures SweepState(ram, cells, n, {}, add, pattern, start)
  {
    hide Expected;
  }

  lemma SweepEnds(ram: Ram, cells: seq<Word>, n: nat, add: bool, pattern: Word, start: nat)
    requires Backed(ram, n, |cells|) && SweepState(ram, cells, n, Range(n), add, pattern, start)
    ensures Injective(ram, n) && Filled(ram, cells, n, add, Not(pattern), start)
  {
    hide Expected;
    forall w | 0 <= w < n ensures Stored(ram, cells, w, Expected(add, Not(pattern), start, w)) {
      InvertedPattern(add, pattern, start, w);
    }
  }

  /** Two complete sweeps with opposite patterns leave no room for a stuck bit. */
  lemma BothShown(ram: Ram, n: nat, cells: nat, add: bool, pattern: Word, start: nat)
    requires Backed(ram, n, cells)
    requires forall w :: 0 <= w < n ==> Shown(ram, n, cells, w, Expected(add, pattern, start, w))
    requires forall w :: 0 <= w < n ==> Shown(ram, n, cells, w, Expected(add, Not(pattern), start, w))
    ensures Clean(ram, n, cells)
  {
    hide Expected, Sense, NoStuckBits;
    forall w | 0 <= w < n ensures NoStuckBits(ram.ones[ram.cellOf[w]], ram.zeros[ram.cellOf[w]]) {
      InvertedPattern(add, pattern, start, w);
      ShowsBoth(Expected(add, pattern, start, w), ram.ones[ram.cellOf[w]], ram.zeros[ram.cellOf[w]]);
    }
  }

  method Fill(mem: Memory, n: nat, add: bool, pattern: Word, start: nat)
    requires mem.Backs(n)
    modifies mem`log, mem.cells
    ensures Injective(mem.ram, n) ==> Filled(mem.ram, mem.cells[..], n, add, pattern, start)
    ensures mem.log == old(mem.log) + seq(n, w requires 0 <= w < n => Write(w))
  {
    hide Expected;
    ghost var ram := mem.ram;
    for i := 0 to n
      invariant mem.log == old(mem.log) + seq(i, w requires 0 <= w < i => Write(w))
      invariant Injective(ram, n) ==>
                  forall w :: 0 <= w < i ==> Stored(ram, mem.cells[..], w, Expected(add, pattern, start, w))
    {
      mem.Store(n, i, Expected(add, pattern, start, i));
    }
  }

  /** One stride: a sweep, the pattern inverted, another sweep, the pattern back. */
  method Round(mem: Memory, n: nat, st: nat, add: bool, pattern: Word, start: nat)
    returns (fail: bool, ghost first: seq<nat>, ghost second: seq<nat>)
    requires mem.Backs(n) && st > 0 && start % 4 == 0
    requires mem.Faultless(n) ==> Filled(mem.ram, mem.cells[..], n, add, pattern, start)
    modifies mem`log, mem.cells
    ensures fail <==> !mem.Faultless(n)
    // a round that finds nothing has read and written every word twice, and leaves the initial contents
    ensures !fail ==> EachOnce(first, n) && EachOnce(second, n)
                      && mem.log == old(mem.log) + Visits(first) + Visits(second)
    ensures !fail ==> Filled(mem.ram, mem.cells[..], n, add, pattern, start)
  {
    hide Expected, SweepState, Filled, Clean, Injective, Shown, EachOnce, Visits;
    if Clean(mem.ram, n, mem.cells.Length) {
      FillStarts(mem.ram, mem.cells[..], n, add, pattern, start);
    }
    second := [];
    fail, first := Sweep(mem, n, st, add, pattern, start);
    if fail {
      return;
    }
    if Clean(mem.ram, n, mem.cells.Length) {
      SweepEnds(mem.ram, mem.cells[..], n, add, pattern, start);
      FillStarts(mem.ram, mem.cells[..], n, add, Not(pattern), start);
    }
    fail, second := Sweep(mem, n, st, add, Not(pattern), start);
    if fail {
      return;
    }
    BothShown(mem.ram, n, mem.cells.Length, add, pattern, start);
    SweepEnds(mem.ram, mem.cells[..], n, add, Not(pattern), start);
    NotNot(pattern);
  }

  /** test_algorithm_t: for sizes above one word the test fails if and only if two
      words of the range share a cell or a used cell has a stuck bit. Smaller
      sizes are never looked at. */
  method TestAlgorithm(mem: Memory, size: nat, start: nat, pattern0: Word, seed: Word)
    returns (fail: bool)
    requires mem.Backs((size + 3) / 4)
    requires start % 4 == 0 && start + size <= 0x1_0000_0000 && size <= 0x8000_0000
    modifies mem`log, mem.cells
    ensures fail <==> size > 4 && !mem.Faultless((size + 3) / 4)
    ensures !fail && size > 4 ==>
              Filled(mem.ram, mem.cells[..], (size + 3) / 4, pattern0 == Bits(2),
                     if pattern0 == Bits(2) then Bits(0) else if pattern0 == Bits(1) then seed else pattern0, start)
  {
    hide Expected, Filled, Clean, Injective, Bits;
    var n := (size + 3) / 4;
    var add, pattern := false, pattern0;
    if pattern == Bits(2) {
      add, pattern := true, Bits(0);
    } else if pattern == Bits(1) {
      pattern := seed;
    }
    Fill(mem, n, add, pattern, start);
    fail := false;
    var st := 1;
    while 4 * st < size
      invariant st >= 1 && !fail
      invariant st > 1 ==> size > 4 && mem.Faultless(n)
      invariant mem.Faultless(n) ==> Filled(mem.ram, mem.cells[..], n, add, pattern, start)
      decreases size - st
    {
      ghost var first, second;
      fail, first, second := Round(mem, n, st, add, pattern, start);
      if fail {
        return;
      }
      st := st * 2;
    }
  }
}
