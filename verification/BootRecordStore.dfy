/** The routines of cmd_bdr.c over the flash array, with their globals. */
module BootRecordStore {
  import opened CString
  import opened Words
  import opened BootRecord
  import opened BootRecordWrite
  import opened Arithmetic

  /** What the flash driver does with a sector: its result code, and whether the
      sector then holds what was asked for or some other content. */
  datatype Outcome = Outcome(err: int, faithful: bool, content: seq<byte>)

  /** addr | 0xbf000000, for an address below the flash size. */
  function Based(addr: u32): u32
    requires addr < 0x4000_0000
  {
    0xBF00_0000 + addr % 0x100_0000
  }

  lemma SlotInside(slot: nat, n: nat)
    requires slot < 2 * n
    ensures (slot / 2 + 1) * BLOCK_SIZE <= n * BLOCK_SIZE
    ensures SlotStart(slot) % RECORD_SIZE == 0 && SlotStart(slot) + RECORD_SIZE <= n * BLOCK_SIZE
  {
  }

  lemma NoneVisited(f: seq<byte>, n: nat)
    requires Blocks(f, n)
    ensures Visited(f, 0, n) == NothingFound()
  {
  }

  lemma SequenceFits(f: seq<byte>, n: nat)
    requires Blocks(f, n)
    ensures Search(f, 0, n, NothingFound()).seqno < NO_SEQUENCE
  {
    hide Search, Visited;
    SearchVisits(f, 0, n);
    NoneVisited(f, n);
    FoundSomewhere(f, 2 * n, n);
  }

  /** Flash that differs only in a slot is the old one with the slot's new contents laid over it. */
  lemma LaidIs(f: seq<byte>, g: seq<byte>, n: nat, slot: nat)
    requires Blocks(f, n) && slot < 2 * n && DiffersAt(f, g, SlotStart(slot))
    ensures g == Laid(f, slot, SlotRecord(g, slot))
  {
    var p := SlotStart(slot);
    assert g == g[..p] + g[p..p + RECORD_SIZE] + g[p + RECORD_SIZE..];
  }

  /** Start of the erase sector that an offset lies in. */
  function SectorStart(offset: nat, sector: nat): nat
    requires 0 < sector
  {
    Times(Div(offset, sector), sector)
  }

  lemma Whole(m: nat)
    ensures Times(m, RECORD_SIZE) == m * RECORD_SIZE
  {
  }

  lemma {:induction false} Multiple(k: nat, sector: nat)
    requires sector % RECORD_SIZE == 0
    ensures Times(k, sector) % RECORD_SIZE == 0
  {
    hide Times;
    Whole(sector / RECORD_SIZE);
    Associate(k, sector / RECORD_SIZE, RECORD_SIZE);
    Whole(Times(k, sector / RECORD_SIZE));
  }

  lemma {:induction false} InSector(offset: nat, sector: nat, length: nat)
    requires 0 < sector && sector % RECORD_SIZE == 0 && Mod(length, sector) == 0
    requires offset < length && offset % RECORD_SIZE == 0
    ensures var start := SectorStart(offset, sector);
            start <= offset && offset + RECORD_SIZE <= start + sector <= length
  {
    hide Times, Div, Mod;
    var k, n := Div(offset, sector), Div(length, sector);
    Quotient(offset, sector);
    Quotient(length, sector);
    Monotone(n, k, sector);
    Monotone(k, n, sector);
    Multiple(k, sector);
  }

  method PutWord(block: array<byte>, p: nat, w: u32)
    requires p + 4 <= block.Length
    modifies block
    ensures Word(block[..], p) == w
    ensures forall q: nat :: q + 4 <= block.Length && (q + 4 <= p || p + 4 <= q) ==>
              Word(block[..], q) == old(Word(block[..], q))
    ensures forall i :: 0 <= i < block.Length && !(p <= i < p + 4) ==> block[i] == old(block[i])
  {
    var bytes := WordBytes(w);
    WordOfBytes(w);
    block[p], block[p + 1], block[p + 2], block[p + 3] := bytes[0], bytes[1], bytes[2], bytes[3];
  }

  method PutBytes(block: array<byte>, p: nat, data: seq<byte>)
    requires p + |data| <= block.Length
    modifies block
    ensures block[p..p + |data|] == data
    ensures forall q: nat :: q + 4 <= block.Length && (q + 4 <= p || p + |data| <= q) ==>
              Word(block[..], q) == old(Word(block[..], q))
  {
    forall i | 0 <= i < |data| {
      block[p + i] := data[i];
    }
  }

  /** The record as writebdr lays it out; the rest of the block keeps what was on the stack. */
  method BuildRecord(stack: seq<byte>, seqno: u32, bootaddr: u32, cmdline: seq<byte>) returns (block: array<byte>)
    requires |stack| == RECORD_SIZE && |cmdline| == ARG_SIZE
    ensures fresh(block) && block.Length == RECORD_SIZE
    ensures IsRecord(block[..], seqno, Boot(bootaddr, cmdline))
  {
    hide Word;
    block := new byte[RECORD_SIZE](i requires 0 <= i < RECORD_SIZE && |stack| == RECORD_SIZE => stack[i]);
    PutWord(block, 0, BEGIN_MAGIC);
    PutWord(block, RECORD_SIZE - 4, END_MAGIC);
    PutWord(block, RECORD_SIZE - 8, BDR_SIZE);
    PutWord(block, 4, BDR_SIZE);
    PutWord(block, 8, 0);
    PutWord(block, 12, seqno);
    PutWord(block, 16, 0x0004_0002);
    PutWord(block, 20, 0);
    PutWord(block, 24, 0x0102_0002);
    PutWord(block, 28, bootaddr);
    PutWord(block, 32, 0x0203_0081);
    PutBytes(block, 36, cmdline);
    PutWord(block, 548, 0x0301_0001);
  }

  lemma BottomWords(f: seq<byte>, p: nat, bottom: seq<byte>)
    requires p + 16 <= |f| && bottom == f[p..p + 16]
    ensures Word(bottom, 0) == Word(f, p) && Word(bottom, 4) == Word(f, p + 4) && Word(bottom, 12) == Word(f, p + 12)
  {
    WordInside(f, p, p + 16, 0);
    WordInside(f, p, p + 16, 4);
    WordInside(f, p, p + 16, 12);
  }

  lemma TopWords(f: seq<byte>, p: nat, top: seq<byte>)
    requires 16 <= p <= |f| && top == f[p - 16..p]
    ensures Word(top, 8) == Word(f, p - 8) && Word(top, 12) == Word(f, p - 4)
  {
    WordInside(f, p - 16, p, 8);
    WordInside(f, p - 16, p, 12);
  }

  lemma AllTags(b: seq<byte>, p: nat, boot: Boot)
    ensures Tags(b, p, BDR_SIZE, boot) == boot
  {
  }

  lemma Rejected(g: Found, block: seq<byte>)
    ensures Improve(g, 0, block) == g
  {
  }

  /** A text with a part of it replaced. */
  function Replaced(f: seq<byte>, at: nat, part: seq<byte>): (r: seq<byte>)
    requires at + |part| <= |f|
    ensures |r| == |f|
    ensures forall i :: 0 <= i < |f| && !(at <= i < at + |part|) ==> r[i] == f[i]
  {
    f[..at] + part + f[at + |part|..]
  }

  /** A block laid over its sector, and the sector written back. */
  lemma SectorWritten(f: seq<byte>, block: seq<byte>, start: nat, offset: nat, sector: nat)
    requires |block| == RECORD_SIZE && start <= offset && offset + RECORD_SIZE <= start + sector <= |f|
    ensures var g := Replaced(f, start, Replaced(f[start..start + sector], offset - start, block));
            g[offset..offset + RECORD_SIZE] == block && DiffersAt(f, g, offset)
  {
    var end := offset + RECORD_SIZE;
    var p := Replaced(f[start..start + sector], offset - start, block);
    assert p == f[start..offset] + block + f[end..start + sector];
    assert f[..start] + f[start..offset] == f[..offset];
    assert f[end..start + sector] + f[start + sector..] == f[end..];
    assert Replaced(f, start, p) == f[..offset] + block + f[end..];
  }

  class BootRecords {
    const flash: array<byte>
    /** What is read behind the end of flash. */
    const beyond: seq<byte>
    const blocks: nat
    /** Size of an erase sector. */
    const sector: nat

    var bdrSeq: u32
    var bootAddr: u32
    var bootArg: seq<byte>

    ghost predicate Valid()
      reads this
    {
      && flash.Length == blocks * BLOCK_SIZE <= 0x4000_0000 && |bootArg| == ARG_SIZE
      && |beyond| == BLOCK_SIZE && 0 < sector && sector % RECORD_SIZE == 0 && Mod(flash.Length, sector) == 0
    }

    function Memory(): seq<byte>
      reads flash
    {
      flash[..] + beyond
    }

    function Now(): Found
      reads this
    {
      Found(bdrSeq, Boot(bootAddr, bootArg))
    }

    constructor (flash: array<byte>, beyond: seq<byte>, blocks: nat, sector: nat)
      requires |beyond| == BLOCK_SIZE
      requires flash.Length == blocks * BLOCK_SIZE <= 0x4000_0000
      requires 0 < sector && sector % RECORD_SIZE == 0 && Mod(flash.Length, sector) == 0
      ensures Valid() && this.flash == flash
    {
      this.flash, this.beyond, this.blocks, this.sector := flash, beyond, blocks, sector;
      bdrSeq, bootAddr, bootArg := 0, 0, NoArgs();
    }

    /** One turn of the loop in parse_tag; more tells whether it goes on, at the word next. */
    method NextTag(block: seq<byte>, p: nat, number: nat) returns (more: bool, next: nat)
      requires Valid()
      modifies this`bootAddr, this`bootArg
      ensures Valid()
      ensures ReadTag(block, p, number, old(Boot(bootAddr, bootArg)))
              == if more then Tag(next, Boot(bootAddr, bootArg)) else End
      ensures !more ==> Boot(bootAddr, bootArg) == old(Boot(bootAddr, bootArg))
    {
      hide Word, CopyTo;
      more, next := false, p;
      if |block| < 4 * p + 4 {
        return;
      }
      var data := Word(block, 4 * p);
      var name, size := data as int / 0x1_0000 % 0x100, data as int % 0x1_0000 - 1;
      if number != data / 0x100_0000 || size < 0 || name == TAG_STOP {
        return;
      } else if name == TAG_BOOTADDR {
        if size != 1 || |block| < 4 * p + 8 {
          return;
        }
        next := next + 1;
        bootAddr := Word(block, 4 * next);
        next := next + 1;
      } else if name == TAG_BOOTARGS {
        if size >= 130 || |block| < 4 * (p + 1 + size) {
          return;
        }
        next := next + 1;
        bootArg := CopyTo(bootArg, block[4 * next..4 * next + 4 * size]);
        next := next + size;
      } else {
        next := next + size + 1;
      }
      more := true;
    }

    /** parse_tag, from behind the header of the block. */
    method ParseTag(block: seq<byte>)
      requires Valid()
      modifies this`bootAddr, this`bootArg
      ensures Valid() && Boot(bootAddr, bootArg) == Tags(block, 4, 0, Boot(0, NoArgs()))
    {
      hide ReadTag, Tags;
      bootAddr, bootArg := 0, NoArgs();
      var p: nat, tags: nat, more := 4, 0, true;
      while tags < BDR_SIZE
        invariant tags <= BDR_SIZE && Valid()
        invariant Tags(block, p, tags, Boot(bootAddr, bootArg)) == Tags(block, 4, 0, Boot(0, NoArgs()))
      {
        ghost var p0, before := p, Boot(bootAddr, bootArg);
        more, p := NextTag(block, p, tags);
        if !more {
          TagEnd(block, p0, tags, before);
          return;
        }
        TagStep(block, p0, tags, before, p, Boot(bootAddr, bootArg));
        tags := tags + 1;
      }
      AllTags(block, p, Boot(bootAddr, bootArg));
    }

    /** A valid sequence number that is higher than the best one so far counts. */
    method Compare(seqno: u32, block: seq<byte>)
      requires Valid()
      modifies this`bdrSeq, this`bootAddr, this`bootArg
      ensures Valid() && Now() == Improve(old(Now()), seqno, block)
    {
      hide Tags;
      if seqno > bdrSeq {
        bdrSeq := seqno;
        ParseTag(block);
      }
    }

    method FindBdrStart(offset: nat) returns (seqno: u32)
      requires Valid() && offset < flash.Length
      modifies this`bdrSeq, this`bootAddr, this`bootArg
      ensures Valid() && seqno == StartSequence(Memory(), offset)
      ensures Now() == AtStart(Memory(), offset, old(Now()))
    {
      hide Word, Improve;
      var f := Memory();
      var bottom, block := f[offset..offset + 16], f[offset..offset + RECORD_SIZE];
      BottomWords(f, offset, bottom);
      if Word(bottom, 0) != BEGIN_MAGIC {
        Rejected(Now(), block);
        return 0;
      }
      var size := 4 * Word(bottom, 4) % U32;
      if size <= 32 || size >= BLOCK_SIZE {
        Rejected(Now(), block);
        return 0;
      }
      var top := f[offset + size - 16..offset + size];
      TopWords(f, offset + size, top);
      if Word(top, 12) != END_MAGIC || 4 * Word(top, 8) % U32 != size {
        Rejected(Now(), block);
        return 0;
      }
      seqno := Word(bottom, 12);
      if seqno == 0 || seqno == NO_SEQUENCE {
        Rejected(Now(), block);
        return 0;
      }
      Compare(seqno, block);
    }

    method FindBdrEnd(offset: nat) returns (seqno: u32)
      requires Valid() && offset < flash.Length
      modifies this`bdrSeq, this`bootAddr, this`bootArg
      ensures Valid() && seqno == EndSequence(Memory(), offset)
      ensures Now() == AtEnd(Memory(), offset, old(Now()))
    {
      hide Word, Improve;
      var f := Memory();
      var end := offset + BLOCK_SIZE;
      var top, block := f[end - 16..end], f[end - RECORD_SIZE..end];
      TopWords(f, end, top);
      if Word(top, 12) != END_MAGIC {
        Rejected(Now(), block);
        return 0;
      }
      var size := 4 * Word(top, 8) % U32;
      if size <= 32 || size >= BLOCK_SIZE {
        Rejected(Now(), block);
        return 0;
      }
      var bottom := f[end - size..end - size + 16];
      BottomWords(f, end - size, bottom);
      if Word(bottom, 0) != BEGIN_MAGIC || 4 * Word(bottom, 4) % U32 != size {
        Rejected(Now(), block);
        return 0;
      }
      seqno := Word(bottom, 12);
      if seqno == 0 || seqno == NO_SEQUENCE {
        Rejected(Now(), block);
        return 0;
      }
      Compare(seqno, block);
    }

    /** findbdr from any offset on. */
    method FindBdr(start: nat) returns (found: bool)
      requires Valid()
      modifies this`bdrSeq, this`bootAddr, this`bootArg
      ensures Valid()
      ensures var g := SearchFrom(Memory(), start, flash.Length, NothingFound());
              && found == (g.seqno != 0 && g.boot.addr != NO_ADDRESS && g.boot.addr != 0)
              && bdrSeq == g.seqno && bootArg == g.boot.args
              && bootAddr == if found && g.boot.addr < flash.Length then Based(g.boot.addr) else g.boot.addr
    {
      hide AtStart, AtEnd, StartSequence, EndSequence;
      bdrSeq, bootAddr, bootArg := 0, NO_ADDRESS, NoArgs();
      var offset := start;
      while offset < flash.Length
        invariant Valid()
        invariant SearchFrom(Memory(), offset, flash.Length, Now())
                  == SearchFrom(Memory(), start, flash.Length, NothingFound())
        decreases flash.Length - offset
      {
        var s := FindBdrStart(offset);
        s := FindBdrEnd(offset);
        offset := offset + BLOCK_SIZE;
      }
      if bdrSeq == 0 || bootAddr == NO_ADDRESS || bootAddr == 0 {
        return false;
      }
      if bootAddr < flash.Length {
        bootAddr := Based(bootAddr);
      }
      return true;
    }

    /** The driver erases and writes one sector. */
    method Program(start: nat, p: array<byte>, outcome: Outcome) returns (err: int)
      requires Valid() && start + sector <= flash.Length && p.Length == sector == |outcome.content| && p != flash
      modifies flash
      ensures Valid() && err == outcome.err
      ensures flash[..] == Replaced(old(flash[..]), start, if outcome.faithful then p[..] else outcome.content)
    {
      forall i | 0 <= i < sector {
        flash[start + i] := if outcome.faithful then p[i] else outcome.content[i];
      }
      err := outcome.err;
    }

    /** The sector at start, with the block laid over it. */
    method Overlay(start: nat, offset: nat, block: array<byte>) returns (p: array<byte>)
      requires Valid() && block.Length == RECORD_SIZE
      requires start <= offset && offset + RECORD_SIZE <= start + sector <= flash.Length
      ensures fresh(p) && p[..] == Replaced(flash[start..start + sector], offset - start, block[..])
    {
      var bytes := flash[start..start + sector];
      p := new byte[sector](i requires 0 <= i < |bytes| => bytes[i]);
      forall i | 0 <= i < RECORD_SIZE {
        p[offset - start + i] := block[i];
      }
    }

    /** writebdr: the record takes the 1 KB at this offset from the start of flash. */
    method WriteBdr(offset: nat, bootaddr: u32, cmdline: seq<byte>, stack: seq<byte>, outcome: Outcome)
      returns (ok: bool)
      requires Valid() && offset < flash.Length && |cmdline| == ARG_SIZE && |stack| == RECORD_SIZE
      requires |outcome.content| == sector
      modifies this`bdrSeq, this`bootAddr, this`bootArg, flash
      ensures Valid()
      ensures ok ==> offset % RECORD_SIZE == 0 && outcome.err == 0 && offset + RECORD_SIZE <= flash.Length
      ensures offset % RECORD_SIZE == 0 && outcome.err == 0 && outcome.faithful ==> ok
      ensures ok ==>
                var seqno := (Search(old(flash[..]), 0, blocks, NothingFound()).seqno + 1) % U32;
                IsRecord(flash[..][offset..offset + RECORD_SIZE], seqno, Boot(bootaddr, cmdline))
      ensures ok && outcome.faithful ==> DiffersAt(old(flash[..]), flash[..], offset)
      // other sectors are never touched
      ensures var start := SectorStart(offset, sector);
              forall i :: 0 <= i < flash.Length && !(start <= i < start + sector) ==> flash[i] == old(flash[i])
    {
      hide Search, SearchFrom, IsRecord, SectorStart, Times, Div, Mod, DiffersAt;
      if offset % RECORD_SIZE != 0 {
        return false;
      }
      SearchInFlash(flash[..], beyond, 0, blocks, NothingFound());
      var found := FindBdr(0);
      var block := BuildRecord(stack, (bdrSeq + 1) % U32, bootaddr, cmdline);
      var start := SectorStart(offset, sector);
      InSector(offset, sector, flash.Length);
      var p := Overlay(start, offset, block);
      var err := Program(start, p, outcome);
      if err != 0 {
        return false;
      }
      if outcome.faithful {
        SectorWritten(old(flash[..]), block[..], start, offset, sector);
      }
      ok := flash[offset..offset + RECORD_SIZE] == block[..];
    }

    /** A writebdr to the start or the end of a block and the findbdr of the next start: when the
        record was written, it is found with its address and arguments, unless the sequence numbers
        are used up or the other place of the block overtakes it. */
    method WriteThenFind(slot: nat, bootaddr: u32, cmdline: seq<byte>, stack: seq<byte>, outcome: Outcome)
      returns (ok: bool, found: bool)
      requires Valid() && slot < 2 * blocks && |cmdline| == ARG_SIZE && |stack| == RECORD_SIZE
      requires |outcome.content| == sector
      modifies this`bdrSeq, this`bootAddr, this`bootArg, flash
      ensures Valid() && (slot / 2 + 1) * BLOCK_SIZE <= flash.Length
      ensures outcome.err == 0 && outcome.faithful ==> ok
      ensures ok && outcome.faithful ==>
                var seqno, r := Search(old(flash[..]), 0, blocks, NothingFound()).seqno + 1,
                                SlotRecord(flash[..], slot);
                var sib := SiblingSequence(old(flash[..]), blocks, slot, r);
                && flash[..] == Laid(old(flash[..]), slot, r)
                && (bdrSeq == seqno <==> seqno < NO_SEQUENCE && sib <= seqno)
                && (StaysApart(old(flash[..]), blocks, Sibling(slot)) ==> sib < seqno)
                && (seqno < NO_SEQUENCE && sib < seqno ==>
                      && found == (bootaddr != 0 && bootaddr != NO_ADDRESS) && bootArg == cmdline
                      && bootAddr == if found && bootaddr < flash.Length then Based(bootaddr) else bootaddr)
    {
      hide Search, SearchFrom, IsRecord, Word, SlotSequence, StaysApart, SiblingSequence, Mod;
      ghost var f := flash[..];
      SlotInside(slot, blocks);
      SequenceFits(f, blocks);
      ok := WriteBdr(SlotStart(slot), bootaddr, cmdline, stack, outcome);
      ghost var g := flash[..];
      if ok && outcome.faithful {
        LaidIs(f, g, blocks, slot);
        WrittenIsFound(f, blocks, slot, SlotRecord(g, slot), Search(f, 0, blocks, NothingFound()).seqno + 1,
                       Boot(bootaddr, cmdline));
      }
      SearchInFlash(g, beyond, 0, blocks, NothingFound());
      found := FindBdr(0);
    }
  }
}
