/** Boot description records in flash, as cmd_bdr.c reads them.

    Flash is a sequence of bytes in blocks of 64 KB. A record can stand at the
    start or at the end of a block; its first and last words give its length.
  */
module BootRecord {
  import opened CString
  import opened Words

  const BLOCK_SIZE := 0x1_0000
  const BDR_SIZE := 256
  const RECORD_SIZE := 4 * BDR_SIZE
  const ARG_SIZE := 512
  const BEGIN_MAGIC := 0xFEED_CAFE
  const END_MAGIC := 0xFEED_FADE
  const NO_SEQUENCE := 0xFFFF_FFFF
  const NO_ADDRESS := 0xFFFF_FFFF

  const TAG_STOP := 1
  const TAG_BOOTADDR := 2
  const TAG_BOOTARGS := 3

  /** Whole blocks. */
  predicate Blocks(f: seq<byte>, n: nat) {
    |f| == n * BLOCK_SIZE
  }

  /** bdr_bootaddr and bdr_bootarg. */
  datatype Boot = Boot(addr: u32, args: seq<byte>)

  function NoArgs(): (r: seq<byte>)
    ensures |r| == ARG_SIZE && forall i :: 0 <= i < |r| ==> r[i] == 0
  {
    seq(ARG_SIZE, _ => 0)
  }

  /** memcpy to the front of the argument buffer, as far as the buffer goes. */
  function CopyTo(args: seq<byte>, data: seq<byte>): (r: seq<byte>)
    ensures |r| == |args|
    ensures forall i :: 0 <= i < |r| ==> r[i] == if i < |data| then data[i] else args[i]
  {
    if |data| <= |args| then data + args[|data|..] else data[..|args|]
  }

  /** One tag: where the next one starts, or nothing when reading ends here. */
  datatype Tag = End | Tag(next: nat, boot: Boot)

  function ReadTag(b: seq<byte>, p: nat, number: nat, boot: Boot): (r: Tag)
    ensures r.Tag? ==> p < r.next
  {
    if |b| < 4 * p + 4 then End
    else
      var data := Word(b, 4 * p);
      var name, size: int := data / 0x1_0000 % 0x100, data % 0x1_0000 - 1;
      if number != data / 0x100_0000 || size < 0 || name == TAG_STOP then End
      else if name == TAG_BOOTADDR then
        if size == 1 && 4 * p + 8 <= |b| then Tag(p + 2, boot.(addr := Word(b, 4 * p + 4))) else End
      else if name == TAG_BOOTARGS then
        if size < 130 && 4 * (p + 1 + size) <= |b| then
          Tag(p + 1 + size, boot.(args := CopyTo(boot.args, b[4 * p + 4..4 * p + 4 + 4 * size])))
        else End
      else Tag(p + 1 + size, boot)
  }

  /** What parse_tag leaves behind when it goes on at word p with the given tag number. */
  function Tags(b: seq<byte>, p: nat, number: nat, boot: Boot): Boot
    requires number <= BDR_SIZE
    decreases BDR_SIZE - number
  {
    if number == BDR_SIZE then boot
    else
      match ReadTag(b, p, number, boot)
      case End => boot
      case Tag(next, now) => Tags(b, next, number + 1, now)
  }

  /** A length in bytes that a record may have: the length word is multiplied in 32 bits. */
  function Length(f: seq<byte>, p: nat): (r: u32)
    requires p + 4 <= |f|
  {
    4 * Word(f, p) % U32
  }

  predicate ValidLength(size: nat) {
    32 < size < BLOCK_SIZE
  }

  /** Header and trailer of a record of this length fit together. */
  predicate Framed(f: seq<byte>, bottom: nat, size: nat) {
    && 32 <= size && bottom + size <= |f|
    && Word(f, bottom) == BEGIN_MAGIC && Length(f, bottom + 4) == size
    && Word(f, bottom + size - 4) == END_MAGIC && Length(f, bottom + size - 8) == size
  }

  /** Sequence number of a framed record, 0 when it is not a valid one. */
  function Sequence(f: seq<byte>, bottom: nat): u32
    requires bottom + 16 <= |f|
  {
    var s := Word(f, bottom + 12);
    if s == NO_SEQUENCE then 0 else s
  }

  /** What findBDRstart returns for the block at this offset. */
  function StartSequence(f: seq<byte>, offset: nat): (r: u32)
    requires offset + BLOCK_SIZE <= |f|
    ensures r < NO_SEQUENCE
  {
    var size := Length(f, offset + 4);
    if ValidLength(size) && Framed(f, offset, size) then Sequence(f, offset) else 0
  }

  /** What findBDRend returns for the block at this offset. */
  function EndSequence(f: seq<byte>, offset: nat): (r: u32)
    requires offset + BLOCK_SIZE <= |f|
    ensures r < NO_SEQUENCE
  {
    var size := Length(f, offset + BLOCK_SIZE - 8);
    if ValidLength(size) && Framed(f, offset + BLOCK_SIZE - size, size) then
      Sequence(f, offset + BLOCK_SIZE - size)
    else 0
  }

  /** The globals during a search. */
  datatype Found = Found(seqno: u32, boot: Boot)

  function NothingFound(): Found {
    Found(0, Boot(NO_ADDRESS, NoArgs()))
  }

  /** A record of 256 words is read from behind its header. */
  function Improve(g: Found, seqno: u32, record: seq<byte>): Found {
    if seqno > g.seqno then Found(seqno, Tags(record, 4, 0, Boot(0, NoArgs()))) else g
  }

  function AtStart(f: seq<byte>, offset: nat, g: Found): Found
    requires offset + BLOCK_SIZE <= |f|
  {
    Improve(g, StartSequence(f, offset), f[offset..offset + RECORD_SIZE])
  }

  function AtEnd(f: seq<byte>, offset: nat, g: Found): Found
    requires offset + BLOCK_SIZE <= |f|
  {
    Improve(g, EndSequence(f, offset), f[offset + BLOCK_SIZE - RECORD_SIZE..offset + BLOCK_SIZE])
  }

  /** The search over the blocks from the k-th on. */
  function Search(f: seq<byte>, k: nat, n: nat, g: Found): Found
    requires k <= n && Blocks(f, n)
    decreases n - k
  {
    if k == n then g else Search(f, k + 1, n, AtEnd(f, k * BLOCK_SIZE, AtStart(f, k * BLOCK_SIZE, g)))
  }

  /** The search from any offset on; the last block that it looks at may reach beyond the end of flash. */
  function SearchFrom(m: seq<byte>, offset: nat, end: nat, g: Found): Found
    requires end + BLOCK_SIZE <= |m|
    decreases end - offset
  {
    if offset >= end then g else SearchFrom(m, offset + BLOCK_SIZE, end, AtEnd(m, offset, AtStart(m, offset, g)))
  }

  lemma BlockInFlash(f: seq<byte>, beyond: seq<byte>, offset: nat, g: Found)
    requires offset + BLOCK_SIZE <= |f|
    ensures AtStart(f + beyond, offset, g) == AtStart(f, offset, g)
            && AtEnd(f + beyond, offset, g) == AtEnd(f, offset, g)
  {
    hide Word, Improve;
    var m := f + beyond;
    forall q: nat | q + 4 <= |f| ensures Word(m, q) == Word(f, q) {
      assert m[..|f|] == f;
      WordInside(m, 0, |f|, q);
    }
    assert m[offset..offset + RECORD_SIZE] == f[offset..offset + RECORD_SIZE];
    var end := offset + BLOCK_SIZE;
    assert m[end - RECORD_SIZE..end] == f[end - RECORD_SIZE..end];
  }

  /** From a block boundary on, only flash is read. */
  lemma {:induction false} SearchInFlash(f: seq<byte>, beyond: seq<byte>, k: nat, n: nat, g: Found)
    requires k <= n && Blocks(f, n) && |beyond| == BLOCK_SIZE
    ensures SearchFrom(f + beyond, k * BLOCK_SIZE, |f|, g) == Search(f, k, n, g)
    decreases n - k
  {
    hide AtStart, AtEnd;
    if k < n {
      BlockInFlash(f, beyond, k * BLOCK_SIZE, g);
      BlockInFlash(f, beyond, k * BLOCK_SIZE, AtStart(f, k * BLOCK_SIZE, g));
      SearchInFlash(f, beyond, k + 1, n, AtEnd(f, k * BLOCK_SIZE, AtStart(f, k * BLOCK_SIZE, g)));
    }
  }

  // ---- the search finds the highest sequence number

  /** Every block has two places for a record; outside flash there is none. */
  function SlotSequence(f: seq<byte>, slot: nat): u32 {
    if |f| < (slot / 2 + 1) * BLOCK_SIZE then 0
    else if slot % 2 == 0 then StartSequence(f, slot / 2 * BLOCK_SIZE)
    else EndSequence(f, slot / 2 * BLOCK_SIZE)
  }

  function SlotRecord(f: seq<byte>, slot: nat): (r: seq<byte>)
    requires (slot / 2 + 1) * BLOCK_SIZE <= |f|
    ensures |r| == RECORD_SIZE
  {
    var p := SlotStart(slot);
    f[p..p + RECORD_SIZE]
  }

  /** Where a record of 256 words starts in a slot. */
  function SlotStart(slot: nat): nat {
    slot / 2 * BLOCK_SIZE + if slot % 2 == 0 then 0 else BLOCK_SIZE - RECORD_SIZE
  }

  function VisitSlot(f: seq<byte>, slot: nat, g: Found): Found
    requires (slot / 2 + 1) * BLOCK_SIZE <= |f|
  {
    Improve(g, SlotSequence(f, slot), SlotRecord(f, slot))
  }

  /** The same search, slot by slot, up to a slot. */
  function Visited(f: seq<byte>, slots: nat, n: nat): Found
    requires slots <= 2 * n && Blocks(f, n)
  {
    if slots == 0 then NothingFound() else VisitSlot(f, slots - 1, Visited(f, slots - 1, n))
  }

  lemma {:induction false} BlockVisits(f: seq<byte>, k: nat, n: nat)
    requires k < n && Blocks(f, n)
    ensures AtEnd(f, k * BLOCK_SIZE, AtStart(f, k * BLOCK_SIZE, Visited(f, 2 * k, n))) == Visited(f, 2 * k + 2, n)
  {
    hide Improve, StartSequence, EndSequence;
    assert (2 * k + 1) / 2 == k && (2 * k + 1) % 2 == 1 && (2 * k) / 2 == k && (2 * k) % 2 == 0;
  }

  lemma {:induction false} SearchVisits(f: seq<byte>, k: nat, n: nat)
    requires k <= n && Blocks(f, n)
    ensures Search(f, k, n, Visited(f, 2 * k, n)) == Visited(f, 2 * n, n)
    decreases n - k
  {
    hide Improve, StartSequence, EndSequence;
    if k < n {
      BlockVisits(f, k, n);
      SearchVisits(f, k + 1, n);
    }
  }

  /** The search ends with the highest sequence number of all slots. */
  lemma {:induction false} HighestFound(f: seq<byte>, slots: nat, n: nat, slot: nat)
    requires slot < slots <= 2 * n && Blocks(f, n)
    ensures SlotSequence(f, slot) <= Visited(f, slots, n).seqno
  {
    hide SlotSequence;
    if slot < slots - 1 {
      HighestFound(f, slots - 1, n, slot);
    }
  }

  /** The first slot with the highest number is the one whose record counts. */
  lemma {:induction false} SelectedSlot(f: seq<byte>, slots: nat, n: nat, slot: nat)
    requires slot < 2 * n && slots <= 2 * n && Blocks(f, n)
    requires SlotSequence(f, slot) > 0
    requires forall i :: 0 <= i < 2 * n && i != slot ==>
               if i < slot then SlotSequence(f, i) < SlotSequence(f, slot)
               else SlotSequence(f, i) <= SlotSequence(f, slot)
    ensures slots <= slot ==> Visited(f, slots, n).seqno < SlotSequence(f, slot)
    ensures slots > slot ==>
              Visited(f, slots, n) == Found(SlotSequence(f, slot), Tags(SlotRecord(f, slot), 4, 0, Boot(0, NoArgs())))
  {
    hide SlotSequence, SlotRecord, Tags;
    if slots > 0 {
      SelectedSlot(f, slots - 1, n, slot);
    }
  }

  /** Whatever is found has a number that some slot has. */
  lemma {:induction false} FoundSomewhere(f: seq<byte>, slots: nat, n: nat)
    requires slots <= 2 * n && Blocks(f, n)
    ensures var g := Visited(f, slots, n);
            && g.seqno < NO_SEQUENCE
            && (g.seqno > 0 ==> exists i :: 0 <= i < slots && SlotSequence(f, i) == g.seqno)
  {
    hide StartSequence, EndSequence;
    if slots > 0 {
      FoundSomewhere(f, slots - 1, n);
      var g := Visited(f, slots - 1, n);
      if SlotSequence(f, slots - 1) <= g.seqno && g.seqno > 0 {
        var i :| 0 <= i < slots - 1 && SlotSequence(f, i) == g.seqno;
      }
    }
  }
}
