/** A written boot description record, and how the search of BootRecord sees it. */
module BootRecordWrite {
  import opened CString
  import opened Words
  import opened BootRecord

  /** The block that writebdr fills; the words behind the stop tag may hold anything. */
  predicate IsRecord(r: seq<byte>, seqno: u32, boot: Boot) {
    && |r| == RECORD_SIZE && |boot.args| == ARG_SIZE
    && Word(r, 0) == BEGIN_MAGIC && Word(r, 4) == BDR_SIZE && Word(r, 12) == seqno
    && Word(r, 16) == 0x0004_0002
    && Word(r, 24) == 0x0102_0002 && Word(r, 28) == boot.addr
    && Word(r, 32) == 0x0203_0081 && r[36..36 + ARG_SIZE] == boot.args
    && Word(r, 548) == 0x0301_0001
    && Word(r, RECORD_SIZE - 8) == BDR_SIZE && Word(r, RECORD_SIZE - 4) == END_MAGIC
  }

  /** Request number, boot address and stop tag. */
  lemma NumberTags(r: seq<byte>, seqno: u32, boot: Boot, before: Boot)
    requires IsRecord(r, seqno, boot)
    ensures ReadTag(r, 4, 0, before) == Tag(6, before)
    ensures ReadTag(r, 6, 1, before) == Tag(8, before.(addr := boot.addr))
    ensures ReadTag(r, 137, 3, boot) == End
  {
    hide Word;
  }

  lemma TagEnd(b: seq<byte>, p: nat, number: nat, boot: Boot)
    requires number < BDR_SIZE && ReadTag(b, p, number, boot) == End
    ensures Tags(b, p, number, boot) == boot
  {
    hide ReadTag;
  }

  lemma TagStep(b: seq<byte>, p: nat, number: nat, boot: Boot, next: nat, now: Boot)
    requires number < BDR_SIZE && ReadTag(b, p, number, boot) == Tag(next, now)
    ensures Tags(b, p, number, boot) == Tags(b, next, number + 1, now)
  {
    hide ReadTag;
  }

  lemma ArgsTag(r: seq<byte>, seqno: u32, boot: Boot, before: Boot)
    requires IsRecord(r, seqno, boot) && |before.args| == ARG_SIZE && before.addr == boot.addr
    ensures ReadTag(r, 8, 2, before) == Tag(137, boot)
  {
    hide Word;
    assert CopyTo(before.args, r[36..36 + ARG_SIZE]) == boot.args;
  }

  /** parse_tag gives back what writebdr has put in. */
  lemma {:induction false} RecordTags(r: seq<byte>, seqno: u32, boot: Boot)
    requires IsRecord(r, seqno, boot)
    ensures Tags(r, 4, 0, Boot(0, NoArgs())) == boot
  {
    hide Tags, ReadTag;
    var b0 := Boot(0, NoArgs());
    var b1 := b0.(addr := boot.addr);
    NumberTags(r, seqno, boot, b0);
    TagStep(r, 4, 0, b0, 6, b0);
    TagStep(r, 6, 1, b0, 8, b1);
    ArgsTag(r, seqno, boot, b1);
    TagStep(r, 8, 2, b1, 137, boot);
    TagEnd(r, 137, 3, boot);
  }

  /** Flash that differs only in the 1 KB at p. */
  predicate DiffersAt(f: seq<byte>, g: seq<byte>, p: nat) {
    && |f| == |g| && p + RECORD_SIZE <= |f|
    && f[..p] == g[..p] && f[p + RECORD_SIZE..] == g[p + RECORD_SIZE..]
  }

  lemma SameOutside(f: seq<byte>, g: seq<byte>, p: nat, q: nat)
    requires DiffersAt(f, g, p) && q + 4 <= |f| && (q + 4 <= p || p + RECORD_SIZE <= q)
    ensures Word(f, q) == Word(g, q)
  {
    if q + 4 <= p {
      assert f[q..q + 4] == f[..p][q..q + 4];
      assert g[q..q + 4] == g[..p][q..q + 4];
    } else {
      var d := q - p - RECORD_SIZE;
      assert f[q..q + 4] == f[p + RECORD_SIZE..][d..d + 4];
      assert g[q..q + 4] == g[p + RECORD_SIZE..][d..d + 4];
    }
    WordInside(f, q, q + 4, 0);
    WordInside(g, q, q + 4, 0);
  }

  /** The record is there. */
  lemma {:induction false} RecordSequence(f: seq<byte>, slot: nat, seqno: u32, boot: Boot)
    requires (slot / 2 + 1) * BLOCK_SIZE <= |f| && IsRecord(SlotRecord(f, slot), seqno, boot)
    ensures SlotSequence(f, slot) == if seqno == NO_SEQUENCE then 0 else seqno
  {
    hide Word;
    var p := SlotStart(slot);
    WordInside(f, p, p + RECORD_SIZE, 0);
    WordInside(f, p, p + RECORD_SIZE, 4);
    WordInside(f, p, p + RECORD_SIZE, 12);
    WordInside(f, p, p + RECORD_SIZE, RECORD_SIZE - 8);
    WordInside(f, p, p + RECORD_SIZE, RECORD_SIZE - 4);
    assert Length(f, p + 4) == RECORD_SIZE && Length(f, p + RECORD_SIZE - 8) == RECORD_SIZE;
  }

  lemma SameFrame(f: seq<byte>, g: seq<byte>, p: nat, bottom: nat, size: nat)
    requires DiffersAt(f, g, p) && 32 < size && bottom + size <= |f|
    requires bottom + size <= p || p + RECORD_SIZE <= bottom
             || (bottom + 16 <= p && p + RECORD_SIZE <= bottom + size - 8)
    ensures Framed(f, bottom, size) == Framed(g, bottom, size) && Sequence(f, bottom) == Sequence(g, bottom)
  {
    hide Word;
    SameOutside(f, g, p, bottom);
    SameOutside(f, g, p, bottom + 4);
    SameOutside(f, g, p, bottom + 12);
    SameOutside(f, g, p, bottom + size - 4);
    SameOutside(f, g, p, bottom + size - 8);
  }

  /** The other place for a record in the same block. */
  function Sibling(slot: nat): (r: nat)
    ensures r != slot && r / 2 == slot / 2
  {
    if slot % 2 == 0 then slot + 1 else slot - 1
  }

  /** Where a slot keeps the length of its record. */
  function LengthAt(slot: nat): nat {
    slot / 2 * BLOCK_SIZE + if slot % 2 == 0 then 4 else BLOCK_SIZE - 8
  }

  /** A slot claims a record so long that it extends into the 1 KB at the other end of the block. */
  predicate Reaches(f: seq<byte>, slot: nat)
    requires (slot / 2 + 1) * BLOCK_SIZE <= |f|
  {
    BLOCK_SIZE - RECORD_SIZE < Length(f, LengthAt(slot)) < BLOCK_SIZE
  }

  lemma SlotApart(slot: nat, other: nat)
    requires other != slot
    ensures other == Sibling(slot) <==> other / 2 == slot / 2
    ensures other / 2 != slot / 2 ==>
              (other / 2 + 1) * BLOCK_SIZE <= SlotStart(slot) || SlotStart(slot) + RECORD_SIZE <= other / 2 * BLOCK_SIZE
  {
  }

  /** Writing a record changes no other slot, except one that reaches into the record. */
  lemma {:induction false} OtherSlots(f: seq<byte>, g: seq<byte>, slot: nat, other: nat)
    requires (slot / 2 + 1) * BLOCK_SIZE <= |f| && (other / 2 + 1) * BLOCK_SIZE <= |f|
    requires DiffersAt(f, g, SlotStart(slot)) && other != slot
    requires other == Sibling(slot) ==> !Reaches(f, other)
    ensures SlotSequence(f, other) == SlotSequence(g, other)
  {
    hide Word, Framed, Sequence;
    var p := SlotStart(slot);
    var at := LengthAt(other);
    SlotApart(slot, other);
    SameOutside(f, g, p, at);
    var size := Length(f, at);
    if ValidLength(size) {
      SameFrame(f, g, p, if other % 2 == 0 then other / 2 * BLOCK_SIZE else (other / 2 + 1) * BLOCK_SIZE - size, size);
    }
  }

  /** The search in flash that differs by a record with the next sequence number. */
  lemma {:induction false} SearchBehind(f: seq<byte>, g: seq<byte>, n: nat, slot: nat, seqno: u32, boot: Boot)
    requires Blocks(f, n) && Blocks(g, n) && slot < 2 * n && DiffersAt(f, g, SlotStart(slot))
    requires IsRecord(SlotRecord(g, slot), seqno, boot)
    requires seqno == Search(f, 0, n, NothingFound()).seqno + 1
    ensures var now, sib := Search(g, 0, n, NothingFound()), SlotSequence(g, Sibling(slot));
            && (now.seqno == seqno <==> seqno != NO_SEQUENCE && sib <= seqno)
            && (seqno != NO_SEQUENCE && (sib < seqno || (sib == seqno && slot % 2 == 0)) ==> now == Found(seqno, boot))
            && (!Reaches(f, Sibling(slot)) ==> sib < seqno)
  {
    hide Word, DiffersAt, IsRecord, SlotSequence, Tags, Search, Reaches, SlotRecord;
    SearchVisits(f, 0, n);
    SearchVisits(g, 0, n);
    RecordSequence(g, slot, seqno, boot);
    RecordTags(SlotRecord(g, slot), seqno, boot);
    FoundSomewhere(g, 2 * n, n);
    var sibling := Sibling(slot);
    var sib := SlotSequence(g, sibling);
    var best := Search(f, 0, n, NothingFound()).seqno;
    forall i | 0 <= i < 2 * n && i != slot && (i != sibling || !Reaches(f, sibling))
      ensures SlotSequence(g, i) <= best
    {
      OtherSlots(f, g, slot, i);
      HighestFound(f, 2 * n, n, i);
    }
    if seqno != NO_SEQUENCE {
      HighestFound(g, 2 * n, n, slot);
      HighestFound(g, 2 * n, n, sibling);
      if sib < seqno || (sib == seqno && slot % 2 == 0) {
        SelectedSlot(g, 2 * n, n, slot);
      }
    }
  }

  /** Flash with a record laid over the 1 KB of a slot. */
  function Laid(f: seq<byte>, slot: nat, r: seq<byte>): (g: seq<byte>)
    requires (slot / 2 + 1) * BLOCK_SIZE <= |f| && |r| == RECORD_SIZE
    ensures DiffersAt(f, g, SlotStart(slot)) && SlotRecord(g, slot) == r
  {
    var p := SlotStart(slot);
    f[..p] + r + f[p + RECORD_SIZE..]
  }

  /** The number that the other place of the block has once the record lies in its slot. */
  function SiblingSequence(f: seq<byte>, n: nat, slot: nat, r: seq<byte>): u32
    requires Blocks(f, n) && slot < 2 * n && |r| == RECORD_SIZE
  {
    SlotSequence(Laid(f, slot, r), Sibling(slot))
  }

  /** What a search then finds. */
  function SearchAfter(f: seq<byte>, n: nat, slot: nat, r: seq<byte>): Found
    requires Blocks(f, n) && slot < 2 * n && |r| == RECORD_SIZE
  {
    Search(Laid(f, slot, r), 0, n, NothingFound())
  }

  /** A place that claims no record reaching into the other place of its block. */
  predicate StaysApart(f: seq<byte>, n: nat, slot: nat)
    requires Blocks(f, n)
  {
    slot < 2 * n ==> !Reaches(f, slot)
  }

  /** After a record with the next sequence number has been laid over the start or
      the end of a block, the search ends with that number exactly if the number is
      valid and the other place of the block shows no higher one then; that can only
      happen when it claims a record that reaches into the 1 KB of the new one. */
  lemma {:induction false} WrittenIsFound(f: seq<byte>, n: nat, slot: nat, r: seq<byte>, seqno: u32, boot: Boot)
    requires Blocks(f, n) && slot < 2 * n && IsRecord(r, seqno, boot)
    requires seqno == Search(f, 0, n, NothingFound()).seqno + 1
    ensures var now, sib := SearchAfter(f, n, slot, r), SiblingSequence(f, n, slot, r);
            && (now.seqno == seqno <==> seqno != NO_SEQUENCE && sib <= seqno)
            && (seqno != NO_SEQUENCE && (sib < seqno || (sib == seqno && slot % 2 == 0)) ==> now == Found(seqno, boot))
            && (StaysApart(f, n, Sibling(slot)) ==> sib < seqno)
  {
    hide Word, SlotSequence, Search, Reaches, SlotRecord, Laid;
    SearchBehind(f, Laid(f, slot, r), n, slot, seqno, boot);
  }

  // ---- a record that is overtaken

  /** The bytes of words. */
  function Bytes(ws: seq<u32>): (r: seq<byte>)
    ensures |r| == 4 * |ws|
  {
    seq(4 * |ws|, i requires 0 <= i < 4 * |ws| => WordBytes(ws[i / 4])[i % 4])
  }

  lemma WordsAt(ws: seq<u32>, k: nat)
    requires k < |ws|
    ensures Word(Bytes(ws), 4 * k) == ws[k]
  {
    hide WordBytes;
    var b := WordBytes(ws[k]);
    WordOfBytes(ws[k]);
    assert forall j :: 0 <= j < 4 ==> Bytes(ws)[4 * k + j] == b[j];
  }

  /** One block whose start claims a record of 0x3F0B words with number 100, but has no trailer for it. */
  function Claiming(): (ws: seq<u32>)
    ensures |ws| == BLOCK_SIZE / 4
  {
    seq(BLOCK_SIZE / 4, k => if k == 0 then BEGIN_MAGIC else if k == 1 then 0x3F0B else if k == 3 then 100 else 0)
  }

  /** A record for the end of that block, with number 1 and the trailer among its arguments. */
  function Completing(): (ws: seq<u32>)
    ensures |ws| == BDR_SIZE
  {
    seq(BDR_SIZE, k =>
      if k == 0 then BEGIN_MAGIC else if k == 1 then BDR_SIZE else if k == 3 then 1
      else if k == 4 then 0x0004_0002 else if k == 6 then 0x0102_0002
      else if k == 8 then 0x0203_0081 else if k == 9 then 0x3F0B else if k == 10 then END_MAGIC
      else if k == 137 then 0x0301_0001
      else if k == BDR_SIZE - 2 then BDR_SIZE else if k == BDR_SIZE - 1 then END_MAGIC else 0)
  }

  lemma CompletingIsRecord()
    ensures var r := Bytes(Completing()); IsRecord(r, 1, Boot(Word(r, 28), r[36..36 + ARG_SIZE]))
  {
    hide Word, Bytes;
    var ws := Completing();
    WordsAt(ws, 0);
    WordsAt(ws, 1);
    WordsAt(ws, 3);
    WordsAt(ws, 4);
    WordsAt(ws, 6);
    WordsAt(ws, 8);
    WordsAt(ws, 137);
    WordsAt(ws, BDR_SIZE - 2);
    WordsAt(ws, BDR_SIZE - 1);
  }

  lemma ClaimingIsEmpty()
    ensures var f := Bytes(Claiming());
            Blocks(f, 1) && SlotSequence(f, 0) == 0 && SlotSequence(f, 1) == 0
  {
    hide Word, Bytes;
    var ws := Claiming();
    WordsAt(ws, 1);
    WordsAt(ws, 0x3F0B - 1);
    WordsAt(ws, BLOCK_SIZE / 4 - 2);
  }

  lemma FrameIsCompleted(f: seq<byte>, r: seq<byte>)
    requires f == Bytes(Claiming()) && r == Bytes(Completing())
    ensures SiblingSequence(f, 1, 1, r) == 100
  {
    hide Word, Bytes, Laid;
    var p := SlotStart(1);
    var g := Laid(f, 1, r);
    WordsAt(Claiming(), 0);
    WordsAt(Claiming(), 1);
    WordsAt(Claiming(), 3);
    WordsAt(Completing(), 9);
    WordsAt(Completing(), 10);
    SameOutside(f, g, p, 0);
    SameOutside(f, g, p, 4);
    SameOutside(f, g, p, 12);
    WordInside(g, p, p + RECORD_SIZE, 36);
    WordInside(g, p, p + RECORD_SIZE, 40);
  }

  /** The search can end with another record than the one just written: its 1 KB makes a
      record of the other place that was none before. */
  lemma {:induction false} RecordIsOvertaken() returns (f: seq<byte>, r: seq<byte>, boot: Boot)
    ensures Blocks(f, 1) && IsRecord(r, 1, boot) && Search(f, 0, 1, NothingFound()).seqno == 0
    ensures SiblingSequence(f, 1, 1, r) == 100
    ensures SearchAfter(f, 1, 1, r).seqno != 1
  {
    hide Word, Bytes, Search, IsRecord, Laid, SlotSequence;
    f, r := Bytes(Claiming()), Bytes(Completing());
    boot := Boot(Word(r, 28), r[36..36 + ARG_SIZE]);
    CompletingIsRecord();
    ClaimingIsEmpty();
    SearchVisits(f, 0, 1);
    FoundSomewhere(f, 2, 1);
    FrameIsCompleted(f, r);
    WrittenIsFound(f, 1, 1, r, 1, boot);
  }
}
