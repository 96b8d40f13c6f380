/** Chunked EEPROM access of cmd_eeprom.c, on a device whose address counter wraps inside
    a page when it is written and inside a 256-byte block when it is read. */
module Eeprom {
  import opened Arithmetic
  import opened CString
  import opened Words

  const BLOCK := 0x100

  /** The address that the counter has reached i bytes behind an offset. */
  function Counter(page: nat, offset: nat, i: nat): nat
    requires 0 < page
  {
    Times(Div(offset, page), page) + Mod(Mod(offset, page) + i, page)
  }

  lemma TimesNothing(c: nat)
    ensures Times(0, c) == 0
  {
  }

  /** Up to the end of its page, the counter goes up. */
  lemma CounterInPage(page: nat, offset: nat, i: nat)
    requires 0 < page
    ensures Mod(offset, page) + i < page ==> Counter(page, offset, i) == offset + i
    ensures Mod(offset, page) + i == page ==> Counter(page, offset, i) == offset + i - page
  {
    hide Times, Div, Mod;
    Quotient(offset, page);
    TimesNothing(page);
    TimesOne(page);
    if Mod(offset, page) + i < page {
      QuotientIs(Mod(offset, page) + i, page, 0, Mod(offset, page) + i);
    } else if Mod(offset, page) + i == page {
      QuotientIs(page, page, 1, 0);
    }
  }

  /** A write page is a part of a block: with at most eight page bits, blocks divide into pages. */
  predicate PageSize(page: nat) {
    0 < page && Mod(BLOCK, page) == 0
  }

  lemma WholeBlocks(m: nat)
    ensures Times(m, BLOCK) == m * BLOCK
  {
  }

  lemma {:induction false} OffsetInPage(page: nat, offset: nat)
    requires PageSize(page)
    ensures Mod(offset % BLOCK, page) == Mod(offset, page)
  {
    hide Times, Div, Mod;
    var k := Div(BLOCK, page);
    Quotient(BLOCK, page);
    Quotient(offset % BLOCK, page);
    WholeBlocks(offset / BLOCK);
    Associate(offset / BLOCK, k, page);
    Distribute(Times(offset / BLOCK, k), Div(offset % BLOCK, page), page);
    QuotientIs(offset, page, Times(offset / BLOCK, k) + Div(offset % BLOCK, page), Mod(offset % BLOCK, page));
  }

  lemma ModZero(page: nat)
    requires 0 < page
    ensures Mod(0, page) == 0
  {
  }

  /** The page offset may be computed from the block offset exactly if blocks divide into pages. */
  lemma OffsetFromBlock(page: nat)
    requires 0 < page
    ensures PageSize(page) <==> forall offset: nat :: Mod(offset % BLOCK, page) == Mod(offset, page)
  {
    hide Mod;
    if PageSize(page) {
      forall offset: nat ensures Mod(offset % BLOCK, page) == Mod(offset, page) {
        OffsetInPage(page, offset);
      }
    } else {
      ModZero(page);
      assert Mod(BLOCK % BLOCK, page) != Mod(BLOCK, page);
    }
  }

  /** What a write transfer does to the device's memory; addresses behind its end are ignored. */
  function Written(m: seq<byte>, page: nat, offset: nat, data: seq<byte>): (r: seq<byte>)
    requires 0 < page
    ensures |r| == |m|
  {
    if data == [] then m
    else
      var before, at := Written(m, page, offset, data[..|data| - 1]), Counter(page, offset, |data| - 1);
      if at < |m| then before[at := data[|data| - 1]] else before
  }

  /** What a read transfer returns; zero stands for addresses behind the end. */
  function Fetched(m: seq<byte>, offset: nat, n: nat): (r: seq<byte>)
    ensures |r| == n
  {
    if n == 0 then []
    else
      var at := Counter(BLOCK, offset, n - 1);
      Fetched(m, offset, n - 1) + [if at < |m| then m[at] else 0]
  }

  function Replaced(m: seq<byte>, offset: nat, data: seq<byte>): (r: seq<byte>)
    requires offset + |data| <= |m|
    ensures |r| == |m|
  {
    m[..offset] + data + m[offset + |data|..]
  }

  /** Inside a page, a transfer is a flat write. */
  lemma {:induction false} WrittenIsFlat(m: seq<byte>, page: nat, offset: nat, data: seq<byte>)
    requires 0 < page && offset + |data| <= |m| && Mod(offset, page) + |data| <= page
    ensures Written(m, page, offset, data) == Replaced(m, offset, data)
  {
    hide Counter, Mod;
    if data != [] {
      var n := |data| - 1;
      WrittenIsFlat(m, page, offset, data[..n]);
      CounterInPage(page, offset, n);
      assert data == data[..n] + [data[n]];
    }
  }

  lemma BlockOffset(offset: nat)
    ensures Mod(offset, BLOCK) == offset % BLOCK
  {
  }

  lemma {:induction false} FetchedIsFlat(m: seq<byte>, offset: nat, n: nat)
    requires offset + n <= |m| && offset % BLOCK + n <= BLOCK
    ensures Fetched(m, offset, n) == m[offset..offset + n]
  {
    hide Counter;
    if n > 0 {
      FetchedIsFlat(m, offset, n - 1);
      BlockOffset(offset);
      CounterInPage(BLOCK, offset, n - 1);
    }
  }

  /** Length of the next chunk: up to the end of the page, at most rx bytes. */
  function ChunkLength(room: nat, rx: nat, left: nat): (len: nat)
    ensures len <= room && len <= rx && len <= left
    ensures 0 < room && 0 < rx && 0 < left ==> 0 < len
  {
    var most := if room > rx then rx else room;
    if left > most then most else left
  }

  lemma InPage(offset: nat, page: nat)
    requires 0 < page
    ensures Mod(offset, page) < page
  {
    Quotient(offset, page);
  }

  /** Number of transfers that a range is cut into. */
  function Chunks(unit: nat, rx: nat, offset: nat, left: nat): nat
    requires 0 < unit && 0 < rx
    decreases left
  {
    if left == 0 then 0
    else
      InPage(offset, unit);
      var len := ChunkLength(unit - Mod(offset, unit), rx, left);
      1 + Chunks(unit, rx, offset + len, left - len)
  }

  lemma NoChunks(rx: nat, offset: nat)
    requires 0 < rx
    ensures Chunks(BLOCK, rx, offset, 0) == 0
  {
  }

  lemma ChunkStep(rx: nat, offset: nat, left: nat)
    requires 0 < rx && 0 < left
    ensures var len := ChunkLength(BLOCK - offset % BLOCK, rx, left);
            0 < len && Chunks(BLOCK, rx, offset, left) == 1 + Chunks(BLOCK, rx, offset + len, left - len)
  {
    hide Mod;
    BlockOffset(offset);
  }

  lemma NothingReplaced(m: seq<byte>, offset: nat)
    requires offset <= |m|
    ensures Replaced(m, offset, []) == m
  {
  }

  lemma ReplacedTwice(m: seq<byte>, offset: nat, data: seq<byte>, done: nat, n: nat)
    requires offset + |data| <= |m| && done + n <= |data|
    ensures Replaced(Replaced(m, offset, data[..done]), offset + done, data[done..done + n])
            == Replaced(m, offset, data[..done + n])
  {
    assert data[..done + n] == data[..done] + data[done..done + n];
  }

  class Device {
    const mem: array<byte>
    /** Write page size and the longest transfer. */
    const page: nat
    const rx: nat
    /** Results of the transfers to come, and what a failed one leaves behind; then all succeed. */
    const tape: seq<bool>
    const junk: byte
    var t: nat

    /** Whether the k-th transfer succeeds. */
    predicate Succeeds(k: nat) {
      k < |tape| ==> tape[k]
    }

    /** Whether all transfers from one to another succeed, and the return code that tells it. */
    predicate AllSucceed(from: nat, to: nat) {
      forall k :: from <= k < to && k < |tape| ==> tape[k]
    }

    function CodeOf(from: nat, to: nat): int {
      if AllSucceed(from, to) then 0 else 1
    }

    lemma OneMore(from: nat, to: nat)
      requires from <= to
      ensures AllSucceed(from, from) && (AllSucceed(from, to + 1) <==> AllSucceed(from, to) && Succeeds(to))
    {
    }

    ghost predicate Valid() {
      PageSize(page) && 0 < rx && mem.Length <= U32
    }

    constructor (mem: array<byte>, page: nat, rx: nat, tape: seq<bool>, junk: byte)
      requires PageSize(page) && 0 < rx && mem.Length <= U32
      ensures Valid() && this.mem == mem && this.page == page && this.rx == rx
      ensures this.tape == tape && this.junk == junk && t == 0
    {
      this.mem, this.page, this.rx, this.tape, this.junk, t := mem, page, rx, tape, junk, 0;
    }

    method I2cWrite(offset: nat, data: seq<byte>) returns (ok: bool)
      requires 0 < page
      modifies this`t, mem
      ensures t == old(t) + 1 && ok == Succeeds(old(t))
      ensures mem[..] == Written(old(mem[..]), page, offset, if ok then data else seq(|data|, _ => junk))
    {
      hide Counter;
      ok := Succeeds(t);
      t := t + 1;
      var sent := if ok then data else seq(|data|, _ => junk);
      for i := 0 to |sent|
        invariant mem[..] == Written(old(mem[..]), page, offset, sent[..i])
        invariant t == old(t) + 1
      {
        assert sent[..i + 1][..i] == sent[..i];
        if Counter(page, offset, i) < mem.Length {
          mem[Counter(page, offset, i)] := sent[i];
        }
      }
      assert sent[..|sent|] == sent;
    }

    method I2cRead(offset: nat, n: nat) returns (ok: bool, data: seq<byte>)
      modifies this`t
      ensures t == old(t) + 1 && ok == Succeeds(old(t))
      ensures |data| == n && (ok ==> data == Fetched(mem[..], offset, n))
    {
      hide Counter;
      ok := Succeeds(t);
      t := t + 1;
      data := [];
      for i := 0 to n
        invariant |data| == i && (ok ==> data == Fetched(mem[..], offset, i))
      {
        var at := Counter(BLOCK, offset, i);
        data := data + [if !ok then junk else if at < mem.Length then mem[at] else 0];
      }
    }

    /** A chunk that stays inside its page. */
    method WriteChunk(offset: nat, chunk: seq<byte>) returns (ok: bool)
      requires 0 < page && offset + |chunk| <= mem.Length && Mod(offset, page) + |chunk| <= page
      modifies this`t, mem
      ensures t == old(t) + 1 && ok == Succeeds(old(t))
      ensures ok ==> mem[..] == Replaced(old(mem[..]), offset, chunk)
      ensures forall i :: 0 <= i < mem.Length && !(offset <= i < offset + |chunk|) ==> mem[i] == old(mem[i])
    {
      hide Written, Mod;
      ghost var now := mem[..];
      ok := I2cWrite(offset, chunk);
      ghost var sent := if ok then chunk else seq(|chunk|, _ => junk);
      WrittenIsFlat(now, page, offset, sent);
      forall i | 0 <= i < mem.Length && !(offset <= i < offset + |chunk|) ensures mem[i] == now[i] {
        assert mem[i] == Replaced(now, offset, sent)[i];
      }
    }

    /** The loop over the chunks. */
    method WriteChunks(offset0: u32, buffer: seq<byte>) returns (rcode: int)
      requires Valid() && offset0 + |buffer| <= mem.Length
      modifies this`t, mem
      ensures t == old(t) + Chunks(page, rx, offset0, |buffer|) && rcode == CodeOf(old(t), t)
      ensures rcode == 0 ==> mem[..] == Replaced(old(mem[..]), offset0, buffer)
      ensures forall i :: 0 <= i < mem.Length && !(offset0 <= i < offset0 + |buffer|) ==> mem[i] == old(mem[i])
    {
      hide Mod, Replaced, Succeeds, AllSucceed;
      rcode := 0;
      var done: nat := 0;
      ghost var before := mem[..];
      NothingReplaced(before, offset0);
      OneMore(t, t);
      while done < |buffer|
        invariant done <= |buffer| && old(t) <= t && rcode == CodeOf(old(t), t)
        invariant t + Chunks(page, rx, offset0 + done, |buffer| - done) == old(t) + Chunks(page, rx, offset0, |buffer|)
        invariant rcode == 0 ==> mem[..] == Replaced(before, offset0, buffer[..done])
        invariant forall i :: 0 <= i < mem.Length && !(offset0 <= i < offset0 + |buffer|) ==> mem[i] == before[i]
      {
        var offset := offset0 + done;
        OffsetInPage(page, offset);
        InPage(offset, page);
        var len := ChunkLength(page - Mod(offset % BLOCK, page), rx, |buffer| - done);
        OneMore(old(t), t);
        var ok := WriteChunk(offset, buffer[done..done + len]);
        if !ok {
          rcode := 1;
        }
        ReplacedTwice(before, offset0, buffer, done, len);
        done := done + len;
      }
      assert buffer[..done] == buffer;
    }

    /** eeprom_write: one transfer for every chunk, and a flat write when all of them succeed, which
        the return code tells; nothing at all when the end of the range overflows 32 bits. */
    method EepromWrite(offset: u32, buffer: seq<byte>) returns (rcode: int)
      requires Valid() && (offset + |buffer| < U32 ==> offset + |buffer| <= mem.Length) && |buffer| < U32
      modifies this`t, mem
      ensures offset + |buffer| >= U32 ==> rcode == 0 && mem[..] == old(mem[..]) && t == old(t)
      ensures offset + |buffer| < U32 ==> t == old(t) + Chunks(page, rx, offset, |buffer|)
      ensures rcode in {0, 1} && (rcode == 0 <==> forall k :: old(t) <= k < t && k < |tape| ==> tape[k])
      ensures offset + |buffer| < U32 && rcode == 0 ==> mem[..] == Replaced(old(mem[..]), offset, buffer)
      ensures forall i :: 0 <= i < mem.Length && !(offset <= i < offset + |buffer|) ==> mem[i] == old(mem[i])
    {
      hide PageSize;
      rcode := 0;
      var end := (offset + |buffer|) % U32;
      if offset < end {
        rcode := WriteChunks(offset, buffer);
      } else if offset + |buffer| < U32 {
        NothingReplaced(mem[..], offset);
      }
    }

    /** The loop over the chunks. */
    method ReadChunks(offset0: u32, cnt: nat) returns (rcode: int, buffer: seq<byte>)
      requires Valid() && offset0 + cnt <= mem.Length
      modifies this`t
      ensures t == old(t) + Chunks(BLOCK, rx, offset0, cnt) && rcode == CodeOf(old(t), t)
      ensures |buffer| == cnt && (rcode == 0 ==> buffer == mem[offset0..offset0 + cnt])
    {
      hide Fetched, Chunks, ChunkLength, Succeeds, AllSucceed;
      rcode, buffer := 0, [];
      NoChunks(rx, offset0 + cnt);
      ghost var m := mem[..];
      OneMore(t, t);
      while |buffer| < cnt
        invariant |buffer| <= cnt && old(t) <= t && rcode == CodeOf(old(t), t)
        invariant t + Chunks(BLOCK, rx, offset0 + |buffer|, cnt - |buffer|) == old(t) + Chunks(BLOCK, rx, offset0, cnt)
        invariant rcode == 0 ==> buffer == m[offset0..offset0 + |buffer|]
      {
        var offset := offset0 + |buffer|;
        var len := ChunkLength(BLOCK - offset % BLOCK, rx, cnt - |buffer|);
        ChunkStep(rx, offset, cnt - |buffer|);
        OneMore(old(t), t);
        var ok, data := I2cRead(offset, len);
        FetchedIsFlat(m, offset, len);
        if !ok {
          rcode := 1;
        }
        assert m[offset0..offset + len] == m[offset0..offset] + m[offset..offset + len];
        buffer := buffer + data;
      }
    }

    /** eeprom_read, likewise. */
    method EepromRead(offset: u32, cnt: nat) returns (rcode: int, buffer: seq<byte>)
      requires Valid() && cnt < U32 && (offset + cnt < U32 ==> offset + cnt <= mem.Length)
      modifies this`t
      ensures offset + cnt >= U32 ==> rcode == 0 && buffer == [] && t == old(t)
      ensures offset + cnt < U32 ==> t == old(t) + Chunks(BLOCK, rx, offset, cnt)
      ensures rcode in {0, 1} && (rcode == 0 <==> forall k :: old(t) <= k < t && k < |tape| ==> tape[k])
      ensures offset + cnt < U32 ==> |buffer| == cnt && (rcode == 0 ==> buffer == mem[offset..offset + cnt])
    {
      rcode, buffer := 0, [];
      var end := (offset + cnt) % U32;
      if offset < end {
        rcode, buffer := ReadChunks(offset, cnt);
      }
    }
  }
}
