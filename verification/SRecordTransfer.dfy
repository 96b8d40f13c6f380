/** S-record upload and download of cmd_load.c, over all of the 32-bit address space. */
module SRecordTransfer {
  import opened CString
  import opened Words
  import opened SRecord

  const MAX_RECORD := 516

  // ---- upload

  /** n bytes from an address on; addresses wrap. */
  function Bytes(m: seq<byte>, addr: u32, n: nat): (r: seq<byte>)
    requires |m| == U32
    ensures |r| == n
  {
    if n == 0 then [] else Bytes(m, addr, n - 1) + [m[(addr + n - 1) % U32]]
  }

  /** The data records for a range. */
  function Records(m: seq<byte>, addr: u32, count: nat): string
    requires |m| == U32
    decreases count
  {
    if count == 0 then ""
    else
      var n := RecordLength(count);
      Record(addr, Bytes(m, addr, n)) + Records(m, (addr + n) % U32, count - n)
  }

  function Upload(m: seq<byte>, addr: u32, count: nat): string
    requires |m| == U32
  {
    START_RECORD + Records(m, addr, count) + END_RECORD
  }

  // ---- download

  datatype Line = Waiting | Stop | Line(text: string, next: nat)

  /** First position from p on, at most n further, that is no plain character. */
  function LineEnd(input: string, p: nat, n: nat): (q: nat)
    requires p <= |input|
    ensures p <= q <= p + n && q <= |input|
    ensures forall i :: p <= i < q ==> Plain(input[i])
    ensures q < p + n && q < |input| ==> !Plain(input[q])
    decreases n
  {
    if n == 0 || p == |input| || !Plain(input[p]) then p else LineEnd(input, p + 1, n - 1)
  }

  /** read_record: a line that is too long is cut, the rest is the next line. */
  function ReadLine(input: string, p: nat): (r: Line)
    requires p <= |input|
    ensures r.Line? ==> p < r.next <= |input|
  {
    var q := LineEnd(input, p, MAX_RECORD);
    if q == p + MAX_RECORD then Line(input[p..q], q)
    else if q == |input| then Waiting
    else if input[q] == '\r' || input[q] == '\n' then Line(input[p..q], q + 1)
    else Stop
  }

  /** memcpy of the data to an address; addresses wrap. */
  function Put(m: seq<byte>, addr: u32, data: seq<byte>): (r: seq<byte>)
    requires |m| == U32
    ensures |r| == U32
  {
    if data == [] then m
    else Put(m, addr, data[..|data| - 1])[(addr + |data| - 1) % U32 := data[|data| - 1]]
  }

  /** The receiver waits for input, gives up, copies a negative number of bytes, or has finished. */
  datatype Status = Blocked | Aborted | Crash | Loaded(entry: nat, size: nat)

  datatype Download = Download(mem: seq<byte>, status: Status)

  predicate IsData(kind: char) {
    kind == '1' || kind == '2' || kind == '3'
  }

  predicate IsEnd(kind: char) {
    kind == '7' || kind == '8' || kind == '9'
  }

  function Min(a: nat, b: nat): nat {
    if a < b then a else b
  }

  function Max(a: nat, b: nat): nat {
    if a > b then a else b
  }

  /** load_serial from position p on, with the lowest and highest address so far. */
  function Load(m: seq<byte>, input: string, p: nat, offset: nat, lo: nat, hi: nat): Download
    requires |m| == U32 && p <= |input|
    decreases |input| - p
  {
    match ReadLine(input, p)
    case Waiting => Download(m, Blocked)
    case Stop => Download(m, Aborted)
    case Line(text, next) =>
      match Decode(text)
      case Empty => Load(m, input, next, offset, lo, hi)
      case Rec(kind, count, addr, data) =>
        if IsEnd(kind) then Download(m, Loaded(addr, (hi - lo + 1) % U32))
        else if !IsData(kind) then Load(m, input, next, offset, lo, hi)
        else if count < 0 then Download(m, Crash)
        else
          var store := (addr + offset) % U32;
          Load(Put(m, store, data), input, next, offset, Min(lo, store), Max(hi, (store + count - 1) % U32))
      case _ => Download(m, Aborted)
  }

  // ---- upload and download restore memory

  /** Memory that has in the n bytes from one address on what another memory has from an address of its own
      on, and in all others what it had before. */
  predicate Restored(r: seq<byte>, before: seq<byte>, m: seq<byte>, from: u32, to: u32, n: nat) {
    && |r| == |before| == |m| == U32
    && forall i :: 0 <= i < U32 ==> r[i] == if (i - to) % U32 < n then m[(i - to + from) % U32] else before[i]
  }

  lemma PutSnoc(m: seq<byte>, addr: u32, data: seq<byte>, b: byte)
    requires |m| == U32
    ensures Put(m, addr, data + [b]) == Put(m, addr, data)[(addr + |data|) % U32 := b] && Put(m, addr, []) == m
  {
    assert (data + [b])[..|data|] == data;
  }

  lemma NothingRestored(before: seq<byte>, m: seq<byte>, from: u32, to: u32)
    requires |before| == |m| == U32
    ensures Restored(before, before, m, from, to, 0)
  {
  }

  /** Distances of addresses, going upwards and wrapping. */
  lemma Distance(i: nat, addr: u32, n: nat)
    requires i < U32 && n < U32
    ensures i == (addr + n) % U32 <==> (i - addr) % U32 == n
    ensures var d := (i - addr) % U32;
            (i - (addr + n) % U32) % U32 == if n <= d then d - n else d - n + U32
  {
  }

  /** The counterpart of an address stands at the same distance. */
  lemma Counterpart(i: nat, from: u32, to: u32, n: nat)
    requires i < U32 && n < U32
    ensures i == (to + n) % U32 ==> (i - to + from) % U32 == (from + n) % U32
    ensures (i - (to + n) % U32 + (from + n) % U32) % U32 == (i - to + from) % U32
  {
  }

  lemma OneRestored(r: seq<byte>, before: seq<byte>, m: seq<byte>, from: u32, to: u32, n: nat)
    requires Restored(r, before, m, from, to, n) && n < U32
    ensures Restored(r[(to + n) % U32 := m[(from + n) % U32]], before, m, from, to, n + 1)
  {
    var p := (to + n) % U32;
    var now := r[p := m[(from + n) % U32]];
    forall i | 0 <= i < U32
      ensures now[i] == if (i - to) % U32 < n + 1 then m[(i - to + from) % U32] else before[i]
    {
      Distance(i, to, n);
      Counterpart(i, from, to, n);
      assert r[i] == if (i - to) % U32 < n then m[(i - to + from) % U32] else before[i];
    }
  }

  lemma {:induction false} PutRestores(before: seq<byte>, m: seq<byte>, from: u32, to: u32, n: nat)
    requires |before| == |m| == U32 && n <= U32
    ensures Restored(Put(before, to, Bytes(m, from, n)), before, m, from, to, n)
  {
    hide Restored, Put;
    if n == 0 {
      PutSnoc(before, to, [], 0);
      NothingRestored(before, m, from, to);
    } else {
      PutRestores(before, m, from, to, n - 1);
      PutSnoc(before, to, Bytes(m, from, n - 1), m[(from + n - 1) % U32]);
      OneRestored(Put(before, to, Bytes(m, from, n - 1)), before, m, from, to, n - 1);
    }
  }

  lemma {:induction false} RestoredTwice(r: seq<byte>, mid: seq<byte>, before: seq<byte>, m: seq<byte>,
                                         from: u32, to: u32, n: nat, k: nat)
    requires Restored(mid, before, m, from, to, n) && n < U32 && n + k <= U32
    requires Restored(r, mid, m, (from + n) % U32, (to + n) % U32, k)
    ensures Restored(r, before, m, from, to, n + k)
  {
    forall i | 0 <= i < U32
      ensures r[i] == if (i - to) % U32 < n + k then m[(i - to + from) % U32] else before[i]
    {
      Distance(i, to, n);
      Counterpart(i, from, to, n);
      assert mid[i] == if (i - to) % U32 < n then m[(i - to + from) % U32] else before[i];
    }
  }

  lemma {:induction false} LineEndIs(input: string, p: nat, n: nat, q: nat)
    requires p <= q < p + n && q < |input| && !Plain(input[q])
    requires forall i :: p <= i < q ==> Plain(input[i])
    ensures LineEnd(input, p, n) == q
    decreases n
  {
    if p < q {
      LineEndIs(input, p + 1, n - 1, q);
    }
  }

  lemma PlainLineIsRead(input: string, p: nat, t: string)
    requires Has(input, p, t) && PlainLine(t) && |t| <= MAX_RECORD
    ensures ReadLine(input, p) == Line(t[..|t| - 1], p + |t|)
  {
    var q := p + |t| - 1;
    forall i | p <= i <= q ensures input[i] == t[i - p] {
      HasAt(input, p, t, i - p);
    }
    LineEndIs(input, p, MAX_RECORD, q);
    assert input[p..q] == t[..|t| - 1];
  }

  lemma {:induction false} LoadStart(before: seq<byte>, input: string, offset: u32, lo: nat, hi: nat)
    requires |before| == U32 && Has(input, 0, START_RECORD)
    ensures Load(before, input, 0, offset, lo, hi) == Load(before, input, |START_RECORD|, offset, lo, hi)
  {
    hide Decode, ReadLine;
    PlainLineIsRead(input, 0, START_RECORD);
    assert START_RECORD[..|START_RECORD| - 1] == "S0030000FC";
    StartDecodes();
  }

  lemma {:induction false} LoadEnd(before: seq<byte>, input: string, p: nat, offset: u32, lo: nat, hi: nat)
    requires |before| == U32 && Has(input, p, END_RECORD)
    ensures Load(before, input, p, offset, lo, hi) == Download(before, Loaded(0, (hi - lo + 1) % U32))
  {
    hide Decode, ReadLine;
    PlainLineIsRead(input, p, END_RECORD);
    assert END_RECORD[..|END_RECORD| - 1] == "S70500000000FA";
    EndDecodes();
  }

  function RecordLength(count: nat): nat {
    if count < BYTES_PER_RECORD then count else BYTES_PER_RECORD
  }

  /** The first record of a range, what follows it, and where both stand. */
  lemma {:induction false} FirstRecord(m: seq<byte>, input: string, p: nat, addr: u32, count: nat, end: string)
    requires |m| == U32 && Has(input, p, Records(m, addr, count) + end)
    ensures count == 0 ==> Has(input, p, end)
    ensures count > 0 ==>
              var n := RecordLength(count);
              var record := Record(addr, Bytes(m, addr, n));
              Has(input, p, record) && Has(input, p + |record|, Records(m, (addr + n) % U32, count - n) + end)
  {
    hide Record, Bytes, Has;
    if count == 0 {
      assert "" + end == end;
    } else {
      var n := RecordLength(count);
      var record, rest := Record(addr, Bytes(m, addr, n)), Records(m, (addr + n) % U32, count - n);
      assert record + rest + end == record + (rest + end);
      HasSplit(input, p, record, rest + end);
    }
  }

  lemma {:induction false} LoadData(before: seq<byte>, input: string, p: nat, next: nat, addr: u32, data: seq<byte>,
                                    offset: u32, lo: nat, hi: nat)
    requires |before| == U32 && p <= |input| && ReadLine(input, p).Line? && ReadLine(input, p).next == next
    requires Decode(ReadLine(input, p).text) == Rec('3', |data|, addr, data)
    ensures var to := (addr + offset) % U32;
            Load(before, input, p, offset, lo, hi)
            == Load(Put(before, to, data), input, next, offset, Min(lo, to), Max(hi, (to + |data| - 1) % U32))
  {
    hide Decode, ReadLine, Put;
  }

  /** One data record of an upload. */
  lemma {:induction false} LoadOne(before: seq<byte>, m: seq<byte>, input: string, p: nat, addr: u32, n: nat,
                                   offset: u32, lo: nat, hi: nat)
    requires |before| == |m| == U32 && 0 < n <= BYTES_PER_RECORD && Has(input, p, Record(addr, Bytes(m, addr, n)))
    ensures p + |Record(addr, Bytes(m, addr, n))| <= |input|
    ensures var to := (addr + offset) % U32;
            Load(before, input, p, offset, lo, hi)
            == Load(Put(before, to, Bytes(m, addr, n)), input, p + |Record(addr, Bytes(m, addr, n))|, offset,
                    Min(lo, to), Max(hi, (to + n - 1) % U32))
  {
    hide Load, Record, Decode, ReadLine, PlainLine, Put, Bytes, Has;
    var data := Bytes(m, addr, n);
    RecordIsWellFormed(addr, data);
    RecordDecodes(addr, data);
    PlainLineIsRead(input, p, Record(addr, data));
    LoadData(before, input, p, p + |Record(addr, data)|, addr, data, offset, lo, hi);
  }

  /** How far an address stands behind a multiple of the record length. */
  function Misaligned(x: nat): (a: nat)
    ensures a < BYTES_PER_RECORD
  {
    x % BYTES_PER_RECORD
  }

  lemma MisalignedNext(addr: u32)
    ensures Misaligned((addr + BYTES_PER_RECORD) % U32) == Misaligned(addr)
    ensures Misaligned(U32 - addr) == if Misaligned(addr) == 0 then 0 else BYTES_PER_RECORD - Misaligned(addr)
    ensures U32 - addr < BYTES_PER_RECORD ==> Misaligned(addr) == addr + BYTES_PER_RECORD - U32
    ensures addr < BYTES_PER_RECORD ==> Misaligned(addr) == addr
    ensures Misaligned(addr) <= addr && Misaligned(U32 - addr) <= U32 - addr
  {
  }

  /** Lowest and highest address that the receiver takes down for the records of a range. A record that
      crosses the end of the address space counts with its first and its wrapped last address. */
  function Low(addr: u32, count: nat): nat {
    if addr + count > U32 && addr + count - U32 > Misaligned(addr) then Misaligned(addr) else addr
  }

  function High(addr: u32, count: nat): nat
    requires 0 < count < U32
  {
    if addr + count <= U32 then addr + count - 1
    else if U32 - addr >= BYTES_PER_RECORD then U32 - 1 - Misaligned(U32 - addr)
    else addr + count - 1 - U32
  }

  lemma LowStep(addr: u32, count: nat)
    requires BYTES_PER_RECORD < count < U32
    ensures Low(addr, count) == Min(addr, Low((addr + BYTES_PER_RECORD) % U32, count - BYTES_PER_RECORD))
  {
    hide Misaligned;
    MisalignedNext(addr);
    MisalignedNext((addr + BYTES_PER_RECORD) % U32);
  }

  lemma HighStep(addr: u32, count: nat)
    requires BYTES_PER_RECORD < count < U32
    ensures High(addr, count)
            == Max((addr + BYTES_PER_RECORD - 1) % U32,
                   High((addr + BYTES_PER_RECORD) % U32, count - BYTES_PER_RECORD))
  {
    hide Misaligned;
    MisalignedNext(addr);
    MisalignedNext((addr + BYTES_PER_RECORD) % U32);
  }

  lemma LastBounds(addr: u32, count: nat)
    requires 0 < count <= BYTES_PER_RECORD
    ensures Low(addr, count) == addr && High(addr, count) == (addr + count - 1) % U32
  {
    hide Misaligned;
    MisalignedNext(addr);
  }

  lemma OffsetMoves(addr: u32, offset: u32, n: nat)
    ensures ((addr + n) % U32 + offset) % U32 == ((addr + offset) % U32 + n) % U32 == (addr + offset + n) % U32
  {
  }

  /** The data records of an upload and its end record. */
  lemma {:induction false} LoadRecords(before: seq<byte>, m: seq<byte>, input: string, p: nat, addr: u32, count: nat,
                                       offset: u32, lo: nat, hi: nat)
    requires |before| == |m| == U32 && count < U32
    requires p <= |input| && Has(input, p, Records(m, addr, count) + END_RECORD)
    ensures var r, to := Load(before, input, p, offset, lo, hi), (addr + offset) % U32;
            && Restored(r.mem, before, m, addr, to, count)
            && r.status.Loaded? && r.status.entry == 0
            && r.status.size == if count == 0 then (hi - lo + 1) % U32
                                else (Max(hi, High(to, count)) - Min(lo, Low(to, count)) + 1) % U32
    decreases count
  {
    hide Load, Record, Records, Put, Bytes, Has, Restored, Low, High;
    var to := (addr + offset) % U32;
    FirstRecord(m, input, p, addr, count, END_RECORD);
    if count == 0 {
      LoadEnd(before, input, p, offset, lo, hi);
      NothingRestored(before, m, addr, to);
    } else {
      var n := RecordLength(count);
      LoadOne(before, m, input, p, addr, n, offset, lo, hi);
      OffsetMoves(addr, offset, n);
      if n < count {
        LowStep(to, count);
        HighStep(to, count);
      } else {
        LastBounds(to, count);
      }
      var mid := Put(before, to, Bytes(m, addr, n));
      LoadRecords(mid, m, input, p + |Record(addr, Bytes(m, addr, n))|, (addr + n) % U32, count - n, offset,
                  Min(lo, to), Max(hi, (to + n - 1) % U32));
      PutRestores(before, m, addr, to, n);
      var r := Load(before, input, p, offset, lo, hi);
      RestoredTwice(r.mem, mid, before, m, addr, to, n, count - n);
    }
  }

  /** The size that is reported for an uploaded range: its length, unless it is empty or goes beyond the
      end of the address space. There the wrapped addresses spoil the bounds, depending on how the
      record that crosses the end is aligned and on whether records follow it. */
  function ReportedSize(addr: u32, count: nat): nat {
    var a := Misaligned(addr);
    if count == 0 then 2
    else if addr + count <= U32 then count
    else if a == 0 then 0
    else if addr + count - U32 <= a then
      (if U32 - addr < BYTES_PER_RECORD then count else (U32 - addr) / BYTES_PER_RECORD * BYTES_PER_RECORD)
    else if U32 - addr < BYTES_PER_RECORD then count - BYTES_PER_RECORD
    else U32 - BYTES_PER_RECORD
  }

  lemma WholeRecords(x: nat)
    ensures x / BYTES_PER_RECORD * BYTES_PER_RECORD == x - Misaligned(x)
  {
  }

  lemma BoundsGiveSize(addr: u32, count: nat)
    requires 0 < count < U32
    ensures (Max(0, High(addr, count)) - Min(U32 - 1, Low(addr, count)) + 1) % U32 == ReportedSize(addr, count)
  {
    hide Misaligned;
    MisalignedNext(addr);
    WholeRecords(U32 - addr);
  }

  /** An uploaded range, downloaded with any offset into any memory, comes to stand that much higher, and all
      other cells stay; the reported size is that of the range where it then stands. */
  lemma {:induction false} UploadDownload(before: seq<byte>, m: seq<byte>, addr: u32, count: nat, offset: u32)
    requires |before| == |m| == U32 && count < U32
    ensures var r, to := Load(before, Upload(m, addr, count), 0, offset, U32 - 1, 0), (addr + offset) % U32;
            && Restored(r.mem, before, m, addr, to, count)
            && r.status == Loaded(0, ReportedSize(to, count))
  {
    hide Load, Records, Restored, Low, High;
    var input, to := Upload(m, addr, count), (addr + offset) % U32;
    var rest := Records(m, addr, count) + END_RECORD;
    assert input == START_RECORD + rest;
    assert Has(input, 0, START_RECORD) && Has(input, |START_RECORD|, rest);
    LoadStart(before, input, offset, U32 - 1, 0);
    LoadRecords(before, m, input, |START_RECORD|, addr, count, offset, U32 - 1, 0);
    if count > 0 {
      BoundsGiveSize(to, count);
    }
  }

  lemma CellThere(r: seq<byte>, before: seq<byte>, m: seq<byte>, from: u32, to: u32, n: nat, i: nat)
    requires Restored(r, before, m, from, to, n) && i < n < U32
    ensures |r| == |m| == U32 && r[(to + i) % U32] == m[(from + i) % U32]
  {
    var k := (to + i) % U32;
    Distance(k, to, i);
    Counterpart(k, from, to, i);
  }

  /** Cell by cell, from the first address on. */
  lemma UploadedCell(before: seq<byte>, m: seq<byte>, addr: u32, count: nat, offset: u32, i: nat)
    requires |before| == |m| == U32 && i < count < U32
    ensures var r := Load(before, Upload(m, addr, count), 0, offset, U32 - 1, 0).mem;
            |r| == U32 && r[(addr + offset + i) % U32] == m[(addr + i) % U32]
  {
    hide Load, Upload;
    UploadDownload(before, m, addr, count, offset);
    hide Restored;
    CellThere(Load(before, Upload(m, addr, count), 0, offset, U32 - 1, 0).mem, before, m, addr,
              (addr + offset) % U32, count, i);
    OffsetMoves(addr, offset, i);
  }

  /** When the reported size is the length: for no empty range, and for a range beyond the end of the
      address space only if it lies in one record, or has the one length that the spoiled bounds give. */
  lemma SizeIsLength(addr: u32, count: nat)
    requires count < U32
    ensures ReportedSize(addr, count) == count
            <==> count > 0
                 && (addr + count <= U32
                     || (Misaligned(addr) > 0
                         && if addr + count - U32 <= Misaligned(addr) then U32 - addr < BYTES_PER_RECORD
                            else U32 - addr >= BYTES_PER_RECORD && count == U32 - BYTES_PER_RECORD))
  {
  }

  /** Two records around the end of the address space are reported as nothing. */
  lemma WrappedUpload(before: seq<byte>, m: seq<byte>)
    requires |before| == |m| == U32
    ensures Load(before, Upload(m, 0xFFFF_FFF0, 32), 0, 0, U32 - 1, 0).status == Loaded(0, 0)
  {
    hide Load, Upload, Restored;
    UploadDownload(before, m, 0xFFFF_FFF0, 32, 0);
  }
}
