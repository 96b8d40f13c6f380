/** save_serial, load_serial, read_record and srec_decode as they run. */
module SRecordSerial {
  import opened CString
  import opened Words
  import opened Options
  import opened SRecord
  import opened SRecordTransfer

  // ---- upload

  lemma WordSum(w: u32)
    ensures Sum(WordBytes(w)) == w / 0x100_0000 + w / 0x1_0000 % 0x100 + w / 0x100 % 0x100 + w % 0x100
  {
    var b := WordBytes(w);
    assert b[..3][..2] == b[..2] && b[..2][..1] == b[..1] && b[..1][..0] == [];
    assert Sum(b[..1]) == b[0];
    assert Sum(b[..2]) == Sum(b[..1]) + b[1];
    assert Sum(b[..3]) == Sum(b[..2]) + b[2];
  }

  /** The sum of the n low bytes of a number, as the two checksum loops add them up. */
  method AddBytes(sum: nat, value: nat, n: nat) returns (r: nat)
    requires n == 2 || n == 4
    requires value < if n == 2 then 256 else U32
    ensures r == sum + if n == 2 then value else Sum(WordBytes(value))
  {
    r := sum;
    var rest: nat := value;
    ghost var bytes: seq<byte> := [];
    for i := 0 to n
      invariant rest == if i == 0 then value else if i == 1 then value / 0x100
                        else if i == 2 then value / 0x1_0000 else if i == 3 then value / 0x100_0000 else 0
      invariant r == sum + if i == 0 then 0 else if i == 1 then value % 0x100
                           else if i == 2 then value % 0x100 + value / 0x100 % 0x100
                           else if i == 3 then value % 0x100 + value / 0x100 % 0x100 + value / 0x1_0000 % 0x100
                           else value % 0x100 + value / 0x100 % 0x100 + value / 0x1_0000 % 0x100 + value / 0x100_0000
    {
      r := r + rest % 256;
      rest := rest / 256;
    }
    if n == 4 {
      WordSum(value);
    }
  }

  /** One data record is built from the collected hex data and their sum. */
  method BuildRecord(address: u32, data: string, sum: nat, reclen: nat, ghost bytes: seq<byte>) returns (record: string)
    requires reclen == |bytes| <= BYTES_PER_RECORD && data == HexText(bytes) && sum == Sum(bytes)
    ensures record == Record(address, bytes)
  {
    hide Sum, WordBytes, HexText, HexByte;
    var length: byte := 4 + reclen + 1;
    var checksum := AddBytes(sum, length, 2);
    checksum := AddBytes(checksum, address, 4);
    checksum := 0xFF - checksum % 256;
    assert checksum == CheckByte(length + Sum(WordBytes(address)) + Sum(bytes));
    record := "S3" + HexByte(length) + HexText(WordBytes(address)) + data + HexByte(checksum) + "\n";
  }

  lemma NoBytes(m: seq<byte>, addr: u32)
    requires |m| == U32
    ensures Sum(Bytes(m, addr, 0)) == 0 && HexText(Bytes(m, addr, 0)) == ""
  {
  }

  lemma NoRecords(m: seq<byte>, addr: u32)
    requires |m| == U32
    ensures Records(m, addr, 0) == ""
  {
  }

  lemma NextByte(m: seq<byte>, addr: u32, n: nat)
    requires |m| == U32
    ensures var c := m[(addr + n) % U32];
            && Sum(Bytes(m, addr, n + 1)) == Sum(Bytes(m, addr, n)) + c
            && HexText(Bytes(m, addr, n + 1)) == HexText(Bytes(m, addr, n)) + HexByte(c)
  {
    hide HexByte;
    assert Bytes(m, addr, n + 1)[..n] == Bytes(m, addr, n);
  }

  lemma {:induction false} NextRecord(m: seq<byte>, addr: u32, n: nat, left: nat)
    requires |m| == U32 && 0 < n <= BYTES_PER_RECORD && (n == BYTES_PER_RECORD || left == 0)
    ensures Records(m, addr, n + left) == Record(addr, Bytes(m, addr, n)) + Records(m, (addr + n) % U32, left)
  {
    hide Record, Bytes;
  }

  method SaveSerial(mem: array<byte>, address: u32, count: nat) returns (out: string)
    requires mem.Length == U32 && count < U32
    ensures out == Upload(mem[..], address, count)
  {
    hide Sum, HexText, HexByte, Record, Bytes, Records;
    ghost var m := mem[..];
    var addr: u32, left, reclen: nat, checksum: nat, data := address, count, 0, 0, "";
    out := START_RECORD;
    NoBytes(m, addr);
    while true
      invariant reclen < BYTES_PER_RECORD && (left == 0 ==> reclen == 0)
      invariant checksum == Sum(Bytes(m, addr, reclen))
      invariant |data| >= 2 * reclen && data[..2 * reclen] == HexText(Bytes(m, addr, reclen))
      invariant out + Records(m, addr, reclen + left) == START_RECORD + Records(m, address, count)
      decreases left
    {
      if left > 0 {
        var c := mem[(addr + reclen) % U32];
        NextByte(m, addr, reclen);
        checksum := checksum + c;
        data := data[..2 * reclen] + HexByte(c);
        reclen := reclen + 1;
        left := left - 1;
      }
      if reclen == BYTES_PER_RECORD || left == 0 {
        if reclen > 0 {
          ghost var bytes := Bytes(m, addr, reclen);
          var record := BuildRecord(addr, data[..2 * reclen], checksum, reclen, bytes);
          NextRecord(m, addr, reclen, left);
          assert out + (record + Records(m, (addr + reclen) % U32, left))
                 == out + record + Records(m, (addr + reclen) % U32, left);
          out := out + record;
        }
        addr := (addr + reclen) % U32;
        checksum, reclen := 0, 0;
        NoBytes(m, addr);
      }
      if left == 0 {
        break;
      }
    }
    NoRecords(m, addr);
    assert out + "" == out;
    out := out + END_RECORD;
  }

  // ---- download

  method ReadRecord(input: string, pos: nat) returns (r: Line)
    requires pos <= |input|
    ensures r == ReadLine(input, pos)
  {
    var p := pos;
    while p < pos + MAX_RECORD
      invariant pos <= p <= pos + MAX_RECORD && p <= |input|
      invariant LineEnd(input, p, pos + MAX_RECORD - p) == LineEnd(input, pos, MAX_RECORD)
    {
      if p == |input| {
        return Waiting;
      }
      var c := input[p];
      if c == '\r' || c == '\n' {
        return Line(input[pos..p], p + 1);
      }
      if c == '\0' || c == '\U{0003}' {
        return Stop;
      }
      p := p + 1;
    }
    return Line(input[pos..p], p);
  }

  lemma SumStep(bytes: seq<byte>, b: byte)
    ensures Sum(bytes + [b]) == Sum(bytes) + b && Sum([]) == 0
  {
    assert (bytes + [b])[..|bytes|] == bytes;
  }

  lemma {:induction false} BadByte(s: string, p: nat, k: nat, n: nat)
    requires k < n && Hex2(s, p + 2 * k) < 0
    ensures HexBytes(s, p, n).None?
  {
    if k < n - 1 {
      BadByte(s, p, k, n - 1);
    }
  }

  /** One byte of the address field. */
  method AddressByte(s: string, p: nat, n: nat, addr: nat, sum: nat, ghost w: nat) returns (ok: bool, a: nat, c: nat)
    requires n < w && HexBytes(s, p, n).Some?
    requires addr == BytesValue(HexBytes(s, p, n).value) && sum == Sum(HexBytes(s, p, n).value)
    ensures ok ==> HexBytes(s, p, n + 1).Some?
                   && a == BytesValue(HexBytes(s, p, n + 1).value) && c == Sum(HexBytes(s, p, n + 1).value)
    ensures !ok ==> HexBytes(s, p, w).None?
  {
    hide BytesValue, Sum, Hex2;
    var v := Hex2(s, p + 2 * n);
    ok, a, c := v >= 0, addr, sum;
    if v < 0 {
      BadByte(s, p, n, w);
      return;
    }
    ghost var front := HexBytes(s, p, n).value;
    ValueStep(front, v);
    SumStep(front, v);
    a, c := addr * 256 + v, sum + v;
  }

  /** The address field: four, three or two bytes. */
  method Address(s: string, p: nat, w: nat) returns (ok: bool, addr: nat, sum: nat)
    requires 2 <= w <= 4
    ensures ok == HexBytes(s, p, w).Some?
    ensures ok ==> addr == BytesValue(HexBytes(s, p, w).value) && sum == Sum(HexBytes(s, p, w).value)
  {
    hide BytesValue, Sum, Hex2;
    ValueStep([], 0);
    SumStep([], 0);
    addr, sum := 0, 0;
    var n: nat := 0;
    if w == 4 {
      ok, addr, sum := AddressByte(s, p, n, addr, sum, w);
      if !ok {
        return;
      }
      n := n + 1;
    }
    if w >= 3 {
      ok, addr, sum := AddressByte(s, p, n, addr, sum, w);
      if !ok {
        return;
      }
      n := n + 1;
    }
    ok, addr, sum := AddressByte(s, p, n, addr, sum, w);
    if !ok {
      return;
    }
    ok, addr, sum := AddressByte(s, p, n + 1, addr, sum, w);
  }

  /** The data loop. */
  method DataBytes(s: string, p: nat, count: int) returns (ok: bool, data: seq<byte>)
    ensures var n := if count > 0 then count else 0;
            ok == HexBytes(s, p, n).Some? && (ok ==> data == HexBytes(s, p, n).value)
  {
    hide Hex2;
    data := [];
    var i: nat := 0;
    while i < count
      invariant i <= (if count > 0 then count else 0)
      invariant HexBytes(s, p, i) == Some(data)
    {
      var v := Hex2(s, p + 2 * i);
      if v < 0 {
        BadByte(s, p, i, count);
        return false, data;
      }
      data := data + [v];
      i := i + 1;
    }
    return true, data;
  }

  method Fields(s: string, p: nat, kind: char, length: nat) returns (r: Decoded)
    requires Width(kind) > 0
    ensures r == DecodeFields(s, p, kind, length)
  {
    hide HexBytes, Hex2, Sum, BytesValue;
    var w, count := Width(kind), DataCount(kind, length);
    var ok, addr, sum := Address(s, p, w);
    if !ok {
      return NoSrec;
    }
    var data;
    ok, data := DataBytes(s, p + 2 * w, count);
    if !ok {
      return NoSrec;
    }
    var v := Hex2(s, p + 2 * w + 2 * if count > 0 then count else 0);
    if v < 0 {
      return NoSrec;
    }
    if v != 0xFF - (length + sum + Sum(data)) % 256 {
      return BadChecksum;
    }
    return Rec(kind, count, addr, data);
  }

  method SrecDecode(s: string) returns (r: Decoded)
    ensures r == Decode(s)
  {
    hide DecodeFields, Hex2, Width;
    var p: nat := 0;
    while p < |s|
      invariant p <= |s| && Find(s, p, 'S') == Find(s, 0, 'S')
    {
      if s[p] == 'S' {
        break;
      }
      p := p + 1;
    }
    if p + 1 >= |s| {
      return Empty;
    }
    var kind, length := s[p + 1], Hex2(s, p + 2);
    if length < 0 {
      return NoSrec;
    }
    if Width(kind) == 0 {
      return BadType;
    }
    r := Fields(s, p + 4, kind, length);
  }

  method Memcpy(mem: array<byte>, addr: u32, data: seq<byte>)
    requires mem.Length == U32
    modifies mem
    ensures mem[..] == Put(old(mem[..]), addr, data)
  {
    for i := 0 to |data|
      invariant mem[..] == Put(old(mem[..]), addr, data[..i])
    {
      assert data[..i + 1][..i] == data[..i];
      mem[(addr + i) % U32] := data[i];
    }
    assert data[..|data|] == data;
  }

  method LoadSerial(mem: array<byte>, input: string, offset: u32) returns (status: Status)
    requires mem.Length == U32
    modifies mem
    ensures Load(old(mem[..]), input, 0, offset, U32 - 1, 0) == Download(mem[..], status)
  {
    hide ReadLine, Decode, Put;
    var pos: nat, startAddr: nat, endAddr: nat := 0, U32 - 1, 0;
    while true
      invariant pos <= |input|
      invariant Load(mem[..], input, pos, offset, startAddr, endAddr)
                  == Load(old(mem[..]), input, 0, offset, U32 - 1, 0)
      decreases |input| - pos
    {
      var line := ReadRecord(input, pos);
      if line.Waiting? {
        return Blocked;
      }
      if line.Stop? {
        return Aborted;
      }
      var r := SrecDecode(line.text);
      if r.BadType? || r.NoSrec? || r.BadChecksum? {
        return Aborted;
      }
      if r.Rec? && IsEnd(r.kind) {
        return Loaded(r.addr, (endAddr - startAddr + 1) % U32);
      }
      if r.Rec? && IsData(r.kind) {
        if r.count < 0 {
          return Crash;
        }
        var store := (r.addr + offset) % U32;
        Memcpy(mem, store, r.data);
        startAddr := Min(startAddr, store);
        endAddr := Max(endAddr, (store + r.count - 1) % U32);
      }
      pos := line.next;
    }
  }
}
