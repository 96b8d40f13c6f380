/** Motorola S-records: how cmd_load.c writes them and s_record.c decodes them. */
module SRecord {
  import opened CString
  import opened Options
  import opened Words

  const BYTES_PER_RECORD := 16
  const START_RECORD := "S0030000FC\n"
  const END_RECORD := "S70500000000FA\n"

  // ---- writing

  function HexDigit(d: nat): (c: char)
    requires d < 16
    ensures DigitValue(c) == d && c != '\r' && c != '\n' && c != '\0' && c != '\U{0003}' && c != 'S'
  {
    "0123456789ABCDEF"[d]
  }

  /** sprintf "%02X" of a byte. */
  function HexByte(b: byte): (t: string)
    ensures |t| == 2
  {
    [HexDigit(b / 16), HexDigit(b % 16)]
  }

  function HexText(bytes: seq<byte>): (t: string)
    ensures |t| == 2 * |bytes|
  {
    if bytes == [] then "" else HexText(bytes[..|bytes| - 1]) + HexByte(bytes[|bytes| - 1])
  }

  /** The check byte makes the sum of all bytes of the record end in 0xFF. */
  function CheckByte(sum: nat): (c: byte)
    ensures (sum + c) % 256 == 0xFF
  {
    0xFF - sum % 256
  }

  /** Length, address and data of a data record. */
  function RecordBytes(addr: u32, data: seq<byte>): seq<byte>
    requires |data| <= 250
  {
    [(5 + |data|) as byte] + WordBytes(addr) + data
  }

  /** "S3%02X%08lX%s%02X\n" */
  function Record(addr: u32, data: seq<byte>): string
    requires |data| <= 250
  {
    var length: byte := 5 + |data|;
    "S3" + HexByte(length) + HexText(WordBytes(addr)) + HexText(data)
    + HexByte(CheckByte(length + Sum(WordBytes(addr)) + Sum(data))) + "\n"
  }

  // ---- decoding

  datatype Decoded = Empty | BadType | NoSrec | BadChecksum | Rec(kind: char, count: int, addr: nat, data: seq<byte>)

  /** hex2_bin */
  function Hex2(s: string, p: nat): (v: int)
    ensures -1 <= v < 256
  {
    var high, low := DigitValue(CharAt(s, p)), DigitValue(CharAt(s, p + 1));
    if high < 0 || low < 0 then -1 else 16 * high + low
  }

  /** n bytes from position p on. */
  function HexBytes(s: string, p: nat, n: nat): (r: Option<seq<byte>>)
    ensures r.Some? ==> |r.value| == n
  {
    if n == 0 then Some([])
    else
      var front, v := HexBytes(s, p, n - 1), Hex2(s, p + 2 * (n - 1));
      if front.None? || v < 0 then None else Some(front.value + [v])
  }

  /** Bytes of the address field, 0 for an unknown record type. */
  function Width(kind: char): (w: nat)
    ensures w == 0 || 2 <= w <= 4
  {
    if kind == '0' || kind == '1' || kind == '5' || kind == '9' then 2
    else if kind == '2' || kind == '8' then 3
    else if kind == '3' || kind == '7' then 4
    else 0
  }

  function BytesValue(bytes: seq<byte>): nat {
    if bytes == [] then 0 else BytesValue(bytes[..|bytes| - 1]) * 256 + bytes[|bytes| - 1]
  }

  /** Number of data bytes that a length byte announces; it can come out negative. */
  function DataCount(kind: char, length: int): int {
    if kind == '5' then 0 else length - Width(kind) - 1
  }

  /** Address, data and check byte behind the length byte. */
  function DecodeFields(s: string, p: nat, kind: char, length: nat): Decoded
    requires Width(kind) > 0
  {
    var w := Width(kind);
    var n := DataCount(kind, length);
    var addr, data := HexBytes(s, p, w), HexBytes(s, p + 2 * w, if n > 0 then n else 0);
    var check := Hex2(s, p + 2 * w + 2 * if n > 0 then n else 0);
    if addr.None? || data.None? || check < 0 then NoSrec
    else if check != 0xFF - (length + Sum(addr.value) + Sum(data.value)) % 256 then BadChecksum
    else Rec(kind, n, BytesValue(addr.value), data.value)
  }

  /** srec_decode */
  function Decode(s: string): Decoded {
    var p := Find(s, 0, 'S') + 1;
    if p >= |s| then Empty
    else
      var length := Hex2(s, p + 1);
      if length < 0 then NoSrec
      else if Width(s[p]) == 0 then BadType
      else DecodeFields(s, p + 3, s[p], length)
  }

  // ---- a written record is decoded again

  lemma HexByteRead(s: string, p: nat, b: byte)
    requires Has(s, p, HexByte(b))
    ensures Hex2(s, p) == b
  {
    HasAt(s, p, HexByte(b), 0);
    HasAt(s, p, HexByte(b), 1);
  }

  lemma {:induction false} HexTextRead(s: string, p: nat, bytes: seq<byte>)
    requires Has(s, p, HexText(bytes))
    ensures HexBytes(s, p, |bytes|) == Some(bytes)
  {
    hide Has, HexByte, Hex2;
    if bytes != [] {
      var front, last := bytes[..|bytes| - 1], bytes[|bytes| - 1];
      HasSplit(s, p, HexText(front), HexByte(last));
      HexTextRead(s, p, front);
      HexByteRead(s, p + 2 * |front|, last);
      assert front + [last] == bytes;
    }
  }

  lemma {:induction false} HexTextConcat(a: seq<byte>, b: seq<byte>)
    ensures HexText(a + b) == HexText(a) + HexText(b)
  {
    if b == [] {
      assert a + b == a;
    } else {
      assert (a + b)[..|a + b| - 1] == a + b[..|b| - 1];
      HexTextConcat(a, b[..|b| - 1]);
      assert HexText(a) + (HexText(b[..|b| - 1]) + HexByte(b[|b| - 1])) == HexText(a) + HexText(b);
    }
  }

  lemma ValueStep(bytes: seq<byte>, b: byte)
    ensures BytesValue(bytes + [b]) == BytesValue(bytes) * 256 + b
    ensures BytesValue([]) == 0
  {
    assert (bytes + [b])[..|bytes|] == bytes;
  }

  lemma FourBytes(b0: byte, b1: byte, b2: byte, b3: byte)
    ensures BytesValue([b0, b1, b2, b3]) == ((b0 * 256 + b1) * 256 + b2) * 256 + b3
  {
    hide BytesValue;
    ValueStep([], b0);
    ValueStep([b0], b1);
    ValueStep([b0, b1], b2);
    ValueStep([b0, b1, b2], b3);
    assert [] + [b0] == [b0] && [b0] + [b1] == [b0, b1] && [b0, b1] + [b2] == [b0, b1, b2];
    assert [b0, b1, b2] + [b3] == [b0, b1, b2, b3];
  }

  lemma WordValue(w: u32)
    ensures BytesValue(WordBytes(w)) == w
  {
    var b := WordBytes(w);
    FourBytes(b[0], b[1], b[2], b[3]);
    WordOfBytes(w);
    hide WordBytes, BytesValue;
    assert b == [b[0], b[1], b[2], b[3]];
  }

  lemma HexOfOne(b: byte)
    ensures HexText([b]) == HexByte(b) && Sum([b]) == b
  {
    assert [b][..0] == [];
    assert HexText([]) + HexByte(b) == HexByte(b);
  }

  lemma {:induction false} BytesFields(addr: u32, data: seq<byte>)
    requires |data| <= 250
    ensures var length: byte := 5 + |data|;
            && HexText(RecordBytes(addr, data)) == HexByte(length) + HexText(WordBytes(addr)) + HexText(data)
            && Sum(RecordBytes(addr, data)) == length + Sum(WordBytes(addr)) + Sum(data)
  {
    hide HexText, HexByte, Sum, WordBytes;
    var length: byte := 5 + |data|;
    HexTextConcat([length] + WordBytes(addr), data);
    HexTextConcat([length], WordBytes(addr));
    SumConcat([length] + WordBytes(addr), data);
    SumConcat([length], WordBytes(addr));
    HexOfOne(length);
  }

  lemma CheckIs(sum: nat)
    ensures CheckByte(sum) == 0xFF - sum % 256
  {
  }

  /** A written data record is decoded to its address and data. */
  lemma {:induction false} RecordDecodes(addr: u32, data: seq<byte>)
    requires |data| <= 250
    ensures var line := Record(addr, data)[..|Record(addr, data)| - 1];
            Decode(line) == Rec('3', |data|, addr, data)
  {
    hide HexText, HexByte, Sum, CheckByte, WordBytes, Hex2, HexBytes, BytesValue;
    var line := Record(addr, data)[..|Record(addr, data)| - 1];
    var length: byte := 5 + |data|;
    var check := CheckByte(length + Sum(WordBytes(addr)) + Sum(data));
    assert Has(line, 2, HexByte(length)) && Has(line, 4, HexText(WordBytes(addr)));
    assert Has(line, 12, HexText(data)) && Has(line, 12 + 2 * |data|, HexByte(check));
    HexByteRead(line, 2, length);
    HexTextRead(line, 4, WordBytes(addr));
    HexTextRead(line, 12, data);
    HexByteRead(line, 12 + 2 * |data|, check);
    WordValue(addr);
    CheckIs(length + Sum(WordBytes(addr)) + Sum(data));
    assert Find(line, 0, 'S') == 0;
  }

  lemma HexAt(s: string, p: nat, b: byte)
    requires p + 2 <= |s| && DigitValue(s[p]) == b / 16 && DigitValue(s[p + 1]) == b % 16
    ensures Hex2(s, p) == b
  {
  }

  lemma NoBytes(s: string, p: nat)
    ensures HexBytes(s, p, 0) == Some([]) && Sum([]) == 0
  {
  }

  lemma {:induction false} Zeros(s: string, p: nat, n: nat)
    requires p + 2 * n <= |s| && forall i :: p <= i < p + 2 * n ==> s[i] == '0'
    ensures HexBytes(s, p, n).Some? && BytesValue(HexBytes(s, p, n).value) == 0 && Sum(HexBytes(s, p, n).value) == 0
  {
    if n > 0 {
      Zeros(s, p, n - 1);
      var front := HexBytes(s, p, n - 1).value;
      assert s[p + 2 * (n - 1)] == '0' && s[p + 2 * (n - 1) + 1] == '0';
      assert (front + [0])[..n - 1] == front;
    }
  }

  lemma StartDecodes()
    ensures Decode("S0030000FC") == Rec('0', 0, 0, [])
  {
    hide Hex2, HexBytes, BytesValue, Sum;
    var line := "S0030000FC";
    Zeros(line, 4, 2);
    NoBytes(line, 8);
    HexAt(line, 2, 3);
    HexAt(line, 8, 0xFC);
    assert Find(line, 0, 'S') == 0;
  }

  lemma {:induction false} EndDecodes()
    ensures Decode("S70500000000FA") == Rec('7', 0, 0, [])
  {
    hide Hex2, HexBytes, BytesValue, Sum;
    var line := "S70500000000FA";
    Zeros(line, 4, 4);
    NoBytes(line, 12);
    HexAt(line, 2, 5);
    HexAt(line, 12, 0xFA);
    assert Find(line, 0, 'S') == 0;
  }

  lemma Regroup(a: string, b: string, c: string, d: string, e: string, f: string)
    ensures a + b + c + d + e + f == a + (b + c + d + e) + f
  {
  }

  /** The bytes whose digits are written: length, address, data, and the byte that makes up their sum. */
  lemma {:induction false} RecordText(addr: u32, data: seq<byte>)
    requires |data| <= 250
    ensures var bytes := RecordBytes(addr, data);
            var all := bytes + [CheckByte(Sum(bytes))];
            Record(addr, data) == "S3" + HexText(all) + "\n" && Sum(all) % 256 == 0xFF
  {
    hide HexText, HexByte, Sum, WordBytes, CheckByte, RecordBytes;
    var bytes, length: byte := RecordBytes(addr, data), 5 + |data|;
    var check := CheckByte(Sum(bytes));
    BytesFields(addr, data);
    HexTextConcat(bytes, [check]);
    SumConcat(bytes, [check]);
    HexOfOne(check);
    Regroup("S3", HexByte(length), HexText(WordBytes(addr)), HexText(data), HexByte(check), "\n");
  }

  lemma BytesLength(addr: u32, data: seq<byte>)
    requires |data| <= 250
    ensures |RecordBytes(addr, data)| == 5 + |data|
  {
  }

  lemma PlainStart()
    ensures Plain('S') && Plain('3')
  {
  }

  lemma PlainByte(b: byte)
    ensures forall i :: 0 <= i < 2 ==> Plain(HexByte(b)[i])
  {
  }

  lemma {:induction false} PlainText(bytes: seq<byte>)
    ensures forall i :: 0 <= i < |HexText(bytes)| ==> Plain(HexText(bytes)[i])
  {
    hide HexByte, Plain;
    if bytes != [] {
      PlainText(bytes[..|bytes| - 1]);
      PlainByte(bytes[|bytes| - 1]);
    }
  }

  /** A record with at most 16 data bytes fits its 48-byte buffer with the NUL, its
      bytes add up to 0xFF, and no character in it ends or aborts a line. */
  lemma RecordIsWellFormed(addr: u32, data: seq<byte>)
    requires |data| <= BYTES_PER_RECORD
    ensures |Record(addr, data)| + 1 <= 2 * BYTES_PER_RECORD + 16
    ensures var all := RecordBytes(addr, data) + [CheckByte(Sum(RecordBytes(addr, data)))];
            Record(addr, data) == "S3" + HexText(all) + "\n" && Sum(all) % 256 == 0xFF
    ensures PlainLine(Record(addr, data))
  {
    hide CheckByte, RecordBytes, Record, Sum, HexText, Plain;
    RecordText(addr, data);
    BytesLength(addr, data);
    PlainText(RecordBytes(addr, data) + [CheckByte(Sum(RecordBytes(addr, data)))]);
    PlainStart();
  }

  /** One line with its newline at the end, and nothing that ends or aborts reading before it. */
  predicate PlainLine(t: string) {
    t != [] && t[|t| - 1] == '\n' && forall i :: 0 <= i < |t| - 1 ==> Plain(t[i])
  }

  predicate Plain(c: char) {
    c != '\r' && c != '\n' && c != '\0' && c != '\U{0003}'
  }
}
