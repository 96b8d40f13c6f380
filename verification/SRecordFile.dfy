/** S-record files of any writer: every type of record, files of any records, and lines that are no records. */
module SRecordFile {
  import opened CString
  import opened Options
  import opened SRecord
  import opened SRecordTransfer
  import opened Words

  /** A record: its type, the bytes of its address field, the address and the data. */
  datatype Srec = Srec(kind: char, width: nat, addr: nat, data: seq<byte>)

  function Power256(n: nat): nat {
    if n == 0 then 1 else 256 * Power256(n - 1)
  }

  /** The types of Motorola's format with the widths of their address fields; S5 counts records and has no data. */
  predicate Motorola(r: Srec) {
    && (match r.kind
        case '0' => r.width == 2
        case '1' => r.width == 2
        case '2' => r.width == 3
        case '3' => r.width == 4
        case '5' => r.width == 2 && r.data == []
        case '7' => r.width == 4
        case '8' => r.width == 3
        case '9' => r.width == 2
        case _ => false)
    && r.addr < Power256(r.width) && r.width + |r.data| + 1 < 256
  }

  /** The address, its highest byte first. */
  function AddressBytes(addr: nat, width: nat): (r: seq<byte>)
    ensures |r| == width
  {
    if width == 0 then [] else AddressBytes(addr / 256, width - 1) + [addr % 256]
  }

  /** The bytes that are written: length, address, data and a check byte. */
  function FileBytes(r: Srec, check: byte): seq<byte>
    requires r.width + |r.data| + 1 < 256
  {
    [(r.width + |r.data| + 1) as byte] + AddressBytes(r.addr, r.width) + r.data + [check]
  }

  /** Its line, without the newline. */
  function LineText(r: Srec, check: byte): string
    requires r.width + |r.data| + 1 < 256
  {
    "S" + [r.kind] + HexText(FileBytes(r, check))
  }

  /** The check byte that Motorola's format demands: all bytes add up to 0xFF. */
  ghost predicate Checks(r: Srec, check: byte)
    requires r.width + |r.data| + 1 < 256
  {
    Sum(FileBytes(r, check)) % 256 == 0xFF
  }

  // ---- one record

  lemma {:induction false} AddressValue(addr: nat, width: nat)
    requires addr < Power256(width)
    ensures BytesValue(AddressBytes(addr, width)) == addr
  {
    if width == 0 {
      assert addr == 0;
    } else {
      AddressValue(addr / 256, width - 1);
      ValueStep(AddressBytes(addr / 256, width - 1), addr % 256);
    }
  }

  lemma SumOfOne(b: byte)
    ensures Sum([b]) == b
  {
    assert [b][..0] == [];
  }

  lemma SumOfFile(r: Srec, check: byte)
    requires r.width + |r.data| + 1 < 256
    ensures Sum(FileBytes(r, check))
            == r.width + |r.data| + 1 + Sum(AddressBytes(r.addr, r.width)) + Sum(r.data) + check
  {
    hide Sum, AddressBytes;
    var length: byte := r.width + |r.data| + 1;
    SumConcat([length] + AddressBytes(r.addr, r.width) + r.data, [check]);
    SumConcat([length] + AddressBytes(r.addr, r.width), r.data);
    SumConcat([length], AddressBytes(r.addr, r.width));
    SumOfOne(length);
    SumOfOne(check);
  }

  lemma CheckIsComplement(sum: nat, check: byte)
    ensures check == 0xFF - sum % 256 <==> (sum + check) % 256 == 0xFF
  {
  }

  /** Where the fields of a line stand. */
  lemma {:induction false} LineFields(r: Srec, check: byte)
    requires r.width + |r.data| + 1 < 256
    ensures var s, w, n := LineText(r, check), r.width, |r.data|;
            && |s| == 6 + 2 * w + 2 * n && s[0] == 'S' && s[1] == r.kind
            && Hex2(s, 2) == w + n + 1 && HexBytes(s, 4, w) == Some(AddressBytes(r.addr, w))
            && HexBytes(s, 4 + 2 * w, n) == Some(r.data) && Hex2(s, 4 + 2 * w + 2 * n) == check
  {
    hide HexText, HexByte, Hex2, HexBytes, AddressBytes;
    var length: byte := r.width + |r.data| + 1;
    var address := AddressBytes(r.addr, r.width);
    HexTextConcat([length] + address + r.data, [check]);
    HexTextConcat([length] + address, r.data);
    HexTextConcat([length], address);
    HexOfOne(length);
    HexOfOne(check);
    var s := LineText(r, check);
    assert s == "S" + [r.kind] + (HexByte(length) + HexText(address) + HexText(r.data) + HexByte(check));
    assert Has(s, 2, HexByte(length)) && Has(s, 4, HexText(address)) && Has(s, 4 + 2 * r.width, HexText(r.data));
    assert Has(s, 4 + 2 * r.width + 2 * |r.data|, HexByte(check));
    HexByteRead(s, 2, length);
    HexTextRead(s, 4, address);
    HexTextRead(s, 4 + 2 * r.width, r.data);
    HexByteRead(s, 4 + 2 * r.width + 2 * |r.data|, check);
  }

  /** A line that starts with its 'S'. */
  lemma DecodeStart(s: string)
    requires |s| > 1 && s[0] == 'S'
    ensures Decode(s) == if Hex2(s, 2) < 0 then NoSrec else if Width(s[1]) == 0 then BadType
                         else DecodeFields(s, 4, s[1], Hex2(s, 2))
  {
    hide Hex2, DecodeFields, Width;
    FindIs(s, 0, 0, 'S');
  }

  /** A record of any type is decoded to its type, address and data, exactly if its check byte is right. */
  lemma {:induction false} LineDecodes(r: Srec, check: byte)
    requires Motorola(r)
    ensures Decode(LineText(r, check))
            == if Checks(r, check) then Rec(r.kind, |r.data|, r.addr, r.data) else BadChecksum
  {
    hide HexText, Hex2, HexBytes, BytesValue, AddressBytes, Sum, FileBytes, LineText, Decode;
    var s := LineText(r, check);
    LineFields(r, check);
    DecodeStart(s);
    AddressValue(r.addr, r.width);
    SumOfFile(r, check);
    CheckIsComplement(r.width + |r.data| + 1 + Sum(AddressBytes(r.addr, r.width)) + Sum(r.data), check);
  }

  // ---- lines that are no records

  lemma SameHex(front: string, s: string, p: nat)
    ensures Hex2(front + s, |front| + p) == Hex2(s, p)
  {
  }

  lemma {:induction false} SameHexBytes(front: string, s: string, p: nat, n: nat)
    ensures HexBytes(front + s, |front| + p, n) == HexBytes(s, p, n)
  {
    hide Hex2;
    if n > 0 {
      SameHexBytes(front, s, p, n - 1);
      SameHex(front, s, p + 2 * (n - 1));
      assert |front| + p + 2 * (n - 1) == |front| + (p + 2 * (n - 1));
    }
  }

  lemma SameFields(front: string, s: string, p: nat, kind: char, length: nat)
    requires Width(kind) > 0
    ensures DecodeFields(front + s, |front| + p, kind, length) == DecodeFields(s, p, kind, length)
  {
    hide HexBytes, Hex2, Sum, BytesValue;
    var w, n := Width(kind), DataCount(kind, length);
    var m := if n > 0 then n else 0;
    SameHexBytes(front, s, p, w);
    SameHexBytes(front, s, p + 2 * w, m);
    SameHex(front, s, p + 2 * w + 2 * m);
    assert |front| + p + 2 * w == |front| + (p + 2 * w);
    assert |front| + p + 2 * w + 2 * m == |front| + (p + 2 * w + 2 * m);
  }

  /** Behind a front without an 'S'. */
  lemma DecodeBehind(front: string, s: string)
    requires 'S' !in front && |s| > 1 && s[0] == 'S'
    ensures var p := |front|;
            Decode(front + s) == if Hex2(front + s, p + 2) < 0 then NoSrec else if Width(s[1]) == 0 then BadType
                                 else DecodeFields(front + s, p + 4, s[1], Hex2(front + s, p + 2))
  {
    hide Hex2, DecodeFields, Width;
    var t := front + s;
    assert t[0..|front|] == front;
    FindIs(t, 0, |front|, 'S');
  }

  /** What stands in front of the first 'S' is passed over. */
  lemma {:induction false} FrontIsSkipped(front: string, s: string)
    requires 'S' !in front && |s| > 1 && s[0] == 'S'
    ensures Decode(front + s) == Decode(s)
  {
    hide Hex2, DecodeFields, Width, Decode;
    DecodeBehind(front, s);
    DecodeStart(s);
    SameHex(front, s, 2);
    if Width(s[1]) > 0 && Hex2(s, 2) >= 0 {
      SameFields(front, s, 4, s[1], Hex2(s, 2));
    }
  }

  /** A line without an 'S', or with nothing behind it, is empty. */
  lemma NothingThere(s: string)
    requires 'S' !in s
    ensures Decode(s) == Empty && Decode(s + "S") == Empty
  {
    FindIs(s, 0, |s|, 'S');
    var t := s + "S";
    assert t[0..|s|] == s;
    FindIs(t, 0, |s|, 'S');
  }

  lemma KnownTypes(kind: char)
    ensures Width(kind) == 0 <==> kind !in "01235789"
  {
  }

  /** A type that Motorola's format does not have. */
  lemma UnknownType(kind: char, length: byte, rest: string)
    requires kind !in "01235789"
    ensures Decode("S" + [kind] + HexByte(length) + rest) == BadType
  {
    hide HexByte, Hex2, DecodeFields, Decode;
    var s := "S" + [kind] + HexByte(length) + rest;
    assert Has(s, 2, HexByte(length));
    HexByteRead(s, 2, length);
    DecodeStart(s);
    KnownTypes(kind);
  }

  /** A character that is no hexadecimal digit makes the bytes unreadable. */
  lemma {:induction false} BadHex(s: string, p: nat, n: nat, j: nat)
    requires p <= j < p + 2 * n && DigitValue(CharAt(s, j)) < 0
    ensures HexBytes(s, p, n) == None
  {
    if j < p + 2 * (n - 1) {
      BadHex(s, p, n - 1, j);
    }
  }

  /** One of the digits of a record replaced by another character: the line is no record. */
  lemma {:induction false} BadDigit(r: Srec, check: byte, j: nat, c: char)
    requires Motorola(r) && 2 <= j < |LineText(r, check)| && DigitValue(c) < 0
    ensures Decode(LineText(r, check)[j := c]) == NoSrec
  {
    hide HexText, HexBytes, BytesValue, AddressBytes, Sum, FileBytes, LineText, Decode;
    var s, w, n := LineText(r, check), r.width, |r.data|;
    var t := s[j := c];
    LineFields(r, check);
    DecodeStart(t);
    if j >= 4 {
      assert Hex2(t, 2) == Hex2(s, 2);
      if j < 4 + 2 * w {
        BadHex(t, 4, w, j);
      } else if j < 4 + 2 * w + 2 * n {
        BadHex(t, 4 + 2 * w, n, j);
      }
    }
  }

  // ---- lines

  /** Characters that end a line or abort the download. */
  predicate Stops(c: char) {
    c == '\r' || c == '\n' || c == '\0' || c == '\U{0003}'
  }

  lemma PlainIs(c: char)
    ensures Plain(c) <==> !Stops(c)
  {
  }

  lemma {:induction false} PlainToTheEnd(input: string, p: nat, n: nat)
    requires p + n <= |input| && forall i :: p <= i < p + n ==> Plain(input[i])
    ensures LineEnd(input, p, n) == p + n
    decreases n
  {
    hide Plain;
    if n > 0 {
      PlainToTheEnd(input, p + 1, n - 1);
    }
  }

  /** Text up to one of these characters: CR and LF end the line, NUL and ^C abort, and a line of more than 516
      characters is cut. */
  lemma {:induction false} LineIsRead(input: string, p: nat, t: string, c: char)
    requires Has(input, p, t + [c]) && Stops(c) && forall i :: 0 <= i < |t| ==> !Stops(t[i])
    ensures ReadLine(input, p) == if |t| >= 516 then Line(t[..516], p + 516)
                                  else if c == '\r' || c == '\n' then Line(t, p + |t| + 1) else Stop
  {
    hide Plain;
    HasSplit(input, p, t, [c]);
    var q := p + |t|;
    HasAt(input, q, [c], 0);
    PlainIs(c);
    forall i | p <= i < q ensures Plain(input[i]) && input[i] == t[i - p] {
      HasAt(input, p, t, i - p);
      PlainIs(t[i - p]);
    }
    if |t| < 516 {
      LineEndIs(input, p, MAX_RECORD, q);
      assert input[p..q] == t;
    } else {
      PlainToTheEnd(input, p, MAX_RECORD);
      assert input[p..p + 516] == t[..516];
    }
  }

  // ---- files

  function CheckOf(r: Srec): (check: byte)
    requires r.width + |r.data| + 1 < 256
    ensures Checks(r, check)
  {
    SumOfFile(r, 0);
    SumOfFile(r, CheckByte(Sum(FileBytes(r, 0))));
    CheckByte(Sum(FileBytes(r, 0)))
  }

  function FileLine(r: Srec): string
    requires Motorola(r)
  {
    LineText(r, CheckOf(r)) + "\n"
  }

  ghost predicate Body(rs: seq<Srec>) {
    forall i :: 0 <= i < |rs| ==> Motorola(rs[i]) && rs[i].kind in "01235"
  }

  function FileText(rs: seq<Srec>): string
    requires Body(rs)
  {
    if rs == [] then "" else FileLine(rs[0]) + FileText(rs[1..])
  }

  /** Where a record's data go. */
  function Goal(r: Srec, offset: u32): u32 {
    (r.addr + offset) % U32
  }

  predicate HasData(r: Srec) {
    r.kind in "123"
  }

  /** Memory behind the records, and the lowest and highest address of their data. */
  function MemAfter(m: seq<byte>, rs: seq<Srec>, offset: u32): seq<byte>
    requires |m| == U32
    decreases |rs|
  {
    if rs == [] then m
    else MemAfter(if HasData(rs[0]) then Put(m, Goal(rs[0], offset), rs[0].data) else m, rs[1..], offset)
  }

  function LowAfter(rs: seq<Srec>, offset: u32, lo: nat): nat {
    if rs == [] then lo
    else LowAfter(rs[1..], offset, if HasData(rs[0]) && Goal(rs[0], offset) < lo then Goal(rs[0], offset) else lo)
  }

  function HighAfter(rs: seq<Srec>, offset: u32, hi: nat): nat {
    if rs == [] then hi
    else
      var last := (Goal(rs[0], offset) + |rs[0].data| - 1) % U32;
      HighAfter(rs[1..], offset, if HasData(rs[0]) && last > hi then last else hi)
  }

  lemma {:induction false} PlainHexText(bytes: seq<byte>, i: nat)
    requires i < |HexText(bytes)|
    ensures !Stops(HexText(bytes)[i])
  {
    PlainText(bytes);
    PlainIs(HexText(bytes)[i]);
  }

  lemma {:induction false} FileLineIsRead(input: string, p: nat, r: Srec)
    requires Motorola(r) && Has(input, p, FileLine(r))
    ensures p + |FileLine(r)| <= |input|
    ensures ReadLine(input, p) == Line(LineText(r, CheckOf(r)), p + |FileLine(r)|)
    ensures Decode(LineText(r, CheckOf(r))) == Rec(r.kind, |r.data|, r.addr, r.data)
  {
    hide Decode, ReadLine, CheckOf, HexText, Checks;
    var t := LineText(r, CheckOf(r));
    assert |t| == 2 + |HexText(FileBytes(r, CheckOf(r)))|;
    forall i | 0 <= i < |t| ensures !Stops(t[i]) {
      if i >= 2 {
        PlainHexText(FileBytes(r, CheckOf(r)), i - 2);
      }
    }
    LineIsRead(input, p, t, '\n');
    LineDecodes(r, CheckOf(r));
  }

  /** One record of a file. */
  lemma {:induction false} LoadOneOf(m: seq<byte>, input: string, p: nat, r: Srec, offset: u32, lo: nat, hi: nat)
    requires |m| == U32 && Motorola(r) && Has(input, p, FileLine(r))
    ensures var next := p + |FileLine(r)|;
            var last := (Goal(r, offset) + |r.data| - 1) % U32;
            next <= |input| && Load(m, input, p, offset, lo, hi)
            == if r.kind in "789" then Download(m, Loaded(r.addr, (hi - lo + 1) % U32))
               else if HasData(r) then
                 Load(Put(m, Goal(r, offset), r.data), input, next, offset,
                      if Goal(r, offset) < lo then Goal(r, offset) else lo, if last > hi then last else hi)
               else Load(m, input, next, offset, lo, hi)
  {
    hide Decode, ReadLine, Put, FileLine;
    FileLineIsRead(input, p, r);
  }

  /** A file of any records with an end record behind them, downloaded with any offset: every data record goes to
      its address, the others change nothing, and the entry address is that of the end record. */
  lemma {:induction false} FileIsLoaded(m: seq<byte>, input: string, p: nat, rs: seq<Srec>, end: Srec, offset: u32,
                                        lo: nat, hi: nat)
    requires |m| == U32 && Body(rs) && Motorola(end) && end.kind in "789"
    requires Has(input, p, FileText(rs) + FileLine(end))
    ensures p <= |input| && Load(m, input, p, offset, lo, hi)
            == Download(MemAfter(m, rs, offset),
                        Loaded(end.addr, (HighAfter(rs, offset, hi) - LowAfter(rs, offset, lo) + 1) % U32))
    decreases |rs|
  {
    hide Load, FileLine, Put, Goal, Has, Motorola;
    if rs == [] {
      assert FileText(rs) + FileLine(end) == FileLine(end);
      LoadOneOf(m, input, p, end, offset, lo, hi);
    } else {
      var first, rest := FileLine(rs[0]), FileText(rs[1..]) + FileLine(end);
      assert FileText(rs) + FileLine(end) == first + rest;
      HasSplit(input, p, first, rest);
      LoadOneOf(m, input, p, rs[0], offset, lo, hi);
      var to, last := Goal(rs[0], offset), (Goal(rs[0], offset) + |rs[0].data| - 1) % U32;
      if HasData(rs[0]) {
        FileIsLoaded(Put(m, to, rs[0].data), input, p + |first|, rs[1..], end, offset,
                     if to < lo then to else lo, if last > hi then last else hi);
      } else {
        FileIsLoaded(m, input, p + |first|, rs[1..], end, offset, lo, hi);
      }
    }
  }
}
