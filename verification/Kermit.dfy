/** The packets of the Kermit receiver in cmd_load.c and what each one does to the download. */
module Kermit {
  import opened Words

  const START_CHAR: byte := 0x01
  const ETX_CHAR: byte := 0x03
  const END_CHAR: byte := 0x0D
  const SPACE: byte := 0x20
  const K_ESCAPE: byte := 0x23
  const SEND_TYPE: byte := 0x53
  const DATA_TYPE: byte := 0x44
  const ACK_TYPE: byte := 0x59
  const NACK_TYPE: byte := 0x4E
  const BREAK_TYPE: byte := 0x42

  function ToChar(x: nat): byte {
    (x + SPACE) % 256
  }

  function UnToChar(x: byte): byte {
    (x - SPACE) % 256
  }

  /** Characters below SPACE never occur inside a packet. */
  predicate Printable(c: byte) {
    c >= SPACE
  }

  /** The type 1 block check character of a sum. */
  function Check1(sum: nat): byte {
    ToChar((sum + sum / 64 % 4) % 64)
  }

  // ---- packets as they arrive

  /** What the receiver makes of the bytes behind a START: the header can be
      unreadable, the rest can be damaged, or the packet is intact. A damaged
      packet without a readable type has type 0. */
  datatype Arrival =
    | HeaderFault
    | Damaged(n: byte, kind: byte, data: seq<byte>)
    | Intact(n: byte, kind: byte, data: seq<byte>)

  datatype Scan = Waiting | Got(arrival: Arrival, used: nat)

  /** End of the data: count characters, fewer if an unprintable one or the end of input comes first. */
  function DataEnd(s: seq<byte>, p: nat, count: nat): (q: nat)
    requires p <= |s|
    ensures p <= q <= p + count && q <= |s|
    ensures forall i :: p <= i < q ==> Printable(s[i])
    ensures q < p + count && q < |s| ==> !Printable(s[q])
    decreases count
  {
    if count == 0 || p == |s| || !Printable(s[p]) then p else DataEnd(s, p + 1, count - 1)
  }

  /** Data, block check and end character of a packet whose data start at p. */
  function ScanRest(s: seq<byte>, n: byte, kind: byte, p: nat, count: nat): (r: Scan)
    requires p <= |s|
    ensures r.Got? ==> p < r.used <= |s|
  {
    var q := DataEnd(s, p, count);
    var data := s[p..q];
    if q == |s| then Waiting
    else if q < p + count || !Printable(s[q]) || s[q] != Check1(Sum(s[..q])) then Got(Damaged(n, kind, data), q + 1)
    else if q + 1 == |s| then Waiting
    else if s[q + 1] != END_CHAR then Got(Damaged(n, kind, data), q + 2)
    else Got(Intact(n, kind, data), q + 2)
  }

  /** A packet with the length in two extra bytes and a header check of its own. */
  function ScanLong(s: seq<byte>, n: byte, kind: byte): (r: Scan)
    requires |s| >= 3
    ensures r.Got? ==> 3 < r.used <= |s|
  {
    if |s| == 3 then Waiting
    else if !Printable(s[3]) then Got(Damaged(n, kind, []), 4)
    else if |s| == 4 then Waiting
    else if !Printable(s[4]) then Got(Damaged(n, kind, []), 5)
    else if |s| == 5 then Waiting
    else if !Printable(s[5]) || s[5] != Check1(Sum(s[..5])) then Got(Damaged(n, kind, []), 6)
    else
      var length := UnToChar(s[3]) * 95 + UnToChar(s[4]);
      ScanRest(s, n, kind, 6, if length > 1 then length - 1 else 0)
  }

  /** The bytes behind a START character. */
  function ScanPacket(s: seq<byte>): (r: Scan)
    ensures r.Got? ==> 0 < r.used <= |s|
  {
    if |s| == 0 then Waiting
    else if !Printable(s[0]) then Got(HeaderFault, 1)
    else if |s| == 1 then Waiting
    else if !Printable(s[1]) then Got(HeaderFault, 2)
    else if |s| == 2 then Waiting
    else
      var n := UnToChar(s[1]);
      if !Printable(s[2]) then Got(Damaged(n, 0, []), 3)
      else
        var length := UnToChar(s[0]) - 2;
        if length == -2 then ScanLong(s, n, s[2])
        else ScanRest(s, n, s[2], 3, if length > 1 then length - 1 else 0)
  }

  /** What has been scanned does not depend on what comes after it. */
  lemma {:induction false} DataEndLocal(s: seq<byte>, t: seq<byte>, p: nat, count: nat)
    requires p <= |s|
    ensures DataEnd(s, p, count) < |s| || DataEnd(s, p, count) == p + count ==>
              DataEnd(s + t, p, count) == DataEnd(s, p, count)
    decreases count
  {
    if count > 0 && p < |s| && Printable(s[p]) {
      DataEndLocal(s, t, p + 1, count - 1);
    }
  }

  lemma RestLocal(s: seq<byte>, t: seq<byte>, n: byte, kind: byte, p: nat, count: nat)
    requires p <= |s| && ScanRest(s, n, kind, p, count).Got?
    ensures ScanRest(s + t, n, kind, p, count) == ScanRest(s, n, kind, p, count)
  {
    DataEndLocal(s, t, p, count);
    var q := DataEnd(s, p, count);
    assert (s + t)[..q] == s[..q];
    assert (s + t)[p..q] == s[p..q];
  }

  lemma {:induction false} LongLocal(s: seq<byte>, t: seq<byte>, n: byte, kind: byte)
    requires |s| >= 3
    ensures ScanLong(s, n, kind).Got? ==> ScanLong(s + t, n, kind) == ScanLong(s, n, kind)
  {
    hide ScanRest, Check1, Sum;
    if |s| >= 6 {
      assert (s + t)[..5] == s[..5];
      var length := UnToChar(s[3]) * 95 + UnToChar(s[4]);
      var count := if length > 1 then length - 1 else 0;
      if ScanRest(s, n, kind, 6, count).Got? {
        RestLocal(s, t, n, kind, 6, count);
      }
    }
  }

  lemma ScanLocal(s: seq<byte>, t: seq<byte>)
    requires ScanPacket(s).Got?
    ensures ScanPacket(s + t) == ScanPacket(s)
  {
    hide ScanRest, Check1, Sum;
    if |s| >= 3 {
      var length := UnToChar(s[0]) - 2;
      if length == -2 {
        LongLocal(s, t, UnToChar(s[1]), s[2]);
      } else if Printable(s[0]) && Printable(s[1]) && Printable(s[2]) {
        RestLocal(s, t, UnToChar(s[1]), s[2], 3, if length > 1 then length - 1 else 0);
      }
    }
  }

  // ---- control prefixing

  /** The character meant by the one behind a prefix. */
  function KTrans(c: byte): byte {
    if c / 32 % 4 == 2 then c - 64
    else if c % 128 == 63 then c + 64
    else c
  }

  /** Bytes received so far, and whether the last character was a prefix. */
  datatype Decoded = Decoded(out: seq<byte>, esc: bool)

  function DecodeChar(d: Decoded, quote: byte, c: byte): Decoded {
    if d.esc then Decoded(d.out + [KTrans(c)], false)
    else if c == quote then d.(esc := true)
    else Decoded(d.out + [c], false)
  }

  function Decode(d: Decoded, quote: byte, data: seq<byte>): (r: Decoded)
    ensures d.out <= r.out
  {
    if data == [] then d else DecodeChar(Decode(d, quote, data[..|data| - 1]), quote, data[|data| - 1])
  }

  /** However the text is cut, the pieces decode like the whole. */
  lemma {:induction false} DecodeSplit(d: Decoded, quote: byte, a: seq<byte>, b: seq<byte>)
    ensures Decode(d, quote, a + b) == Decode(Decode(d, quote, a), quote, b)
  {
    hide DecodeChar;
    if b == [] {
      assert a + b == a;
    } else {
      assert (a + b)[..|a + b| - 1] == a + b[..|b| - 1];
      DecodeSplit(d, quote, a, b[..|b| - 1]);
    }
  }

  /** Characters that a sender prefixes: control characters and DEL, with either eighth bit. */
  predicate IsControl(b: byte) {
    b % 128 < 32 || b % 128 == 127
  }

  /** Complement of bit 6, as in the Kermit Protocol Manual. */
  function Ctl(b: byte): byte {
    if b / 64 % 2 == 1 then b - 64 else b + 64
  }

  /** Control prefixing on the sending side. */
  function EncodeByte(quote: byte, b: byte): seq<byte> {
    if IsControl(b) then [quote, Ctl(b)] else if b == quote then [quote, quote] else [b]
  }

  function Encode(quote: byte, data: seq<byte>): seq<byte> {
    if data == [] then [] else Encode(quote, data[..|data| - 1]) + EncodeByte(quote, data[|data| - 1])
  }

  /** Prefix characters for which decoding undoes encoding. */
  predicate LegalQuote(quote: byte) {
    IsControl(quote) || KTrans(quote) == quote
  }

  lemma CtlBack(b: byte)
    requires IsControl(b)
    ensures KTrans(Ctl(b)) == b
  {
  }

  lemma DecodeOne(d: Decoded, quote: byte, c: byte)
    ensures Decode(d, quote, [c]) == DecodeChar(d, quote, c)
  {
    assert [c][..0] == [];
  }

  lemma DecodePair(d: Decoded, quote: byte, c: byte)
    requires !d.esc
    ensures Decode(d, quote, [quote, c]) == Decoded(d.out + [KTrans(c)], false)
  {
    hide KTrans;
    assert [quote, c][..1] == [quote];
    DecodeOne(d, quote, quote);
  }

  lemma ByteRoundTrip(d: Decoded, quote: byte, b: byte)
    requires !d.esc
    ensures Decode(d, quote, EncodeByte(quote, b)) == Decoded(d.out + [b], false)
            <==> IsControl(b) || b != quote || KTrans(quote) == quote
  {
    hide KTrans, Ctl, Decode;
    if IsControl(b) {
      DecodePair(d, quote, Ctl(b));
      CtlBack(b);
    } else if b == quote {
      DecodePair(d, quote, quote);
      assert (d.out + [KTrans(quote)])[|d.out|] == KTrans(quote);
      assert (d.out + [b])[|d.out|] == b;
    } else {
      DecodeOne(d, quote, b);
    }
  }

  lemma DecodeNothing(d: Decoded, quote: byte)
    ensures Decode(d, quote, []) == d
  {
  }

  /** Control-prefix decoding inverts the encoding for every byte string,
      eighth bits included, exactly for legal prefix characters. */
  lemma {:induction false} EncodeRoundTrip(d: Decoded, quote: byte, data: seq<byte>)
    requires !d.esc && LegalQuote(quote)
    ensures Decode(d, quote, Encode(quote, data)) == Decoded(d.out + data, false)
  {
    hide EncodeByte, Decode;
    if data == [] {
      DecodeNothing(d, quote);
      assert d.out + data == d.out;
    } else {
      var n := |data| - 1;
      EncodeRoundTrip(d, quote, data[..n]);
      DecodeSplit(d, quote, Encode(quote, data[..n]), EncodeByte(quote, data[n]));
      ByteRoundTrip(Decoded(d.out + data[..n], false), quote, data[n]);
      assert d.out + data[..n] + [data[n]] == d.out + data;
    }
  }

  lemma IllegalQuote(quote: byte)
    requires !LegalQuote(quote)
    ensures Decode(Decoded([], false), quote, Encode(quote, [quote])) != Decoded([quote], false)
  {
    assert [quote][..0] == [];
    assert Encode(quote, [quote]) == [] + EncodeByte(quote, quote) == EncodeByte(quote, quote);
    ByteRoundTrip(Decoded([], false), quote, quote);
    assert [] + [quote] == [quote];
  }

  /** Every encoded character may stand in a packet. */
  lemma {:induction false} EncodedIsPrintable(quote: byte, data: seq<byte>)
    requires Printable(quote)
    ensures forall i :: 0 <= i < |Encode(quote, data)| ==> Printable(Encode(quote, data)[i])
  {
    if data != [] {
      EncodedIsPrintable(quote, data[..|data| - 1]);
    }
  }

  // ---- what an arrival does

  /** What the sender has asked for. */
  datatype Line = Line(eol: byte, padCount: byte, padChar: byte, quote: byte)

  const DEFAULT_LINE := Line(END_CHAR, 0, 0, K_ESCAPE)

  /** Characters of a send-init packet that are looked at. */
  function ParmCount(data: seq<byte>): nat {
    if |data| >= 19 then 18 else |data|
  }

  function SendInitLine(data: seq<byte>): Line {
    var n := ParmCount(data);
    Line(if n > 4 then UnToChar(data[4]) else END_CHAR,
         if n > 2 then UnToChar(data[2]) else 0,
         if n > 3 then KTrans(data[3]) else 0,
         if n > 5 then data[5] else K_ESCAPE)
  }

  /** The fields in which a sender asks for a line, as the Kermit Protocol Manual has them: NPAD and EOL as
      printable numbers, PADC with bit 6 turned over, QCTL as it is. A field that does not come has its default. */
  ghost predicate Asks(parms: seq<byte>, line: Line) {
    && (if |parms| > 2 then parms[2] == ToChar(line.padCount) else line.padCount == 0)
    && (if |parms| > 3 then IsControl(line.padChar) && parms[3] == Ctl(line.padChar) else line.padChar == 0)
    && (if |parms| > 4 then parms[4] == ToChar(line.eol) else line.eol == END_CHAR)
    && (if |parms| > 5 then parms[5] == line.quote else line.quote == '#' as byte)
  }

  /** What the sender asks for is what the receiver takes. */
  lemma AskedIsTaken(parms: seq<byte>, line: Line)
    requires Asks(parms, line)
    ensures SendInitLine(parms) == line
  {
    if |parms| > 3 {
      CtlBack(line.padChar);
    }
  }

  /** The prefix character is the sixth parameter. */
  lemma AskedQuote(parms: seq<byte>, quote: byte)
    requires if |parms| > 5 then parms[5] == quote else quote == '#' as byte
    ensures SendInitLine(parms).quote == quote
  {
  }

  /** The answer to n parameters: as many fields as were sent; the last one counts for four. */
  function InitReply(n: nat): (r: seq<byte>)
    ensures |r| <= 13
    ensures forall i :: 0 <= i < |r| ==> Printable(r[i])
  {
    var fields := [ToChar(94), ToChar(1), ToChar(0), 0x40, ToChar(END_CHAR), 0x23, 0x4E, 0x31, 0x4E,
                   ToChar(2), ToChar(0), ToChar(94), ToChar(94)];
    if n >= 10 then fields else fields[..n]
  }

  /** A short packet behind its START character, without the end character. */
  function Body(n: byte, kind: byte, data: seq<byte>): seq<byte> {
    var head := [ToChar(|data| + 3), ToChar(n), kind] + data;
    head + [Check1(Sum(head))]
  }

  /** What is put on the line: padding, the packet, and the end character unless it is NUL. */
  function Reply(line: Line, n: byte, kind: byte, data: seq<byte>): seq<byte> {
    seq(line.padCount, _ => line.padChar) + [START_CHAR] + Body(n, kind, data)
    + if line.eol == 0 then [] else [line.eol]
  }

  /** Receiver state; what is saved belongs to the last checkpoint. */
  datatype State = State(now: Decoded, saved: Decoded, lastN: int, n: byte, line: Line,
                         sent: seq<seq<byte>>, done: bool)

  const INITIAL := State(Decoded([], false), Decoded([], false), -1, 0, DEFAULT_LINE, [], false)

  /** A repeated sequence number goes back to the checkpoint, a new one makes one. */
  function Checkpoint(k: State, n: byte): State {
    if n == k.lastN then k.(n := n, now := k.saved) else k.(n := n, lastN := n, saved := k.now)
  }

  /** Data reach memory while the packet comes in. */
  function Absorb(k: State, kind: byte, data: seq<byte>): State {
    if kind == DATA_TYPE then k.(now := Decode(k.now, k.line.quote, data)) else k
  }

  function Reject(k: State): State {
    k.(now := k.saved, sent := k.sent + [Reply(k.line, k.n, NACK_TYPE, [])])
  }

  function Accept(k: State, kind: byte, data: seq<byte>): State {
    if kind == SEND_TYPE then
      var line := SendInitLine(data);
      k.(line := line, sent := k.sent + [Reply(line, k.n, ACK_TYPE, InitReply(ParmCount(data)))])
    else
      k.(sent := k.sent + [Reply(k.line, k.n, ACK_TYPE, [])], done := k.done || kind == BREAK_TYPE)
  }

  /** What a packet has done whose data have started at p and are not read to the end of the packet. */
  function PendingRest(k: State, s: seq<byte>, kind: byte, p: nat, count: nat): State
    requires p <= |s|
  {
    Absorb(k, kind, s[p..DataEnd(s, p, count)])
  }

  function PendingLong(k: State, s: seq<byte>, kind: byte): State {
    if |s| < 6 then k
    else
      var length := UnToChar(s[3]) * 95 + UnToChar(s[4]);
      PendingRest(k, s, kind, 6, if length > 1 then length - 1 else 0)
  }

  /** The state while more bytes of a packet are waited for: a sequence number makes or restores a
      checkpoint as soon as it is read, and data go to memory as they come. */
  function Pending(k: State, s: seq<byte>): State {
    if |s| < 2 then k
    else
      var now, length := Checkpoint(k, UnToChar(s[1])), UnToChar(s[0]) - 2;
      if |s| == 2 then now
      else if length == -2 then PendingLong(now, s, s[2])
      else PendingRest(now, s, s[2], 3, if length > 1 then length - 1 else 0)
  }

  function Step(k: State, a: Arrival): State {
    match a
    case HeaderFault => Reject(k)
    case Damaged(n, kind, data) => Reject(Absorb(Checkpoint(k, n), kind, data))
    case Intact(n, kind, data) => Accept(Absorb(Checkpoint(k, n), kind, data), kind, data)
  }
}
