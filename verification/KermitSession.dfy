/** Whole Kermit downloads: the packets of a sender on the line, and the file in memory behind them. */
module KermitSession {
  import opened Words
  import opened Kermit
  import opened KermitDelivery
  import opened KermitReceiver

  /** A packet of the sender behind its START character. */
  function PacketBytes(g: Group): seq<byte> {
    Body(g.n, g.kind, g.data) + [END_CHAR]
  }

  /** A packet that is short enough and, unless it carries data, made of printable characters. */
  ghost predicate Sendable(g: Group) {
    && g.n < 224 && Printable(g.kind) && |g.data| + 3 < 224
    && (g.kind != DATA_TYPE ==> forall i :: 0 <= i < |g.data| ==> Printable(g.data[i]))
  }

  /** What is on the line for an arrival: the packet as it is, or anything that is read as the damage. */
  ghost predicate OnLine(b: Burst, a: Arrival) {
    Noise(b.noise) && if a.Intact? then b.bytes == Body(a.n, a.kind, a.data) + [END_CHAR] else Carries(b, a)
  }

  lemma {:induction false} PayloadHas(gs: seq<Group>, i: nat, j: nat)
    requires i < |gs| && gs[i].kind == DATA_TYPE && j < |gs[i].data|
    ensures exists m :: 0 <= m < |Payload(gs)| && Payload(gs)[m] == gs[i].data[j]
  {
    var front := if gs[0].kind == DATA_TYPE then gs[0].data else [];
    if i == 0 {
      assert Payload(gs)[j] == gs[0].data[j];
    } else {
      PayloadHas(gs[1..], i - 1, j);
      var m :| 0 <= m < |Payload(gs[1..])| && Payload(gs[1..])[m] == gs[1..][i - 1].data[j];
      assert Payload(gs)[|front| + m] == Payload(gs[1..])[m];
    }
  }

  /** The data of every packet can be sent, wherever the encoded file is cut. */
  lemma DataIsPrintable(gs: seq<Group>, quote: byte, file: seq<byte>, i: nat)
    requires Payload(gs) == Encode(quote, file) && Printable(quote) && i < |gs| && Sendable(gs[i])
    ensures forall j :: 0 <= j < |gs[i].data| ==> Printable(gs[i].data[j])
  {
    hide Payload, Encode;
    if gs[i].kind == DATA_TYPE {
      EncodedIsPrintable(quote, file);
      forall j | 0 <= j < |gs[i].data| ensures Printable(gs[i].data[j]) {
        PayloadHas(gs, i, j);
      }
    }
  }

  lemma BodyLength(g: Group)
    ensures |Body(g.n, g.kind, g.data) + [END_CHAR]| == |Body(g.n, g.kind, g.data)| + 1
  {
  }

  /** The bytes of a packet carry it. */
  lemma PacketCarried(b: Burst, g: Group)
    requires OnLine(b, Packet(g)) && Sendable(g) && forall j :: 0 <= j < |g.data| ==> Printable(g.data[j])
    ensures Carries(b, Packet(g))
  {
    hide ScanPacket, Body;
    PacketScans(g.n, g.kind, g.data);
    BodyLength(g);
  }

  ghost predicate PrintableData(g: Group) {
    forall j :: 0 <= j < |g.data| ==> Printable(g.data[j])
  }

  lemma ArrivalCarried(b: Burst, g: Group, a: Arrival)
    requires Sendable(g) && PrintableData(g) && OnLine(b, a)
    requires a.HeaderFault? || a.Damaged? || a == Packet(g)
    ensures Carries(b, a)
  {
    hide ScanPacket, Body;
    if a == Packet(g) {
      PacketCarried(b, g);
    }
  }

  /** An intact arrival of a group is its packet. */
  lemma {:induction false} AllCarried(gs: seq<Group>, bs: seq<Burst>)
    requires forall i :: 0 <= i < |gs| ==> ValidGroup(gs[i]) && Sendable(gs[i]) && PrintableData(gs[i])
    requires |bs| == |Arrivals(gs)| && forall i :: 0 <= i < |bs| ==> OnLine(bs[i], Arrivals(gs)[i])
    ensures forall i :: 0 <= i < |bs| ==> Carries(bs[i], Arrivals(gs)[i])
    decreases |gs|
  {
    hide Carries, Sendable, PrintableData, OnLine;
    if gs != [] {
      var g, n := gs[0], |gs[0].earlier| + 1;
      var first := g.earlier + [Packet(g)];
      assert Arrivals(gs) == first + Arrivals(gs[1..]);
      forall i | 0 <= i < n ensures Carries(bs[i], first[i]) {
        assert first[i] == Arrivals(gs)[i];
        ArrivalCarried(bs[i], g, first[i]);
      }
      forall i | 0 <= i < |bs| - n ensures OnLine(bs[n..][i], Arrivals(gs[1..])[i]) {
        assert Arrivals(gs)[n + i] == Arrivals(gs[1..])[i];
      }
      AllCarried(gs[1..], bs[n..]);
      forall i | 0 <= i < |bs| ensures Carries(bs[i], Arrivals(gs)[i]) {
        if i >= n {
          assert bs[i] == bs[n..][i - n] && Arrivals(gs)[i] == Arrivals(gs[1..])[i - n];
        } else {
          assert first[i] == Arrivals(gs)[i];
        }
      }
    }
  }

  /** A download over a bad line: the packets of a sender that encodes a file and cuts it anywhere, with any
      noise between them, repeated and damaged as the receiver can cope with. It finishes with the file,
      whatever comes behind the BREAK packet. */
  lemma {:induction false} FileDownloaded(init: Group, gs: seq<Group>, quote: byte, file: seq<byte>,
                                          bs: seq<Burst>, rest: seq<byte>)
    requires ValidGroups([init] + gs) && init.kind == SEND_TYPE && gs != [] && gs[|gs| - 1].kind == BREAK_TYPE
    requires forall i :: 0 <= i < |gs| ==> gs[i].kind != SEND_TYPE && Sendable(gs[i])
    requires if |init.data| > 5 then init.data[5] == quote else quote == '#' as byte
    requires Sendable(init) && LegalQuote(quote) && Printable(quote) && Payload(gs) == Encode(quote, file)
    requires |bs| == |Arrivals([init] + gs)| && forall i :: 0 <= i < |bs| ==> OnLine(bs[i], Arrivals([init] + gs)[i])
    ensures var (k, outcome) := Receive(INITIAL, Stream(bs) + rest);
            outcome == Finished && k.now == Decoded(file, false)
  {
    hide Carries, Receive, Encode, LegalQuote, Arrivals, OnLine, Payload, Printable;
    var all := [init] + gs;
    forall i | 0 <= i < |all| ensures ValidGroup(all[i]) && Sendable(all[i]) && PrintableData(all[i]) {
      if i > 0 {
        DataIsPrintable(gs, quote, file, i - 1);
      }
    }
    AllCarried(all, bs);
    FileReceived(init, gs, quote, file, bs, rest);
  }

  // ---- a sender on a good line

  function Concat(parts: seq<seq<byte>>): seq<byte> {
    if parts == [] then [] else parts[0] + Concat(parts[1..])
  }

  /** Data packets with the given parts, numbered from k on modulo 64, and the BREAK packet. */
  function DataPackets(parts: seq<seq<byte>>, k: nat): (gs: seq<Group>)
    ensures |gs| == |parts| + 1
    ensures forall i :: 0 <= i < |gs| ==> gs[i].n == (k + i) % 64 && gs[i].earlier == []
    ensures forall i :: 0 <= i < |gs| ==> gs[i].kind == if i < |parts| then DATA_TYPE else BREAK_TYPE
    ensures forall i :: 0 <= i < |gs| ==> gs[i].data == if i < |parts| then parts[i] else []
  {
    if parts == [] then [Group(k % 64, BREAK_TYPE, [], [])]
    else [Group(k % 64, DATA_TYPE, parts[0], [])] + DataPackets(parts[1..], k + 1)
  }

  function Sending(parms: seq<byte>, parts: seq<seq<byte>>): seq<Group> {
    [Group(0, SEND_TYPE, parms, [])] + DataPackets(parts, 1)
  }

  /** Each packet once, with nothing between them. */
  function Line(gs: seq<Group>): seq<byte> {
    if gs == [] then [] else [START_CHAR] + PacketBytes(gs[0]) + Line(gs[1..])
  }

  function Bursts(gs: seq<Group>): (bs: seq<Burst>)
    ensures |bs| == |gs|
  {
    seq(|gs|, i requires 0 <= i < |gs| => Burst([], PacketBytes(gs[i])))
  }

  lemma {:induction false} LineIsStream(gs: seq<Group>)
    ensures Stream(Bursts(gs)) == Line(gs)
    decreases |gs|
  {
    hide PacketBytes;
    if gs != [] {
      LineIsStream(gs[1..]);
      assert Bursts(gs)[1..] == Bursts(gs[1..]);
      assert [] + [START_CHAR] + PacketBytes(gs[0]) + Line(gs[1..])
             == [START_CHAR] + PacketBytes(gs[0]) + Line(gs[1..]);
    }
  }

  lemma {:induction false} OneArrivalEach(gs: seq<Group>)
    requires forall i :: 0 <= i < |gs| ==> gs[i].earlier == []
    ensures |Arrivals(gs)| == |gs| && forall i :: 0 <= i < |gs| ==> Arrivals(gs)[i] == Packet(gs[i])
    decreases |gs|
  {
    if gs != [] {
      OneArrivalEach(gs[1..]);
      assert Arrivals(gs) == [Packet(gs[0])] + Arrivals(gs[1..]);
    }
  }

  lemma {:induction false} PayloadOfParts(parts: seq<seq<byte>>, k: nat)
    ensures Payload(DataPackets(parts, k)) == Concat(parts)
  {
    if parts == [] {
      assert Payload(DataPackets(parts, k)) == [] + Payload([]);
    } else {
      PayloadOfParts(parts[1..], k + 1);
      assert DataPackets(parts, k)[1..] == DataPackets(parts[1..], k + 1);
    }
  }

  lemma SendingIsValid(parms: seq<byte>, parts: seq<seq<byte>>)
    requires |parms| <= 220 && forall i :: 0 <= i < |parms| ==> Printable(parms[i])
    requires forall i :: 0 <= i < |parts| ==> |parts[i]| <= 220
    ensures var all := Sending(parms, parts);
            ValidGroups(all) && (forall i :: 0 <= i < |all| ==> Sendable(all[i]) && all[i].earlier == [])
  {
    var all := Sending(parms, parts);
    assert forall i :: 0 <= i < |all| ==> all[i].n == i % 64;
    forall i | 0 <= i < |all| - 1 ensures all[i].n != all[i + 1].n && all[i].kind != BREAK_TYPE {
      assert all[i].n == i % 64 && all[i + 1].n == (i + 1) % 64;
    }
  }

  /** Packets that are sent once and bare. */
  lemma BareLine(gs: seq<Group>)
    requires forall i :: 0 <= i < |gs| ==> gs[i].earlier == []
    ensures |Arrivals(gs)| == |gs| && forall i :: 0 <= i < |gs| ==> OnLine(Bursts(gs)[i], Arrivals(gs)[i])
  {
    hide Body, Arrivals;
    OneArrivalEach(gs);
  }

  /** What the user sees: the encoded file in parts of any lengths up to 220, behind a send-init packet, is
      downloaded as the file. */
  lemma {:induction false} CleanDownload(parms: seq<byte>, parts: seq<seq<byte>>, quote: byte, file: seq<byte>,
                                         rest: seq<byte>)
    requires |parms| <= 220 && forall i :: 0 <= i < |parms| ==> Printable(parms[i])
    requires forall i :: 0 <= i < |parts| ==> |parts[i]| <= 220
    requires if |parms| > 5 then parms[5] == quote else quote == '#' as byte
    requires LegalQuote(quote) && Printable(quote) && Concat(parts) == Encode(quote, file)
    ensures var (k, outcome) := Receive(INITIAL, Line(Sending(parms, parts)) + rest);
            outcome == Finished && k.now == Decoded(file, false)
  {
    hide Receive, Encode, LegalQuote, Concat, Arrivals, Payload, Stream, Line, Bursts, OnLine, Sendable;
    hide ValidGroups;
    var init, gs := Group(0, SEND_TYPE, parms, []), DataPackets(parts, 1);
    var all := [init] + gs;
    SendingIsValid(parms, parts);
    PayloadOfParts(parts, 1);
    BareLine(all);
    LineIsStream(all);
    assert all[0] == init && forall i :: 0 <= i < |gs| ==> gs[i] == all[i + 1];
    FileDownloaded(init, gs, quote, file, Bursts(all), rest);
  }

  /** loadb with such a sender. */
  method Download(parms: seq<byte>, parts: seq<seq<byte>>, ghost quote: byte, ghost file: seq<byte>, rest: seq<byte>)
    returns (outcome: Outcome, size: nat, r: Receiver)
    requires |parms| <= 220 && forall i :: 0 <= i < |parms| ==> Printable(parms[i])
    requires forall i :: 0 <= i < |parts| ==> |parts[i]| <= 220
    requires if |parms| > 5 then parms[5] == quote else quote == '#' as byte
    requires LegalQuote(quote) && Printable(quote) && Concat(parts) == Encode(quote, file)
    ensures outcome == Finished && size == |file| <= |r.memory| && r.memory[..size] == file
  {
    hide Receive, Encode, LegalQuote, Concat, Line;
    var input := Line(Sending(parms, parts)) + rest;
    r := new Receiver(input);
    CleanDownload(parms, parts, quote, file, rest);
    assert input[0..] == input;
    outcome, size := r.KRecv();
  }
}
