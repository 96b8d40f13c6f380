/** Exactly-once delivery of the Kermit receiver, from single arrivals up to byte streams. */
module KermitDelivery {
  import opened Words
  import opened Kermit

  function Run(k: State, arrivals: seq<Arrival>): State
    decreases |arrivals|
  {
    if arrivals == [] || k.done then k else Run(Step(k, arrivals[0]), arrivals[1..])
  }

  /** One packet of the sender and all its arrivals: any number of duplicates and
      damaged copies, then an intact one. The first arrival has a readable
      sequence number; later ones need not have one. */
  datatype Group = Group(n: byte, kind: byte, data: seq<byte>, earlier: seq<Arrival>)

  function Packet(g: Group): Arrival {
    Intact(g.n, g.kind, g.data)
  }

  ghost predicate ValidGroup(g: Group) {
    forall i :: 0 <= i < |g.earlier| ==>
      var a := g.earlier[i];
      (a.HeaderFault? && i > 0) || (a.Damaged? && a.n == g.n) || (a == Packet(g) && g.kind != BREAK_TYPE)
  }

  /** Neighbouring packets have different sequence numbers; only the last one ends the transmission. */
  ghost predicate ValidGroups(gs: seq<Group>) {
    && (forall i :: 0 <= i < |gs| ==> ValidGroup(gs[i]))
    && (forall i :: 0 <= i < |gs| - 1 ==> gs[i].n != gs[i + 1].n && gs[i].kind != BREAK_TYPE)
  }

  function Arrivals(gs: seq<Group>): seq<Arrival> {
    if gs == [] then [] else gs[0].earlier + [Packet(gs[0])] + Arrivals(gs[1..])
  }

  /** The download and the line parameters when every packet counts once. */
  datatype Result = Result(d: Decoded, line: Line)

  function Effect(r: Result, g: Group): Result {
    if g.kind == DATA_TYPE then r.(d := Decode(r.d, r.line.quote, g.data))
    else if g.kind == SEND_TYPE then r.(line := SendInitLine(g.data))
    else r
  }

  function Deliver(r: Result, gs: seq<Group>): Result
    decreases |gs|
  {
    if gs == [] then r else Deliver(Effect(r, gs[0]), gs[1..])
  }

  /** Between two arrivals of a group: the checkpoint is what the earlier groups left. */
  ghost predicate Inside(k: State, g: Group, r: Result) {
    && !k.done && k.lastN == g.n && k.saved == r.d
    && (k.line == r.line || (g.kind == SEND_TYPE && k.line == Effect(r, g).line))
  }

  ghost predicate Before(k: State, g: Group, r: Result) {
    !k.done && k.lastN != g.n && k.now == r.d && k.line == r.line
  }

  lemma StepInside(k: State, g: Group, r: Result, a: Arrival)
    requires Before(k, g, r) || Inside(k, g, r)
    requires (a.HeaderFault? && Inside(k, g, r)) || (a.Damaged? && a.n == g.n) || a == Packet(g)
    ensures a.HeaderFault? || a.Damaged? ==> Inside(Step(k, a), g, r)
    ensures a == Packet(g) && g.kind != BREAK_TYPE ==> Inside(Step(k, a), g, r)
    ensures a == Packet(g) ==> Step(k, a).now == Effect(r, g).d && Step(k, a).line == Effect(r, g).line
                               && Step(k, a).lastN == g.n && Step(k, a).done == (g.kind == BREAK_TYPE)
  {
    hide Decode, SendInitLine, Reply, InitReply;
  }

  /** The rest of a group: after the last arrival its packet has counted exactly once. */
  lemma {:induction false} GroupRun(k: State, g: Group, r: Result, i: nat, rest: seq<Arrival>) returns (after: State)
    requires (i == 0 && Before(k, g, r)) || Inside(k, g, r)
    requires ValidGroup(g) && i <= |g.earlier|
    ensures Run(k, g.earlier[i..] + [Packet(g)] + rest) == Run(after, rest)
    ensures after.now == Effect(r, g).d && after.line == Effect(r, g).line && after.lastN == g.n
    ensures after.done == (g.kind == BREAK_TYPE)
    decreases |g.earlier| - i
  {
    hide Step, Effect;
    var trace := g.earlier[i..] + [Packet(g)] + rest;
    if i == |g.earlier| {
      StepInside(k, g, r, Packet(g));
      assert trace[1..] == rest;
      after := Step(k, Packet(g));
    } else {
      var a := g.earlier[i];
      StepInside(k, g, r, a);
      assert trace[1..] == g.earlier[i + 1..] + [Packet(g)] + rest;
      after := GroupRun(Step(k, a), g, r, i + 1, rest);
    }
  }

  /** Exactly-once delivery over a whole trace. */
  lemma {:induction false} ExactlyOnce(k: State, gs: seq<Group>)
    requires ValidGroups(gs) && !k.done && (gs != [] ==> k.lastN != gs[0].n)
    ensures var r := Deliver(Result(k.now, k.line), gs);
            Run(k, Arrivals(gs)).now == r.d && Run(k, Arrivals(gs)).line == r.line
    ensures Run(k, Arrivals(gs)).done <==> gs != [] && gs[|gs| - 1].kind == BREAK_TYPE
    decreases |gs|
  {
    hide Step, Effect, ValidGroup;
    if gs != [] {
      var g, r := gs[0], Result(k.now, k.line);
      var after := GroupRun(k, g, r, 0, Arrivals(gs[1..]));
      assert g.earlier[0..] == g.earlier;
      if g.kind == BREAK_TYPE {
        assert gs[1..] == [];
      } else {
        ExactlyOnce(after, gs[1..]);
      }
    }
  }

  /** A header fault in front of a new packet undoes the packet that was just
      acknowledged: what follows is delivered as if that one had never come. */
  lemma {:induction false} EarlyHeaderFault(k: State, gs: seq<Group>)
    requires ValidGroups(gs) && !k.done && (gs != [] ==> k.lastN != gs[0].n)
    ensures Run(k, [HeaderFault] + Arrivals(gs)).now == Deliver(Result(k.saved, k.line), gs).d
  {
    var trace := [HeaderFault] + Arrivals(gs);
    assert trace[1..] == Arrivals(gs);
    ExactlyOnce(Step(k, HeaderFault), gs);
  }

  /** A packet with one character. */
  lemma OneData(k: State, n: byte, c: byte)
    requires k.lastN != n && !k.now.esc && !k.done && c != k.line.quote
    ensures Step(k, Intact(n, DATA_TYPE, [c])) == k.(n := n, lastN := n, saved := k.now,
              now := Decoded(k.now.out + [c], false), sent := k.sent + [Reply(k.line, n, ACK_TYPE, [])])
  {
    hide Reply, Decode;
    DecodeOne(k.now, k.line.quote, c);
  }

  lemma FaultUndoes(k: State)
    ensures Step(k, HeaderFault) == k.(now := k.saved, sent := k.sent + [Reply(k.line, k.n, NACK_TYPE, [])])
  {
    hide Reply;
  }

  /** Two packets and a header fault between them: the first one is acknowledged, and lost. */
  lemma PacketIsLost()
    ensures var a, b := Intact(0, DATA_TYPE, [65]), Intact(1, DATA_TYPE, [66]);
            Run(INITIAL, [a, b]).now.out == [65, 66] && Run(INITIAL, [a, HeaderFault, b]).now.out == [66]
  {
    hide Reply, Step;
    var a, b := Intact(0, DATA_TYPE, [65]), Intact(1, DATA_TYPE, [66]);
    OneData(INITIAL, 0, 65);
    var k := Step(INITIAL, a);
    OneData(k, 1, 66);
    var back := Step(k, HeaderFault);
    assert back.now == k.saved && back.lastN == 0 && back.line == k.line && !back.done by {
      FaultUndoes(k);
    }
    OneData(back, 1, 66);
    assert [a, b][1..] == [b] && [a, HeaderFault, b][1..] == [HeaderFault, b] && [HeaderFault, b][1..] == [b];
    assert Run(k, [b]) == Run(Step(k, b), []);
    assert Run(k, [HeaderFault, b]) == Run(back, [b]) == Run(Step(back, b), []);
    assert [] + [65] == [65] && [] + [66] == [66] && [65] + [66] == [65, 66];
  }

  /** The text that the data packets carry, each once. */
  function Payload(gs: seq<Group>): seq<byte> {
    if gs == [] then [] else (if gs[0].kind == DATA_TYPE then gs[0].data else []) + Payload(gs[1..])
  }

  lemma {:induction false} DeliverPayload(r: Result, gs: seq<Group>)
    requires forall i :: 0 <= i < |gs| ==> gs[i].kind != SEND_TYPE
    ensures Deliver(r, gs) == r.(d := Decode(r.d, r.line.quote, Payload(gs)))
    decreases |gs|
  {
    hide Decode;
    if gs == [] {
      DecodeNothing(r.d, r.line.quote);
    } else {
      DeliverPayload(Effect(r, gs[0]), gs[1..]);
      DecodeSplit(r.d, r.line.quote, if gs[0].kind == DATA_TYPE then gs[0].data else [], Payload(gs[1..]));
      DecodeNothing(r.d, r.line.quote);
    }
  }

  /** A session: send-init, then packets whose data spell the encoded file, cut
      anywhere. Whatever is repeated or damaged on the way, the file arrives. */
  lemma {:induction false} FileArrives(init: Group, gs: seq<Group>, quote: byte, file: seq<byte>)
    requires ValidGroups([init] + gs) && init.kind == SEND_TYPE
    requires forall i :: 0 <= i < |gs| ==> gs[i].kind != SEND_TYPE
    requires if |init.data| > 5 then init.data[5] == quote else quote == '#' as byte
    requires LegalQuote(quote) && Payload(gs) == Encode(quote, file)
    ensures Run(INITIAL, Arrivals([init] + gs)).now == Decoded(file, false)
    ensures Run(INITIAL, Arrivals([init] + gs)).done <==> gs != [] && gs[|gs| - 1].kind == BREAK_TYPE
  {
    hide Decode, Encode, LegalQuote, Step, SendInitLine;
    AskedQuote(init.data, quote);
    var all := [init] + gs;
    assert all[1..] == gs;
    ExactlyOnce(INITIAL, all);
    var r := Result(Decoded([], false), SendInitLine(init.data));
    assert Deliver(Result(INITIAL.now, INITIAL.line), all) == Deliver(r, gs);
    DeliverPayload(r, gs);
    EncodeRoundTrip(r.d, quote, file);
    assert [] + file == file;
  }

  // ---- byte streams

  datatype Outcome = Finished | Aborted | Blocked

  /** k_recv on a finite input: it is finished by a BREAK packet, aborted by ^C
      between packets, or waits for more, perhaps inside a packet. */
  function Receive(k: State, s: seq<byte>): (State, Outcome)
    decreases |s|
  {
    if k.done then (k, Finished)
    else if s == [] then (k, Blocked)
    else if s[0] == ETX_CHAR then (k, Aborted)
    else if s[0] != START_CHAR then Receive(k, s[1..])
    else
      match ScanPacket(s[1..])
      case Waiting => (Pending(k, s[1..]), Blocked)
      case Got(a, used) => Receive(Step(k, a), s[1 + used..])
  }

  predicate Noise(s: seq<byte>) {
    START_CHAR !in s && ETX_CHAR !in s
  }

  /** An arrival on the line: noise, START, and bytes that the receiver reads up to its verdict. */
  datatype Burst = Burst(noise: seq<byte>, bytes: seq<byte>)

  ghost predicate Carries(b: Burst, a: Arrival) {
    Noise(b.noise) && ScanPacket(b.bytes) == Got(a, |b.bytes|)
  }

  function Stream(bs: seq<Burst>): seq<byte> {
    if bs == [] then [] else bs[0].noise + [START_CHAR] + bs[0].bytes + Stream(bs[1..])
  }

  lemma {:induction false} SkipNoise(k: State, noise: seq<byte>, s: seq<byte>)
    requires Noise(noise) && !k.done
    ensures Receive(k, noise + s) == Receive(k, s)
  {
    hide ScanPacket, Step;
    if noise == [] {
      assert noise + s == s;
    } else {
      assert (noise + s)[1..] == noise[1..] + s;
      SkipNoise(k, noise[1..], s);
    }
  }

  lemma {:induction false} BurstStep(k: State, b: Burst, a: Arrival, s: seq<byte>)
    requires Carries(b, a) && !k.done
    ensures Receive(k, b.noise + [START_CHAR] + b.bytes + s) == Receive(Step(k, a), s)
  {
    hide ScanPacket, Step;
    var t := [START_CHAR] + b.bytes + s;
    assert b.noise + [START_CHAR] + b.bytes + s == b.noise + t;
    SkipNoise(k, b.noise, t);
    assert t[1..] == b.bytes + s;
    ScanLocal(b.bytes, s);
    assert t[1 + |b.bytes|..] == s;
  }

  /** The bytes of a stream have the effect of the arrivals that they carry. */
  lemma {:induction false} StreamRun(k: State, bs: seq<Burst>, arrivals: seq<Arrival>, rest: seq<byte>)
    requires |bs| == |arrivals| && forall i :: 0 <= i < |bs| ==> Carries(bs[i], arrivals[i])
    ensures Receive(k, Stream(bs) + rest) == Receive(Run(k, arrivals), rest)
    decreases |bs|
  {
    hide ScanPacket, Step, Carries, Pending;
    if k.done {
    } else if bs == [] {
      assert [] + rest == rest;
    } else {
      var first, more := bs[0].noise + [START_CHAR] + bs[0].bytes, Stream(bs[1..]);
      assert first + more + rest == first + (more + rest);
      BurstStep(k, bs[0], arrivals[0], more + rest);
      StreamRun(Step(k, arrivals[0]), bs[1..], arrivals[1..], rest);
    }
  }

  lemma NothingMore(k: State)
    ensures Receive(k, []).0 == k && (k.done ==> forall rest :: Receive(k, rest) == (k, Finished))
  {
  }

  /** The same session on the line: whatever bytes carry the arrivals, with any noise
      between them, the file is in memory when they have been read; a BREAK packet at the
      end finishes the download, whatever comes behind it. */
  lemma {:induction false} FileReceived(init: Group, gs: seq<Group>, quote: byte, file: seq<byte>,
                                        bs: seq<Burst>, rest: seq<byte>)
    requires ValidGroups([init] + gs) && init.kind == SEND_TYPE
    requires forall i :: 0 <= i < |gs| ==> gs[i].kind != SEND_TYPE
    requires if |init.data| > 5 then init.data[5] == quote else quote == '#' as byte
    requires LegalQuote(quote) && Payload(gs) == Encode(quote, file)
    requires |bs| == |Arrivals([init] + gs)| && forall i :: 0 <= i < |bs| ==> Carries(bs[i], Arrivals([init] + gs)[i])
    ensures Receive(INITIAL, Stream(bs)).0.now == Decoded(file, false)
    ensures gs != [] && gs[|gs| - 1].kind == BREAK_TYPE ==>
              var (k, outcome) := Receive(INITIAL, Stream(bs) + rest);
              outcome == Finished && k.now == Decoded(file, false)
  {
    hide Carries, Run, Encode, LegalQuote, ValidGroups, Arrivals;
    var k := Run(INITIAL, Arrivals([init] + gs));
    FileArrives(init, gs, quote, file);
    StreamRun(INITIAL, bs, Arrivals([init] + gs), []);
    StreamRun(INITIAL, bs, Arrivals([init] + gs), rest);
    assert Stream(bs) + [] == Stream(bs);
    NothingMore(k);
    hide Receive;
  }

  lemma BodyLayout(n: byte, kind: byte, data: seq<byte>)
    requires n < 224 && |data| + 3 < 224
    ensures var s := Body(n, kind, data) + [END_CHAR];
            var q := 3 + |data|;
            && |s| == q + 2 == |Body(n, kind, data)| + 1 && s[0] == ToChar(|data| + 3)
            && s[1] == ToChar(n) && s[2] == kind
            && s[3..q] == data && s[q] == Check1(Sum(s[..q])) && s[q + 1] == END_CHAR
  {
    hide Sum, Check1, ToChar;
    var head := [ToChar(|data| + 3), ToChar(n), kind] + data;
    var s := Body(n, kind, data) + [END_CHAR];
    assert s[..3 + |data|] == head;
  }

  lemma CheckIsPrintable(sum: nat)
    ensures Printable(Check1(sum))
  {
  }

  lemma {:induction false} DataEndAll(s: seq<byte>, p: nat, count: nat)
    requires p + count <= |s| && forall i :: p <= i < p + count ==> Printable(s[i])
    ensures DataEnd(s, p, count) == p + count
    decreases count
  {
    if count > 0 {
      DataEndAll(s, p + 1, count - 1);
    }
  }

  /** Data, block check and end character behind a header of p bytes. */
  lemma RestScans(s: seq<byte>, p: nat, n: byte, kind: byte, data: seq<byte>)
    requires var q := p + |data|;
             |s| == q + 2 && s[p..q] == data && s[q] == Check1(Sum(s[..q])) && s[q + 1] == END_CHAR
    requires forall i :: 0 <= i < |data| ==> Printable(data[i])
    ensures ScanRest(s, n, kind, p, |data|) == Got(Intact(n, kind, data), |s|)
  {
    hide Sum, Check1;
    forall i | p <= i < p + |data| ensures Printable(s[i]) {
      assert s[i] == s[p..p + |data|][i - p];
    }
    CheckIsPrintable(Sum(s[..p + |data|]));
    DataEndAll(s, p, |data|);
  }

  lemma BodyScans(s: seq<byte>, n: byte, kind: byte, data: seq<byte>)
    requires var q := 3 + |data|;
             |s| == q + 2 && s[3..q] == data && s[q] == Check1(Sum(s[..q])) && s[q + 1] == END_CHAR
    requires forall i :: 0 <= i < |data| ==> Printable(data[i])
    ensures ScanRest(s, n, kind, 3, |data|) == Got(Intact(n, kind, data), |s|)
  {
    RestScans(s, 3, n, kind, data);
  }

  /** A packet of the sender, with its end character, is read as itself. */
  lemma {:induction false} PacketScans(n: byte, kind: byte, data: seq<byte>)
    requires n < 224 && Printable(kind) && |data| + 3 < 224
    requires forall i :: 0 <= i < |data| ==> Printable(data[i])
    ensures ScanPacket(Body(n, kind, data) + [END_CHAR]) == Got(Intact(n, kind, data), |Body(n, kind, data)| + 1)
  {
    hide ScanRest, Body;
    var s := Body(n, kind, data) + [END_CHAR];
    BodyLayout(n, kind, data);
    BodyScans(s, n, kind, data);
  }

  /** A sender's packet of extended length: a zero length byte, two length bytes that
      count the data and the block check, and a check of the header. */
  function LongHeader(n: byte, kind: byte, count: nat): seq<byte> {
    [ToChar(0), ToChar(n), kind, ToChar((count + 1) / 95), ToChar((count + 1) % 95)]
  }

  function LongBody(n: byte, kind: byte, data: seq<byte>): seq<byte> {
    var header := LongHeader(n, kind, |data|);
    var head := header + [Check1(Sum(header))] + data;
    head + [Check1(Sum(head))]
  }

  lemma LongLayout(n: byte, kind: byte, data: seq<byte>)
    ensures var s := LongBody(n, kind, data) + [END_CHAR];
            var q := 6 + |data|;
            && |s| == q + 2 == |LongBody(n, kind, data)| + 1 && s[..5] == LongHeader(n, kind, |data|)
            && s[5] == Check1(Sum(s[..5])) && s[6..q] == data && s[q] == Check1(Sum(s[..q])) && s[q + 1] == END_CHAR
  {
    hide Sum, Check1, ToChar;
    var header := LongHeader(n, kind, |data|);
    var head := header + [Check1(Sum(header))] + data;
    var s := LongBody(n, kind, data) + [END_CHAR];
    assert s[..5] == header;
    assert s[..6 + |data|] == head;
  }

  lemma HeaderIs(s: seq<byte>, n: byte, kind: byte, count: nat)
    requires |s| >= 5 && s[..5] == LongHeader(n, kind, count)
    ensures s[0] == ToChar(0) && s[1] == ToChar(n) && s[2] == kind
    ensures s[3] == ToChar((count + 1) / 95) && s[4] == ToChar((count + 1) % 95)
  {
    hide ToChar;
    var h := s[..5];
    assert h[0] == s[0] && h[1] == s[1] && h[2] == s[2] && h[3] == s[3] && h[4] == s[4];
  }

  lemma NumberBack(n: byte)
    requires n < 224
    ensures UnToChar(ToChar(n)) == n
  {
  }

  lemma LongLength(count: nat)
    requires (count + 1) / 95 < 224
    ensures UnToChar(ToChar((count + 1) / 95)) * 95 + UnToChar(ToChar((count + 1) % 95)) == count + 1
  {
  }

  lemma HeaderIsPrintable(n: byte, count: nat)
    requires n < 224 && (count + 1) / 95 < 224
    ensures Printable(ToChar(0)) && UnToChar(ToChar(0)) == 0 && Printable(ToChar(n))
    ensures Printable(ToChar((count + 1) / 95)) && Printable(ToChar((count + 1) % 95))
  {
  }

  /** The header of an extended packet leads to its data. */
  lemma LongScans(s: seq<byte>, n: byte, kind: byte, count: nat)
    requires n < 224 && Printable(kind) && (count + 1) / 95 < 224 && |s| > 6
    requires s[..5] == LongHeader(n, kind, count) && s[5] == Check1(Sum(s[..5])) && Printable(s[5])
    ensures ScanPacket(s) == ScanRest(s, n, kind, 6, count)
  {
    hide ScanRest, Sum, Check1, LongHeader, ToChar, UnToChar, Printable;
    HeaderIs(s, n, kind, count);
    HeaderIsPrintable(n, count);
    NumberBack(n);
    LongLength(count);
  }

  /** A packet of extended length is read as itself, too. */
  lemma LongPacketScans(n: byte, kind: byte, data: seq<byte>)
    requires n < 224 && Printable(kind) && (|data| + 1) / 95 < 224
    requires forall i :: 0 <= i < |data| ==> Printable(data[i])
    ensures ScanPacket(LongBody(n, kind, data) + [END_CHAR])
            == Got(Intact(n, kind, data), |LongBody(n, kind, data)| + 1)
  {
    hide ScanRest, LongBody, Sum, Check1;
    var s := LongBody(n, kind, data) + [END_CHAR];
    LongLayout(n, kind, data);
    CheckIsPrintable(Sum(s[..5]));
    RestScans(s, 6, n, kind, data);
    LongScans(s, n, kind, |data|);
  }

  /** An answer that passes the receiver's own length and block check. */
  ghost predicate GoodReply(p: seq<byte>) {
    exists line, n, kind, data :: Passes(p, line, n, kind, data)
  }

  ghost predicate Passes(p: seq<byte>, line: Line, n: byte, kind: byte, data: seq<byte>) {
    && p == Reply(line, n, kind, data)
    && ScanPacket(Body(n, kind, data) + [END_CHAR]) == Got(Intact(n, kind, data), |Body(n, kind, data)| + 1)
  }

  ghost predicate RepliesOk(k: State) {
    k.n < 224 && forall i :: 0 <= i < |k.sent| ==> GoodReply(k.sent[i])
  }

  lemma ReplyPasses(line: Line, n: byte, kind: byte, data: seq<byte>)
    requires n < 224 && (kind == ACK_TYPE || kind == NACK_TYPE) && |data| <= 13
    requires forall i :: 0 <= i < |data| ==> Printable(data[i])
    ensures GoodReply(Reply(line, n, kind, data))
  {
    hide ScanPacket, Reply, Body;
    PacketScans(n, kind, data);
    assert Passes(Reply(line, n, kind, data), line, n, kind, data);
  }

  lemma StepReplies(k: State, a: Arrival)
    requires RepliesOk(k) && (a.HeaderFault? || a.n < 224)
    ensures RepliesOk(Step(k, a))
  {
    hide GoodReply, Reply, Decode, SendInitLine, InitReply;
    var n := if a.HeaderFault? then k.n else a.n;
    ReplyPasses(k.line, n, NACK_TYPE, []);
    ReplyPasses(k.line, n, ACK_TYPE, []);
    if a.Intact? {
      ReplyPasses(SendInitLine(a.data), n, ACK_TYPE, InitReply(ParmCount(a.data)));
    }
  }

  /** Sequence numbers read from the line are in the range that a reply can repeat. */
  lemma ScannedNumber(s: seq<byte>)
    ensures var r := ScanPacket(s); r.Got? && !r.arrival.HeaderFault? ==> r.arrival.n < 224
    ensures ScanPacket(s).Waiting? && |s| >= 2 ==> UnToChar(s[1]) < 224
  {
    hide DataEnd, Sum, Check1;
  }

  lemma PendingReplies(k: State, s: seq<byte>)
    requires RepliesOk(k) && (|s| >= 2 ==> UnToChar(s[1]) < 224)
    ensures RepliesOk(Pending(k, s))
  {
    hide GoodReply, Decode, DataEnd, UnToChar;
  }

  /** On every input, every ACK, NACK and parameter reply passes the receiver's own checks. */
  lemma {:induction false} AllRepliesPass(k: State, s: seq<byte>)
    requires RepliesOk(k)
    ensures RepliesOk(Receive(k, s).0)
    decreases |s|
  {
    hide ScanPacket, Step, RepliesOk;
    if !k.done && s != [] && s[0] != ETX_CHAR {
      if s[0] != START_CHAR {
        AllRepliesPass(k, s[1..]);
      } else {
        var r := ScanPacket(s[1..]);
        ScannedNumber(s[1..]);
        if r.Got? {
          StepReplies(k, r.arrival);
          AllRepliesPass(Step(k, r.arrival), s[1 + r.used..]);
        } else {
          PendingReplies(k, s[1..]);
        }
      }
    }
  }

}
