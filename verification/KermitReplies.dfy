/** What the Kermit receiver answers, reply by reply. */
module KermitReplies {
  import opened Words
  import opened Kermit
  import opened KermitDelivery

  /** A reply as the sender of the line asked for it: padding, START, the packet, and the end of line
      unless that is NUL. */
  ghost predicate Framed(reply: seq<byte>, line: Line, packet: seq<byte>) {
    var pad, end := line.padCount, if line.eol == 0 then 0 else 1;
    && |reply| == pad + 1 + |packet| + end
    && (forall i :: 0 <= i < pad ==> reply[i] == line.padChar)
    && reply[pad] == START_CHAR && reply[pad + 1..pad + 1 + |packet|] == packet
    && (line.eol != 0 ==> reply[|reply| - 1] == line.eol)
  }

  lemma ReplyIsFramed(line: Line, n: byte, kind: byte, data: seq<byte>)
    ensures Framed(Reply(line, n, kind, data), line, Body(n, kind, data))
  {
    hide Body;
    var pad := seq(line.padCount, _ => line.padChar);
    var reply, packet := Reply(line, n, kind, data), Body(n, kind, data);
    assert reply == pad + [START_CHAR] + packet + if line.eol == 0 then [] else [line.eol];
    assert reply[line.padCount + 1..line.padCount + 1 + |packet|] == packet;
  }

  /** The reply to an arrival: an intact packet is acknowledged, with parameters if it brought some, and
      anything else is not; the number is that of the packet if it could be read. */
  ghost predicate Answers(reply: seq<byte>, line: Line, a: Arrival, last: byte) {
    match a
    case HeaderFault => Framed(reply, line, Body(last, 'N' as byte, []))
    case Damaged(n, _, _) => Framed(reply, line, Body(n, 'N' as byte, []))
    case Intact(n, kind, data) =>
      Framed(reply, line, Body(n, 'Y' as byte, if kind == SEND_TYPE then InitReply(|data|) else []))
  }

  /** How many parameters there are, beyond the ten that are answered, makes no difference. */
  lemma CountOfMany(data: seq<byte>)
    ensures InitReply(ParmCount(data)) == InitReply(|data|)
  {
  }

  /** The line after an arrival. */
  function LineAfter(line: Line, a: Arrival): Line {
    if a.Intact? && a.kind == SEND_TYPE then SendInitLine(a.data) else line
  }

  lemma StepAnswers(k: State, a: Arrival)
    ensures var after := Step(k, a);
            && after.line == LineAfter(k.line, a)
            && |after.sent| == |k.sent| + 1 && after.sent[..|k.sent|] == k.sent
            && Answers(after.sent[|k.sent|], after.line, a, k.n)
  {
    hide Decode, Reply, InitReply, SendInitLine, Framed, Body;
    var n := if a.HeaderFault? then k.n else a.n;
    ReplyIsFramed(k.line, n, NACK_TYPE, []);
    ReplyIsFramed(k.line, n, ACK_TYPE, []);
    if a.Intact? {
      CountOfMany(a.data);
      ReplyIsFramed(SendInitLine(a.data), n, ACK_TYPE, InitReply(ParmCount(a.data)));
    }
  }

  /** The number that a faulty header is answered with: the last one that was read. */
  function LastNumber(n: byte, arrivals: seq<Arrival>): byte {
    if arrivals == [] then n
    else
      var a := arrivals[|arrivals| - 1];
      if a.HeaderFault? then LastNumber(n, arrivals[..|arrivals| - 1]) else a.n
  }

  ghost predicate Ends(a: Arrival) {
    a.Intact? && a.kind == BREAK_TYPE
  }

  /** Packets of a sender that keeps to one line: its parameters always ask for that line. */
  ghost predicate KeepsLine(line: Line, arrivals: seq<Arrival>) {
    forall i :: 0 <= i < |arrivals| && arrivals[i].Intact? && arrivals[i].kind == SEND_TYPE ==>
      Asks(arrivals[i].data, line)
  }

  lemma StepNumber(k: State, a: Arrival)
    ensures var after := Step(k, a);
            && after.n == (if a.HeaderFault? then k.n else a.n) && after.done == (k.done || Ends(a))
  {
    hide Decode, Reply, InitReply, SendInitLine;
  }

  lemma {:induction false} LastNumberTail(n: byte, arrivals: seq<Arrival>, first: byte)
    requires arrivals != [] && first == if arrivals[0].HeaderFault? then n else arrivals[0].n
    ensures LastNumber(n, arrivals) == LastNumber(first, arrivals[1..])
  {
    var m := |arrivals| - 1;
    if m > 0 {
      LastNumberTail(n, arrivals[..m], first);
      assert arrivals[..m][1..] == arrivals[1..][..m - 1];
    } else {
      assert arrivals[..0] == [];
    }
  }

  lemma {:induction false} RunKeepsSent(k: State, arrivals: seq<Arrival>)
    ensures k.sent <= Run(k, arrivals).sent
    decreases |arrivals|
  {
    hide Step, Answers, LineAfter;
    if arrivals != [] && !k.done {
      StepAnswers(k, arrivals[0]);
      RunKeepsSent(Step(k, arrivals[0]), arrivals[1..]);
    }
  }

  /** Until the transmission ends, every arrival is answered by one reply, in order, framed as the sender
      has asked for. */
  lemma {:induction false} EveryArrivalIsAnswered(k: State, line: Line, arrivals: seq<Arrival>, i: nat)
    requires !k.done && KeepsLine(line, arrivals) && i < |arrivals|
    requires forall j :: 0 <= j < |arrivals| - 1 ==> !Ends(arrivals[j])
    requires k.line == line || (arrivals[0].Intact? && arrivals[0].kind == SEND_TYPE)
    ensures var sent := Run(k, arrivals).sent;
            && |sent| == |k.sent| + |arrivals|
            && Answers(sent[|k.sent| + i], line, arrivals[i], LastNumber(k.n, arrivals[..i]))
    decreases |arrivals|
  {
    hide Step, Answers, Asks, SendInitLine;
    var a, after := arrivals[0], Step(k, arrivals[0]);
    StepAnswers(k, a);
    StepNumber(k, a);
    assert after.line == line by {
      if a.Intact? && a.kind == SEND_TYPE {
        AskedIsTaken(a.data, line);
      }
    }
    RunKeepsSent(after, arrivals[1..]);
    if |arrivals| == 1 {
      assert arrivals[1..] == [] && arrivals[..0] == [];
    } else {
      EveryArrivalIsAnswered(after, line, arrivals[1..], if i == 0 then 0 else i - 1);
      if i == 0 {
        assert arrivals[..0] == [];
      } else {
        LastNumberTail(k.n, arrivals[..i], after.n);
        assert arrivals[..i][1..] == arrivals[1..][..i - 1];
      }
    }
  }

  /** Read as a sender's parameters, the reply asks for no padding, CR and '#', whatever was sent. */
  lemma ReplyAsksForDefaults(n: nat)
    ensures Asks(InitReply(n), DEFAULT_LINE)
  {
  }

  /** The reply has as many fields as were sent, up to ten, and three more behind the tenth: packets of at most
      94 characters, no eighth-bit prefix, type 1 checks, no repeat counts, long packets up to 94 * 95 + 94 without
      windows. */
  lemma ReplyFields(n: nat)
    ensures var r := InitReply(n);
            && |r| == (if n < 10 then n else 13)
            && (n > 0 ==> UnToChar(r[0]) == 94) && (n > 1 ==> UnToChar(r[1]) == 1)
            && (n > 6 ==> r[6] == 'N' as byte) && (n > 7 ==> r[7] == '1' as byte) && (n > 8 ==> r[8] == 'N' as byte)
            && (n > 9 ==> UnToChar(r[9]) == 2 && UnToChar(r[10]) == 0
                          && UnToChar(r[11]) * 95 + UnToChar(r[12]) == 94 * 95 + 94)
  {
  }
}
