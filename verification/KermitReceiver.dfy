/** k_recv of cmd_load.c with its global state, reading from a finite input.

    Memory from bin_start_address on is the sequence `memory`; os_data_addr is
    an index into it. Bytes are stored as they arrive, before their block check
    is known.
  */
module KermitReceiver {
  import opened Words
  import opened Kermit
  import opened KermitDelivery

  /** getc at the end of the input means that the receiver waits. */
  datatype Read<+T> = NoInput | Char(value: T) {
    predicate IsFailure() {
      NoInput?
    }

    function PropagateFailure<U>(): Read<U>
      requires NoInput?
    {
      NoInput
    }

    function Extract(): T
      requires Char?
    {
      value
    }
  }

  datatype Verdict = Verdict(ok: bool, kind: byte, parms: seq<byte>)

  /** Parameters that fit into the buffer: the twentieth and later ones replace each other. */
  function Stored(data: seq<byte>): seq<byte> {
    data[..if |data| < 19 then |data| else 19]
  }

  /** The parameter buffer keeps all that is looked at. */
  lemma SameLine(data: seq<byte>)
    ensures SendInitLine(Stored(data)) == SendInitLine(data) && ParmCount(Stored(data)) == ParmCount(data)
  {
  }

  lemma SumStart(s: seq<byte>)
    ensures Sum(s[..0]) == 0
  {
  }

  lemma NothingAbsorbed(k: State, kind: byte)
    ensures Absorb(k, kind, []) == k
  {
  }

  lemma StoredNothing()
    ensures Stored([]) == []
  {
  }

  lemma StoredMore(s: seq<byte>, at: nat, i: nat)
    requires at <= i < |s|
    ensures var parms := Stored(s[at..i]);
            Stored(s[at..i + 1]) == if |parms| < 19 then parms + [s[i]] else parms
  {
  }

  lemma DataEndStep(s: seq<byte>, p: nat, count: nat)
    requires p <= |s|
    ensures DataEnd(s, p, count)
            == if count > 0 && p < |s| && Printable(s[p]) then DataEnd(s, p + 1, count - 1) else p
  {
  }

  /** One more character of the data. */
  lemma OneMore(k: State, kind: byte, s: seq<byte>, at: nat, i: nat)
    requires at <= i < |s|
    ensures Sum(s[..i + 1]) == Sum(s[..i]) + s[i]
    ensures s[at..i + 1] == s[at..i] + [s[i]]
    ensures Absorb(k, kind, s[at..i + 1])
            == if kind == DATA_TYPE then
                 Absorb(k, kind, s[at..i]).(now := DecodeChar(Absorb(k, kind, s[at..i]).now, k.line.quote, s[i]))
               else Absorb(k, kind, s[at..i])
    ensures Absorb(k, kind, s[at..i]).line == k.line
  {
    hide DecodeChar;
    assert s[..i + 1][..i] == s[..i];
    assert s[at..i + 1][..i - at] == s[at..i];
  }

  class Receiver {
    const input: seq<byte>
    var pos: nat
    // memory and the os_data_* state
    var memory: seq<byte>
    var addr: nat
    var addrSaved: nat
    // the k_data_* state
    var escape: bool
    var escapeSaved: bool
    // the packet state
    var line: Line
    var lastN: int
    var n: byte
    var sent: seq<seq<byte>>
    var done: bool

    ghost predicate Ordered()
      reads this`memory, this`addr, this`addrSaved
    {
      addrSaved <= addr <= |memory|
    }

    ghost predicate Valid()
      reads this`memory, this`addr, this`addrSaved, this`pos
    {
      Ordered() && pos <= |input|
    }

    ghost function Abstract(): State
      requires Ordered()
      reads this`memory, this`addr, this`addrSaved, this`escape, this`escapeSaved, this`lastN, this`n, this`line
      reads this`sent, this`done
    {
      State(Decoded(memory[..addr], escape), Decoded(memory[..addrSaved], escapeSaved), lastN, n, line, sent, done)
    }

    constructor (input: seq<byte>)
      ensures Valid() && Abstract() == INITIAL && pos == 0 && this.input == input
    {
      this.input := input;
      pos, memory, addr, addrSaved := 0, [], 0, 0;
      escape, escapeSaved, line := false, false, DEFAULT_LINE;
      lastN, n, sent, done := -1, 0, [], false;
    }

    lemma LineIs()
      requires Ordered()
      ensures Abstract().line == line && Abstract().n == n && Abstract().lastN == lastN && Abstract().done == done
    {
    }

    method GetC() returns (r: Read<byte>)
      requires Valid()
      modifies this`pos
      ensures Valid() && pos == old(pos) + (if r.Char? then 1 else 0)
      ensures r == if old(pos) < |input| then Char(input[old(pos)]) else NoInput
    {
      if pos == |input| {
        return NoInput;
      }
      pos := pos + 1;
      r := Char(input[pos - 1]);
    }

    method BinDataChar(c: byte)
      requires Valid()
      modifies this`memory, this`addr
      ensures Valid() && memory[..addr] == old(memory[..addr]) + [c]
      ensures addr == old(addr) + 1
      // nothing below os_data_addr changes
      ensures memory[..old(addr)] == old(memory[..addr])
    {
      memory := if addr < |memory| then memory[addr := c] else memory + [c];
      addr := addr + 1;
    }

    method KDataSave()
      requires Valid()
      modifies this`addrSaved, this`escapeSaved
      ensures Valid() && Abstract() == old(Abstract()).(saved := old(Abstract()).now)
    {
      escapeSaved := escape;
      addrSaved := addr;
    }

    method KDataRestore()
      requires Valid()
      modifies this`addr, this`escape
      ensures Valid() && Abstract() == old(Abstract()).(now := old(Abstract()).saved)
    {
      escape := escapeSaved;
      addr := addrSaved;
    }

    method KDataChar(c: byte)
      requires Valid()
      modifies this`memory, this`addr, this`escape
      ensures Valid()
      ensures Abstract() == old(Abstract()).(now := DecodeChar(old(Abstract()).now, line.quote, c))
    {
      hide KTrans;
      ghost var low := memory[..addrSaved];
      if escape {
        BinDataChar(KTrans(c));
        escape := false;
      } else if c == line.quote {
        escape := true;
      } else {
        BinDataChar(c);
      }
      assert memory[..addrSaved] == low;
    }

    /** What GetPacket has found out: the verdict, the type and the stored parameters, or that it waits. */
    ghost predicate Reports(before: State, pending: State, start: nat, scan: Scan, r: Read<Verdict>)
      requires Valid()
      reads this
    {
      match scan
      case Waiting => r.NoInput? && Abstract() == pending
      case Got(a, used) =>
        && r.Char? && pos == start + used && r.value.ok == a.Intact?
        && match a
           case HeaderFault => Abstract() == before
           case Damaged(n, kind, data) => Abstract() == Absorb(Checkpoint(before, n), kind, data)
           case Intact(n, kind, data) =>
             && Abstract() == Absorb(Checkpoint(before, n), kind, data) && r.value.kind == kind
             && (kind == SEND_TYPE ==> r.value.parms == Stored(data))
    }

    /** Where a data character goes: to memory, to the send-init parameters or nowhere. */
    method Distribute(kind: byte, c: byte, parms: seq<byte>) returns (r: seq<byte>)
      requires Valid()
      modifies this`memory, this`addr, this`escape
      ensures Valid()
      ensures Abstract() == if kind == DATA_TYPE then
                              old(Abstract()).(now := DecodeChar(old(Abstract()).now, line.quote, c))
                            else old(Abstract())
      ensures r == if kind == SEND_TYPE && |parms| < 19 then parms + [c] else parms
    {
      r := parms;
      if kind == DATA_TYPE {
        KDataChar(c);
      } else if kind == SEND_TYPE {
        r := if |parms| < 19 then parms + [c] else parms;
      }
    }

    /** The data loop: at most count characters, handed on as they come. */
    method GetData(kind: byte, count: nat, sum0: nat, ghost start: nat, ghost at: nat)
      returns (r: Read<Verdict>, sum: nat)
      requires Valid() && start + at == pos && sum0 == Sum(input[start..pos])
      modifies this`pos, this`memory, this`addr, this`escape
      ensures Valid()
      ensures var s := input[start..];
              var q := DataEnd(s, at, count);
              && (r.NoInput? <==> q == |s| && q < at + count)
              && Abstract() == Absorb(old(Abstract()), kind, s[at..q])
              && (r.Char? ==>
                    && r.value.kind == kind && (r.value.ok <==> q == at + count)
                    && pos == start + q + (if r.value.ok then 0 else 1)
                    && sum == Sum(s[..q])
                    && (kind == SEND_TYPE ==> r.value.parms == Stored(s[at..q])))
    {
      hide Sum, Decode, DecodeChar, Stored, Absorb, DataEnd, Receiver.Abstract;
      LineIs();
      ghost var s, base := input[start..], Abstract();
      var length, parms := count, [];
      sum := sum0;
      NothingAbsorbed(base, kind);
      StoredNothing();
      assert s[at..at] == [] && input[start..pos] == s[..at];
      ghost var i := at;
      while length > 0
        invariant Valid() && at <= i <= |s| && pos == start + i && i + length == at + count
        invariant DataEnd(s, i, length) == DataEnd(s, at, count)
        invariant sum == Sum(s[..i]) && Abstract() == Absorb(base, kind, s[at..i])
        invariant kind == SEND_TYPE ==> parms == Stored(s[at..i])
      {
        var c :- GetC();
        if !Printable(c) {
          return Char(Verdict(false, kind, parms)), sum;
        }
        OneMore(base, kind, s, at, i);
        StoredMore(s, at, i);
        DataEndStep(s, i, length);
        sum := sum + c as nat;
        length := length - 1;
        parms := Distribute(kind, c, parms);
        i := i + 1;
      }
      return Char(Verdict(true, kind, parms)), sum;
    }

    /** Data, block check and end character; sum0 covers everything before the data. */
    method GetRest(kind: byte, count: nat, sum0: nat, ghost before: State, ghost start: nat, ghost at: nat)
      returns (r: Read<Verdict>)
      requires Valid() && start + at == pos
      requires sum0 == Sum(input[start..pos]) && Abstract() == Checkpoint(before, n)
      modifies this`pos, this`memory, this`addr, this`escape
      ensures Valid()
      ensures var s := input[start..];
              Reports(before, PendingRest(Checkpoint(before, n), s, kind, at, count), start,
                      ScanRest(s, n, kind, at, count), r)
    {
      hide Sum, Check1, Checkpoint, Decode, DataEnd;
      var sum;
      r, sum := GetData(kind, count, sum0, start, at);
      if r.NoInput? || !r.value.ok {
        return;
      }
      var parms := r.value.parms;
      r := Char(Verdict(false, kind, parms));
      var check := GetC();
      if check.NoInput? {
        return NoInput;
      }
      if !Printable(check.value) || check.value != Check1(sum) {
        return;
      }
      var end := GetC();
      if end.NoInput? {
        return NoInput;
      }
      return Char(Verdict(end.value == END_CHAR, kind, parms));
    }

    /** A packet of extended length: two length bytes and a header check follow the type. */
    method GetLong(kind: byte, sum0: nat, ghost before: State, ghost start: nat) returns (r: Read<Verdict>)
      requires Valid() && start + 3 == pos
      requires sum0 == Sum(input[start..pos]) && Abstract() == Checkpoint(before, n)
      modifies this`pos, this`memory, this`addr, this`escape
      ensures Valid()
      ensures var s := input[start..];
              Reports(before, PendingLong(Checkpoint(before, n), s, kind), start, ScanLong(s, n, kind), r)
    {
      hide Sum, Check1, Checkpoint, Decode, DecodeChar, ScanRest, Receiver.Abstract;
      ghost var s := input[start..];
      assert input[start..pos] == s[..3];
      NothingAbsorbed(Abstract(), kind);
      var sum: nat := sum0;
      var bad := Char(Verdict(false, kind, []));
      var hi :- GetC();
      if !Printable(hi) {
        return bad;
      }
      OneMore(before, kind, s, 3, 3);
      sum := sum + hi as nat;
      var lo :- GetC();
      if !Printable(lo) {
        return bad;
      }
      OneMore(before, kind, s, 3, 4);
      sum := sum + lo as nat;
      var check :- GetC();
      if !Printable(check) || check != Check1(sum) {
        return bad;
      }
      OneMore(before, kind, s, 3, 5);
      sum := sum + check as nat;
      var length := UnToChar(hi) * 95 + UnToChar(lo);
      assert input[start..pos] == s[..6];
      r := GetRest(kind, if length > 1 then length - 1 else 0, sum, before, start, 6);
    }

    /** Type, length and the rest, behind the sequence number. */
    method GetTyped(length0: int, sum0: nat, ghost before: State, ghost start: nat) returns (r: Read<Verdict>)
      requires Valid() && start + 2 == pos && length0 == UnToChar(input[start]) - 1
      requires Printable(input[start]) && Printable(input[start + 1]) && n == UnToChar(input[start + 1])
      requires sum0 == Sum(input[start..pos]) && Abstract() == Checkpoint(before, n)
      modifies this`pos, this`memory, this`addr, this`escape
      ensures Valid()
      ensures Reports(before, Pending(before, input[start..]), start, ScanPacket(input[start..]), r)
    {
      hide Sum, Check1, Decode, DecodeChar, ScanRest, ScanLong, Checkpoint, PendingRest, PendingLong, Absorb, UnToChar;
      ghost var s := input[start..];
      assert input[start..pos] == s[..2] && s[0] == input[start] && s[1] == input[start + 1];
      NothingAbsorbed(Abstract(), 0);
      var kind :- GetC();
      if !Printable(kind) {
        return Char(Verdict(false, 0, []));
      }
      OneMore(before, 0, s, 0, 2);
      var sum: nat := sum0 + kind as nat;
      var length := length0 - 1;
      assert input[start..pos] == s[..3];
      if length == -2 {
        r := GetLong(kind, sum, before, start);
      } else {
        r := GetRest(kind, if length > 1 then length - 1 else 0, sum, before, start, 3);
      }
    }

    /** A repeated sequence number goes back to the checkpoint, a new one makes one. */
    method Number(number: byte)
      requires Valid()
      modifies this`addr, this`addrSaved, this`escape, this`escapeSaved, this`n, this`lastN
      ensures Valid() && Abstract() == Checkpoint(old(Abstract()), number) && n == number
    {
      n := number;
      if n == lastN {
        KDataRestore();
      } else {
        lastN := n;
        KDataSave();
      }
    }

    /** Everything behind a START character. The checkpoint is made or restored as
        soon as the sequence number is known. */
    method GetPacket() returns (r: Read<Verdict>)
      requires Valid()
      modifies this`pos, this`memory, this`addr, this`addrSaved, this`escape, this`escapeSaved, this`n, this`lastN
      ensures Valid()
      ensures var s := input[old(pos)..];
              Reports(old(Abstract()), Pending(old(Abstract()), s), old(pos), ScanPacket(s), r)
    {
      hide Sum, Check1, ScanRest, ScanLong, Checkpoint, PendingRest, PendingLong, Absorb, UnToChar;
      ghost var before, start := Abstract(), pos;
      ghost var s := input[start..];
      var bad := Char(Verdict(false, 0, []));
      SumStart(s);
      var c :- GetC();
      if !Printable(c) {
        return bad;
      }
      OneMore(before, 0, s, 0, 0);
      var sum: nat := c as nat;
      var length: int := UnToChar(c) as int;
      c :- GetC();
      if !Printable(c) {
        return bad;
      }
      OneMore(before, 0, s, 0, 1);
      sum := sum + c as nat;
      Number(UnToChar(c));
      assert input[start..pos] == s[..2];
      r := GetTyped(length - 1, sum, before, start);
    }

    /** What happens behind a packet: roll back and NACK, or answer the parameters, or ACK. */
    method Answer(v: Verdict)
      requires Valid()
      modifies this`addr, this`escape, this`line, this`sent, this`done
      ensures Valid()
      ensures !v.ok ==> Abstract() == Reject(old(Abstract()))
      ensures v.ok ==> Abstract() == Accept(old(Abstract()), v.kind, v.parms)
    {
      hide Reply, InitReply;
      if !v.ok {
        KDataRestore();
        sent := sent + [Reply(line, n, NACK_TYPE, [])];
      } else if v.kind == SEND_TYPE {
        line := SendInitLine(v.parms);
        sent := sent + [Reply(line, n, ACK_TYPE, InitReply(ParmCount(v.parms)))];
      } else {
        sent := sent + [Reply(line, n, ACK_TYPE, [])];
        if v.kind == BREAK_TYPE {
          done := true;
        }
      }
    }

    /** A report is enough to complete the step of the arrival. */
    lemma Verdicts(before: State, s: seq<byte>, start: nat, r: Read<Verdict>)
      requires Valid() && Reports(before, Pending(before, s), start, ScanPacket(s), r)
      ensures r.NoInput? <==> ScanPacket(s).Waiting?
      ensures r.NoInput? ==> Abstract() == Pending(before, s)
      ensures r.Char? ==>
                var Got(a, used) := ScanPacket(s);
                && pos == start + used > start
                && Step(before, a) == if r.value.ok then Accept(Abstract(), r.value.kind, r.value.parms)
                                      else Reject(Abstract())
    {
      hide ScanPacket, Pending, Decode, Reply, InitReply, Checkpoint;
      var scan := ScanPacket(s);
      if scan.Got? && scan.arrival.Intact? && scan.arrival.kind == SEND_TYPE {
        SameLine(scan.arrival.data);
      }
    }

    /** The receive loop. Its state and outcome are those of KermitDelivery.Receive, also where it waits
        inside a packet, and the result is the number of bytes delivered. */
    method KRecv() returns (outcome: Outcome, size: nat)
      requires Valid()
      modifies this
      ensures Valid()
      ensures (Abstract(), outcome) == Receive(old(Abstract()), input[old(pos)..])
      ensures size == if outcome == Finished then |Abstract().now.out| else 0
    {
      hide ScanPacket, Reports, Step, Pending, Accept, Reject;
      ghost var all := Receive(Abstract(), input[pos..]);
      while !done
        invariant Valid() && Receive(Abstract(), input[pos..]) == all
        decreases |input| - pos
      {
        var c := GetC();
        if c.NoInput? {
          return Blocked, 0;
        }
        ghost var s := input[pos - 1..];
        assert s[1..] == input[pos..];
        if c.value == ETX_CHAR {
          return Aborted, 0;
        }
        if c.value == START_CHAR {
          ghost var before, start := Abstract(), pos;
          var v := GetPacket();
          Verdicts(before, input[start..], start, v);
          if v.NoInput? {
            return Blocked, 0;
          }
          Answer(v.value);
          assert input[start..][pos - start..] == input[pos..];
          assert s[1 + (pos - start)..] == input[pos..];
        }
      }
      return Finished, addr;
    }
  }
}
