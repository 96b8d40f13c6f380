/** The commands that the floppy read of cmd_fdc.c issues, as a machine that is driven by the controller's answers. */
module FloppyProtocol {
  import opened Arithmetic
  import opened Floppy
  import opened Options
  import opened Words

  const RW_RETRIES := 3
  const CAL_RETRIES := 3
  const CMD_RECALIBRATE := 0x07
  const CMD_READ := 0x06
  const CMD_SEEK := 0x0F
  const CMD_SENSE_INT := 0x08

  /** What the controller makes of a command: it takes it or not, a seek may not have ended, and a
      transfer may break off after some bytes. */
  datatype Event = Fine | Timeout | NoSeekEnd | Abort(at: nat)

  /** A command that was issued; for a SEEK or READ the block that it names, for a READ the number of sectors. */
  datatype Issued = Issued(code: nat, block: nat, n: nat)

  /** What is done next; a seek and a recalibration take two commands. */
  datatype Phase = Seeking | SeekEnd | Calibrating | CalibrateEnd | Reading | Stopped(ok: bool)

  /** The current block, the number of blocks left and of those in the current part, and the retries. */
  datatype Progress = Progress(phase: Phase, block: nat, left: nat, part: nat, rw: nat, cal: nat)

  function Min(a: nat, b: nat): nat {
    if a < b then a else b
  }

  /** A read of count blocks from the first one on, with the answer to its first command at start. */
  datatype Session = Session(g: Geometry, disk: seq<byte>, tape: seq<Event>, start: nat, first: nat, count: nat) {

    /** The answer to the k-th command; behind the tape every command is fine. */
    function Answer(k: nat): Event {
      if start + k < |tape| then tape[start + k] else Fine
    }

    /** A READ whose data do not all come. */
    predicate BreaksOff(x: Issued, e: Event) {
      var from, len := Times(x.block, g.size), Times(x.n, g.size);
      && x.code == CMD_READ && !e.Timeout?
      && ((0 < len && |disk| < from + len) || (e.Abort? && e.at < len))
    }

    // ---- the machine

    function Begin(): Progress
      requires g.Valid()
    {
      Quotient(first, g.sect);
      Progress(Seeking, first, count, Min(g.sect - Mod(first, g.sect), count), 0, 0)
    }

    /** The command of a phase. */
    function CommandOf(p: Progress): Issued
      requires g.Valid()
    {
      match p.phase
      case Seeking => Issued(CMD_SEEK, Truncated(g, p.block), 0)
      case Calibrating => Issued(CMD_RECALIBRATE, 0, 0)
      case Reading => Issued(CMD_READ, Truncated(g, p.block), p.part)
      case _ => Issued(CMD_SENSE_INT, 0, 0)
    }

    /** What follows a transfer that broke off: five transfers, then a recalibration, four times. */
    function Broken(p: Progress): Progress {
      var phase := if p.rw <= RW_RETRIES then Reading else if p.cal > CAL_RETRIES then Stopped(false) else Calibrating;
      if phase == Calibrating then p.(phase := phase, rw := 0, cal := p.cal + 1) else p.(phase := phase, rw := p.rw + 1)
    }

    /** What follows a transfer that is done. */
    function Done(p: Progress): Progress {
      var left := if p.part <= p.left then p.left - p.part else 0;
      Progress(if left == 0 then Stopped(true) else Seeking, p.block + p.part, left, Min(g.sect, left), p.rw, p.cal)
    }

    function Next(p: Progress, e: Event): Progress
      requires g.Valid()
    {
      if p.phase.Stopped? then p
      else if e.Timeout? || (p.phase == SeekEnd && e.NoSeekEnd?) then p.(phase := Stopped(false))
      else
        match p.phase
        case Seeking => p.(phase := SeekEnd)
        case SeekEnd => p.(phase := Reading)
        case Calibrating => p.(phase := CalibrateEnd)
        case CalibrateEnd => p.(phase := Seeking)
        case _ => if BreaksOff(CommandOf(p), e) then Broken(p) else Done(p)
    }

    /** The progress after n commands. */
    function Run(n: nat): Progress
      requires g.Valid()
    {
      if n == 0 then Begin() else Next(Run(n - 1), Answer(n - 1))
    }

    /** The commands are those of the machine, up to where it stops. */
    ghost predicate Follows(log: seq<Issued>)
      requires g.Valid()
    {
      forall k :: 0 <= k < |log| ==> Issues(k, log[k])
    }

    /** Whether the k-th command is the machine's. */
    ghost predicate Issues(k: nat, x: Issued)
      requires g.Valid()
    {
      !Run(k).phase.Stopped? && x == CommandOf(Run(k))
    }

    lemma FollowsSnoc(log: seq<Issued>, x: Issued)
      requires g.Valid() && Follows(log) && Issues(|log|, x)
      ensures Follows(log + [x])
    {
      hide Issues;
    }

    lemma RunStep(n: nat)
      requires g.Valid()
      ensures Run(n + 1) == Next(Run(n), Answer(n)) && Run(0) == Begin()
    {
      hide Next, Begin, Answer;
    }

    lemma FollowsFront(log: seq<Issued>, n: nat)
      requires g.Valid() && Follows(log) && n <= |log|
      ensures Follows(log[..n])
    {
      hide Issues;
    }

    // ---- what every run keeps

    /** The current part stays on the track of one head and in the requested range. */
    ghost predicate Sound(p: Progress)
      requires g.Valid()
    {
      && first <= p.block && p.block + p.left == first + count
      && p.part <= p.left && (p.left > 0 ==> p.part > 0) && Mod(p.block, g.sect) + p.part <= g.sect
      && (p.part < p.left ==> Mod(p.block, g.sect) + p.part == g.sect)
      && p.cal <= CAL_RETRIES + 1 && p.rw <= RW_RETRIES + 2 && (p.phase.Stopped? || p.rw <= RW_RETRIES + 1)
      && (p.phase == Calibrating || p.phase == CalibrateEnd ==> p.rw == 0 && p.cal > 0)
    }

    lemma DoneIsSound(p: Progress)
      requires g.Valid() && Sound(p) && p.phase == Reading
      ensures Sound(Done(p))
    {
      hide Mod;
      NextTrack(g, p.block, p.part);
      Quotient(p.block + p.part, g.sect);
    }

    lemma {:induction false} RunIsSound(n: nat)
      requires g.Valid()
      ensures Sound(Run(n))
    {
      hide Mod, BreaksOff, Done, CommandOf;
      if n == 0 {
        Quotient(first, g.sect);
      } else {
        RunIsSound(n - 1);
        if Run(n - 1).phase == Reading {
          DoneIsSound(Run(n - 1));
        }
      }
    }

    /** A command that ends the read: it times out, or it finds that a seek has not ended. */
    predicate Fails(log: seq<Issued>, k: nat)
      requires k < |log|
    {
      var e := Answer(k);
      e.Timeout? || (e.NoSeekEnd? && log[k].code == CMD_SENSE_INT && 0 < k && log[k - 1].code == CMD_SEEK)
    }

    predicate Faulted(log: seq<Issued>) {
      exists k :: 0 <= k < |log| && Fails(log, k)
    }

    /** Number of the transfers that broke off, and of the recalibrations. */
    function Aborted(log: seq<Issued>): nat {
      if log == [] then 0
      else
        var n := |log| - 1;
        Aborted(log[..n]) + if BreaksOff(log[n], Answer(n)) then 1 else 0
    }

    function Recals(log: seq<Issued>): nat {
      if log == [] then 0
      else Recals(log[..|log| - 1]) + if log[|log| - 1].code == CMD_RECALIBRATE then 1 else 0
    }

    lemma FaultedFront(log: seq<Issued>)
      requires log != []
      ensures Faulted(log) <==> Faulted(log[..|log| - 1]) || Fails(log, |log| - 1)
    {
      hide Answer;
      var n := |log| - 1;
      if Faulted(log[..n]) {
        var k :| 0 <= k < n && Fails(log[..n], k);
        assert Fails(log, k);
      }
      if k :| 0 <= k < |log| && Fails(log, k) {
        assert k < n ==> Fails(log[..n], k);
      }
    }

    /** The last command of a run failed exactly if the machine stopped on a failure at it. */
    lemma LastFails(log: seq<Issued>)
      requires g.Valid() && log != [] && Follows(log)
      ensures var p, e := Run(|log| - 1), Answer(|log| - 1);
              Fails(log, |log| - 1) <==> e.Timeout? || (p.phase == SeekEnd && e.NoSeekEnd?)
    {
      hide BreaksOff, Answer, Truncated, Run, Mod, Times;
      var n := |log| - 1;
      if n > 0 {
        assert Issues(n - 1, log[n - 1]) && Issues(n, log[n]);
        RunStep(n - 1);
      } else {
        RunStep(0);
      }
    }

    /** What the machine's counters mean. */
    ghost predicate Accounted(log: seq<Issued>, p: Progress) {
      && Aborted(log) == 5 * p.cal + p.rw
      && Recals(log) == (if p.phase == Calibrating then p.cal - 1 else p.cal)
      && (Faulted(log) ==> p.phase == Stopped(false))
      && (p.phase == Stopped(false) ==> Faulted(log) || (p.cal == CAL_RETRIES + 1 && p.rw == RW_RETRIES + 2))
      && (p.phase != Stopped(false) ==> p.rw <= RW_RETRIES + 1)
    }

    lemma NoneFaulted()
      ensures !Faulted([])
    {
    }

    lemma LastCommand(log: seq<Issued>)
      requires g.Valid() && log != [] && Follows(log)
      ensures var p := Run(|log| - 1); !p.phase.Stopped? && log[|log| - 1] == CommandOf(p)
      ensures Run(|log|) == Next(Run(|log| - 1), Answer(|log| - 1))
    {
      hide CommandOf, Next, Begin;
      assert Issues(|log| - 1, log[|log| - 1]);
    }

    lemma AccountsStep(log: seq<Issued>, p: Progress, e: Event)
      requires g.Valid() && log != [] && Sound(p) && Accounted(log[..|log| - 1], p)
      requires e == Answer(|log| - 1) && !p.phase.Stopped? && log[|log| - 1] == CommandOf(p)
      requires Faulted(log) <==> Faulted(log[..|log| - 1]) || e.Timeout? || (p.phase == SeekEnd && e.NoSeekEnd?)
      ensures Accounted(log, Next(p, e))
    {
      hide Faulted, Answer, Truncated, Mod, Times;
    }

    lemma {:induction false} RunAccounts(log: seq<Issued>)
      requires g.Valid() && Follows(log)
      ensures Accounted(log, Run(|log|))
    {
      hide Faulted, Fails, Answer, BreaksOff, Truncated, Follows;
      if log == [] {
        NoneFaulted();
      } else {
        var n := |log| - 1;
        FollowsFront(log, n);
        RunAccounts(log[..n]);
        FaultedFront(log);
        LastFails(log);
        LastCommand(log);
        RunIsSound(n);
        AccountsStep(log, Run(n), Answer(n));
      }
    }

    // ---- what a run means

    /** A run ends well exactly if no command failed and fewer than 25 transfers broke off. */
    lemma RunEnds(log: seq<Issued>)
      requires g.Valid() && Follows(log) && Run(|log|).phase.Stopped?
      ensures Aborted(log) <= 25
      ensures Run(|log|).phase.ok <==> !Faulted(log) && Aborted(log) < 25
    {
      hide Run, Faulted, Aborted, Recals;
      RunAccounts(log);
      RunIsSound(|log|);
    }

    /** A recalibration is issued after each fifth broken transfer, at most four times. */
    lemma Recalibrations(log: seq<Issued>, k: nat)
      requires g.Valid() && Follows(log) && k < |log| && log[k].code == CMD_RECALIBRATE
      ensures Aborted(log[..k]) == 5 * (Recals(log[..k]) + 1) && Recals(log[..k]) < 4
    {
      hide Run, Faulted, Aborted, Recals;
      FollowsFront(log, k);
      RunAccounts(log[..k]);
      RunIsSound(k);
      assert Issues(k, log[k]);
    }

    /** What stands in front of a READ: a seek to its block and the check that the seek has ended,
        or the same READ, which broke off. */
    lemma InFront(log: seq<Issued>, k: nat)
      requires g.Valid() && Follows(log) && k < |log| && log[k].code == CMD_READ
      ensures (k >= 2 && log[k - 1].code == CMD_SENSE_INT && log[k - 2] == Issued(CMD_SEEK, log[k].block, 0)
               && !Answer(k - 1).NoSeekEnd?)
              || (k >= 1 && log[k - 1] == log[k] && BreaksOff(log[k - 1], Answer(k - 1)))
    {
      hide Run, BreaksOff, Answer, Truncated, Mod, Times;
      RunStep(0);
      assert Issues(k, log[k]);
      if k >= 1 {
        RunStep(k - 1);
        assert Issues(k - 1, log[k - 1]);
      }
      if k >= 2 {
        RunStep(k - 2);
        assert Issues(k - 2, log[k - 2]);
      }
    }

    /** Every READ stays on the track of one head, and within 256 tracks in the requested range. */
    lemma ReadIsSound(log: seq<Issued>, k: nat)
      requires g.Valid() && Follows(log) && k < |log| && log[k].code == CMD_READ
      ensures Mod(log[k].block, g.sect) + log[k].n <= g.sect
      ensures first + count <= Times(256, Times(g.sect, g.heads)) && log[k].n > 0 ==>
                first <= log[k].block && log[k].block + log[k].n <= first + count
    {
      hide Run, BreaksOff, Truncated, Mod, Times;
      RunIsSound(k);
      assert Issues(k, log[k]);
      var p := Run(k);
      Quotient(log[k].block, g.sect);
      if p.part > 0 {
        TruncatedNext(g, p.block, p.part, 0);
        if p.block < Times(256, Times(g.sect, g.heads)) {
          Small(g, p.block);
        }
      }
    }

    // ---- what the answers alone decide

    /** No answer is a time-out or misses the end of a seek. */
    predicate NoFailure(n: nat) {
      forall k :: 0 <= k < n ==> !Answer(k).Timeout? && !Answer(k).NoSeekEnd?
    }

    /** Number of answers that break a transfer off. */
    function Aborts(n: nat): nat {
      if n == 0 then 0 else Aborts(n - 1) + if Answer(n - 1).Abort? then 1 else 0
    }

    ghost predicate OnDisk(log: seq<Issued>) {
      forall k :: 0 <= k < |log| && log[k].code == CMD_READ && 0 < Times(log[k].n, g.size) ==>
        Times(log[k].block, g.size) + Times(log[k].n, g.size) <= |disk|
    }

    /** The controller hands over the i-th byte of a READ. */
    predicate Delivered(x: Issued, e: Event, i: nat) {
      Times(x.block, g.size) + i < |disk| && (e.Abort? ==> i < e.at)
    }

    /** A READ that the controller takes breaks off exactly if one of its bytes is not handed over. */
    lemma BreaksOffAtAByte(x: Issued, e: Event)
      requires x.code == CMD_READ && !e.Timeout?
      ensures BreaksOff(x, e) <==> exists i: nat :: i < Times(x.n, g.size) && !Delivered(x, e, i)
    {
      hide Times;
      var len := Times(x.n, g.size);
      if BreaksOff(x, e) {
        assert !Delivered(x, e, if e.Abort? && e.at < len then e.at else len - 1);
      }
    }

    /** With the data on the disk and no failing answer, only aborts can break a transfer off. */
    lemma {:induction false} AbortsOnly(log: seq<Issued>)
      requires OnDisk(log)
      ensures Aborted(log) <= Aborts(|log|)
      ensures NoFailure(|log|) ==> !Faulted(log)
    {
      hide Answer, Times;
      if log != [] {
        var n := |log| - 1;
        assert forall k :: 0 <= k < n ==> log[..n][k] == log[k];
        AbortsOnly(log[..n]);
      }
    }

    lemma RunOnDisk(log: seq<Issued>)
      requires g.Valid() && Follows(log) && first + count <= Times(256, Times(g.sect, g.heads))
      requires Times(first + count, g.size) <= |disk|
      ensures OnDisk(log)
    {
      hide Times, Mod, Truncated, Follows;
      forall k | 0 <= k < |log| && log[k].code == CMD_READ && 0 < Times(log[k].n, g.size)
        ensures Times(log[k].block, g.size) + Times(log[k].n, g.size) <= |disk|
      {
        TimesNone(g.size);
        ReadIsSound(log, k);
        Distribute(log[k].block, log[k].n, g.size);
        Monotone(log[k].block + log[k].n, first + count, g.size);
      }
    }

    /** With the blocks on the disk, fewer than 25 aborts and no failing answer, a run ends well. */
    lemma EndsWell(log: seq<Issued>)
      requires g.Valid() && Follows(log) && Run(|log|).phase.Stopped?
      ensures first + count <= Times(256, Times(g.sect, g.heads)) && Times(first + count, g.size) <= |disk| ==>
                NoFailure(|log|) && Aborts(|log|) < 25 ==> Run(|log|).phase.ok
    {
      hide Run, Faulted, Aborted, Aborts, NoFailure, Follows, OnDisk, Times;
      RunEnds(log);
      if first + count <= Times(256, Times(g.sect, g.heads)) && Times(first + count, g.size) <= |disk| {
        RunOnDisk(log);
        AbortsOnly(log);
      }
    }

    // ---- what is in the buffer

    /** The k-th block of the buffer is the k-th block of the disk from the first one on, as far as the
        track register goes. */
    ghost predicate BlockRead(buffer: seq<byte>, k: nat)
      requires g.Valid()
    {
      var block := Truncated(g, first + k);
      && Times(k, g.size) <= Times(k + 1, g.size) <= |buffer|
      && Times(block, g.size) <= Times(block + 1, g.size) <= |disk|
      && buffer[Times(k, g.size)..Times(k + 1, g.size)] == disk[Times(block, g.size)..Times(block + 1, g.size)]
    }

    ghost predicate Filled(buffer: seq<byte>, n: nat)
      requires g.Valid()
    {
      forall k :: 0 <= k < n ==> BlockRead(buffer, k)
    }

    lemma BlockKept(before: seq<byte>, after: seq<byte>, done: nat, k: nat)
      requires g.Valid() && BlockRead(before, k) && k < done
      requires var to := Times(done, g.size); to <= |after| == |before| && after[..to] == before[..to]
      ensures BlockRead(after, k)
    {
      hide Times, Truncated;
      Monotone(k + 1, done, g.size);
      Inside(before, after, Times(k, g.size), Times(k + 1, g.size), Times(done, g.size));
    }

    lemma BlockAdded(after: seq<byte>, done: nat, n: nat, j: nat)
      requires g.Valid() && Mod(first + done, g.sect) + n <= g.sect && j < n
      requires var from, to, len := Times(Truncated(g, first + done), g.size), Times(done, g.size), Times(n, g.size);
               && to + len <= |after| && from + len <= |disk|
               && after[to..to + len] == disk[from..from + len]
      ensures BlockRead(after, done + j)
    {
      hide Times, Truncated, Mod, Geometry.Valid;
      var block := Truncated(g, first + done);
      TruncatedNext(g, first + done, n, j);
      assert first + (done + j) == first + done + j;
      Spots(done, n, j, g.size);
      Spots(block, n, j, g.size);
      Stretch(after, disk, Times(done, g.size), Times(block, g.size), Times(n, g.size),
              Times(j, g.size), Times(j + 1, g.size));
    }

    /** What one transfer adds to the blocks in the buffer. */
    lemma FilledMore(before: seq<byte>, after: seq<byte>, done: nat, n: nat)
      requires g.Valid() && Filled(before, done) && Mod(first + done, g.sect) + n <= g.sect
      requires var from, to, len := Times(Truncated(g, first + done), g.size), Times(done, g.size), Times(n, g.size);
               && to + len <= |after| == |before| && after[..to] == before[..to]
               && (n > 0 ==> from + len <= |disk| && after[to..to + len] == disk[from..from + len])
      ensures Filled(after, done + n)
    {
      hide Times, Truncated, BlockRead, Mod;
      forall k | 0 <= k < done + n ensures BlockRead(after, k) {
        if k < done {
          BlockKept(before, after, done, k);
        } else {
          BlockAdded(after, done, n, k - done);
        }
      }
    }

    /** Within 256 tracks, the blocks in the buffer are one stretch of the disk. */
    lemma {:induction false} Flat(buffer: seq<byte>, n: nat)
      requires g.Valid() && Filled(buffer, n) && Times(n, g.size) <= |buffer|
      requires first + n <= Times(256, Times(g.sect, g.heads))
      ensures var from, len := Times(first, g.size), Times(n, g.size);
              n > 0 ==> from + len <= |disk| && buffer[..len] == disk[from..from + len]
    {
      hide Times, Truncated;
      if n > 0 {
        var k := n - 1;
        assert BlockRead(buffer, k);
        Small(g, first + k);
        Scaled(first, k, 1, g.size);
        Scaled(first, n, 0, g.size);
        Monotone(k, n, g.size);
        Flat(buffer, k);
        Joined(buffer, disk, Times(first, g.size), Times(k, g.size), Times(1, g.size));
      }
    }
  }
}
