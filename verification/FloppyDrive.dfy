/** fdc_read_data of cmd_fdc.c and the routines below it. */
module FloppyDrive {
  import opened Arithmetic
  import opened Floppy
  import opened FloppyProtocol
  import opened Words

  /** The command bytes that say where to read. */
  datatype Command = Command(code: nat, drive: nat, track: nat, head: nat, sector: nat, last: nat)

  /** The block that the bytes of a READ name. */
  function FirstBlock(g: Geometry, cmd: Command): nat
    requires 1 <= cmd.sector
  {
    BlockAt(g, Place(cmd.track, cmd.head, cmd.sector))
  }

  class Drive {
    const g: Geometry
    const disk: seq<byte>
    /** Answers of the controller to the commands to come; then every command is fine. */
    const tape: seq<Event>
    const drive: nat

    var t: nat
    var blnr: nat
    var cmd: Command
    /** The commands issued so far. */
    ghost var log: seq<Issued>

    constructor (g: Geometry, disk: seq<byte>, tape: seq<Event>, drive: nat, blnr: nat)
      ensures this.g == g && this.disk == disk && this.tape == tape && this.drive == drive
      ensures this.blnr == blnr && t == 0 && log == []
    {
      this.g, this.disk, this.tape, this.drive, this.blnr := g, disk, tape, drive, blnr;
      t, cmd, log := 0, Command(0, 0, 0, 0, 0, 0), [];
    }

    /** A read that starts here. */
    ghost function Asked(count: nat): Session
      reads this`t, this`blnr
    {
      Session(g, disk, tape, t, blnr, count)
    }

    /** The commands issued so far belong to a read, which has come to a certain point. */
    ghost predicate Going(s: Session, p: Progress)
      reads this`t, this`log
    {
      && s.g == g && s.disk == disk && s.tape == tape && g.Valid()
      && t == s.start + |log| && s.Follows(log) && s.Run(|log|) == p
    }

    /** One more command of the machine. */
    lemma GoesOn(s: Session, p: Progress)
      requires Going(s, p) && !p.phase.Stopped?
      ensures s.Follows(log + [s.CommandOf(p)]) && s.Run(|log| + 1) == s.Next(p, s.Answer(|log|))
    {
      hide Session.Run, Session.Next, Session.CommandOf;
      s.FollowsSnoc(log, s.CommandOf(p));
      s.RunStep(|log|);
    }

    lemma SameGeometry(s: Session, p: Progress)
      requires Going(s, p)
      ensures s.g == g && s.disk == disk && s.tape == tape && g.Valid()
    {
    }

    lemma NothingFilled(s: Session, buffer: seq<byte>)
      requires s.g.Valid()
      ensures s.Filled(buffer, 0)
    {
    }

    lemma Started(s: Session)
      requires g.Valid() && s.g == g && s.disk == disk && s.tape == tape && s.start == t && log == []
      ensures Going(s, s.Begin()) && s.Begin().phase == Seeking && s.Begin().block == s.first
    {
    }

    /** fdc_issue_cmd for the commands of the read. */
    method IssueCmd(code: nat, ghost s: Session, ghost p: Progress) returns (event: Event)
      requires Going(s, p) && !p.phase.Stopped? && p.block == blnr && s.CommandOf(p).code == code
      modifies this`t, this`cmd, this`log
      ensures t == old(t) + 1 && event == (if old(t) < |tape| then tape[old(t)] else Fine)
      ensures log == old(log) + [s.CommandOf(p)] && Going(s, s.Next(p, event))
      ensures var place := PlaceOf(g, blnr);
              && cmd.code == code && cmd.track == place.track % 256 && cmd.head == place.head
              && cmd.drive == drive + (if place.head == 0 || code == CMD_RECALIBRATE then 0 else 4)
      ensures code == CMD_READ ==>
                && cmd.sector == PlaceOf(g, blnr).sector && cmd.last == g.sect
                && FirstBlock(g, cmd) == Truncated(g, blnr)
    {
      hide Truncated, Session.Run, Session.Next, Session.Issues, Session.Follows;
      var place := PlaceOf(g, blnr);
      cmd := cmd.(code := code, head := place.head, track := place.track % 256);
      cmd := cmd.(drive := drive + if place.head != 0 then 4 else 0);
      if code == CMD_READ {
        cmd := cmd.(sector := place.sector, last := g.sect);
      } else if code == CMD_RECALIBRATE {
        cmd := cmd.(drive := drive);
      }
      TruncatedTrack(g, blnr);
      event := if t < |tape| then tape[t] else Fine;
      GoesOn(s, p);
      log := log + [s.CommandOf(p)];
      t := t + 1;
    }

    /** fdc_recalibrate; its result is not looked at beyond the commands' success. */
    method Recalibrate(ghost s: Session, ghost p: Progress) returns (ok: bool)
      requires Going(s, p) && p.phase == Calibrating && p.block == blnr
      modifies this`t, this`cmd, this`log
      ensures Going(s, p.(phase := if ok then Seeking else Stopped(false)))
      ensures ok ==> log == old(log) + [Issued(CMD_RECALIBRATE, 0, 0), Issued(CMD_SENSE_INT, 0, 0)]
    {
      hide Going, Truncated;
      var event := IssueCmd(CMD_RECALIBRATE, s, p);
      if event.Timeout? {
        return false;
      }
      event := IssueCmd(CMD_SENSE_INT, s, p.(phase := CalibrateEnd));
      return !event.Timeout?;
    }

    /** fdc_seek together with the check that the seek has ended. */
    method Seek(ghost s: Session, ghost p: Progress) returns (ok: bool)
      requires Going(s, p) && p.phase == Seeking && p.block == blnr
      modifies this`t, this`cmd, this`log
      ensures Going(s, p.(phase := if ok then Reading else Stopped(false)))
      ensures ok ==> log == old(log) + [Issued(CMD_SEEK, Truncated(g, blnr), 0), Issued(CMD_SENSE_INT, 0, 0)]
    {
      hide Going, Truncated;
      SameGeometry(s, p);
      var event := IssueCmd(CMD_SEEK, s, p);
      if event.Timeout? {
        return false;
      }
      event := IssueCmd(CMD_SENSE_INT, s, p.(phase := SeekEnd));
      if event.Timeout? {
        return false;
      }
      ok := !event.NoSeekEnd?;
    }

    /** The byte loop of one READ: n sectors of one head's track. */
    method Transfer(buffer: array<byte>, offset: nat, n: nat, event: Event, ghost s: Session) returns (ok: bool)
      requires g.Valid() && s.g == g && s.disk == disk
      requires 1 <= cmd.sector && cmd.sector + n <= cmd.last + 1 && cmd.last == g.sect
      requires offset + Times(n, g.size) <= buffer.Length && !event.Timeout?
      modifies buffer
      ensures ok <==> !s.BreaksOff(Issued(CMD_READ, FirstBlock(g, cmd), n), event)
      ensures var from := Times(FirstBlock(g, cmd), g.size);
              ok ==> n == 0 || (from + Times(n, g.size) <= |disk|
                     && buffer[offset..offset + Times(n, g.size)] == disk[from..from + Times(n, g.size)])
      ensures forall i :: 0 <= i < buffer.Length && !(offset <= i < offset + Times(n, g.size)) ==>
                buffer[i] == old(buffer[i])
    {
      hide Times;
      var len := Times(n, g.size);
      var from := Times(FirstBlock(g, cmd), g.size);
      var i: nat := 0;
      while i < len
        invariant i <= len && (event.Abort? ==> i <= event.at || len <= event.at) && (i > 0 ==> from + i <= |disk|)
        invariant forall j :: offset <= j < offset + i ==> buffer[j] == disk[from + (j - offset)]
        invariant forall j :: 0 <= j < buffer.Length && !(offset <= j < offset + len) ==> buffer[j] == old(buffer[j])
      {
        if from + i >= |disk| || event == Abort(i) {
          return false;
        }
        buffer[offset + i] := disk[from + i];
        i := i + 1;
      }
      NoProduct(n, g.size);
      return true;
    }

    /** After a transfer that broke off, with the retries before it: read again, or recalibrate and seek
        first, or give up. */
    method Retry(rw: nat, cal: nat, ghost s: Session, ghost p: Progress)
      returns (ok: bool, retriesRw: nat, retriesCal: nat)
      requires rw <= RW_RETRIES + 1 && cal <= CAL_RETRIES + 1 && p.rw == rw && p.cal == cal
      requires p.phase == Reading && p.block == blnr && Going(s, s.Broken(p))
      modifies this`t, this`cmd, this`log
      ensures Going(s, s.Run(|log|)) && s.Run(|log|).phase == if ok then Reading else Stopped(false)
      ensures ok ==>
                && s.Run(|log|) == p.(rw := retriesRw, cal := retriesCal)
                && retriesRw <= RW_RETRIES + 1 && retriesCal <= CAL_RETRIES + 1
                && (retriesCal > cal || (retriesCal == cal && retriesRw > rw))
                && log == old(log) + (if rw <= RW_RETRIES then [] else
                                       [Issued(CMD_RECALIBRATE, 0, 0), Issued(CMD_SENSE_INT, 0, 0),
                                        Issued(CMD_SEEK, Truncated(g, blnr), 0), Issued(CMD_SENSE_INT, 0, 0)])
      ensures !ok ==> rw > RW_RETRIES && (cal > CAL_RETRIES <==> log == old(log))
    {
      hide Truncated, Session.Run, Session.Next, Session.Issues, Session.Follows, Session.CommandOf;
      retriesRw, retriesCal := rw + 1, cal;
      if rw > RW_RETRIES {
        retriesCal := cal + 1;
        if cal > CAL_RETRIES {
          return false, retriesRw, retriesCal;
        }
        ok := Recalibrate(s, s.Broken(p));
        if !ok {
          return;
        }
        retriesRw := 0;
        ok := Seek(s, s.Broken(p).(phase := Seeking));
      } else {
        ok := true;
      }
    }

    /** One READ: the command and its data. */
    method ReadPart(buffer: array<byte>, offset: nat, n: nat, ghost s: Session, ghost p: Progress)
      returns (ok: bool, done: bool)
      requires Going(s, p) && p.phase == Reading && p.block == blnr && p.part == n && Mod(blnr, g.sect) + n <= g.sect
      requires offset + Times(n, g.size) <= buffer.Length
      modifies this`t, this`cmd, this`log, buffer
      ensures Going(s, if !ok then p.(phase := Stopped(false)) else if done then s.Done(p) else s.Broken(p))
      ensures log == old(log) + [Issued(CMD_READ, Truncated(g, blnr), n)]
      ensures ok && done && n > 0 ==>
                var from, len := Times(Truncated(g, blnr), g.size), Times(n, g.size);
                from + len <= |disk| && buffer[offset..offset + len] == disk[from..from + len]
      ensures forall i :: 0 <= i < buffer.Length && !(offset <= i < offset + Times(n, g.size)) ==>
                buffer[i] == old(buffer[i])
    {
      hide Times, Mod, Div, PlaceOf, Truncated, BlockAt, Going, Session.BreaksOff, Session.Done, Session.Broken;
      SameGeometry(s, p);
      PlaceIsBlock(g, blnr);
      done := false;
      var event := IssueCmd(CMD_READ, s, p);
      ok := !event.Timeout?;
      if ok {
        done := Transfer(buffer, offset, n, event, s);
      }
    }

    /** A READ that continues behind the blocks read so far, and the step to the next block when it is done. */
    method ReadNext(buffer: array<byte>, offset: nat, n: nat, ghost s: Session, ghost p: Progress)
      returns (ok: bool, done: bool)
      requires Going(s, p) && p.phase == Reading && p.block == blnr && p.part == n
      requires s.first <= blnr && Mod(blnr, g.sect) + n <= g.sect
      requires offset == Times(blnr - s.first, g.size) && offset + Times(n, g.size) <= buffer.Length
      requires s.Filled(buffer[..], blnr - s.first)
      modifies this`t, this`cmd, this`log, this`blnr, buffer
      ensures Going(s, if !ok then p.(phase := Stopped(false)) else if done then s.Done(p) else s.Broken(p))
      ensures log == old(log) + [Issued(CMD_READ, Truncated(g, old(blnr)), n)]
      ensures blnr == old(blnr) + if ok && done then n else 0
      ensures s.Filled(buffer[..], blnr - s.first)
      ensures forall i :: offset + Times(n, g.size) <= i < buffer.Length ==> buffer[i] == old(buffer[i])
    {
      hide Times, Mod, Truncated, Going, Session.Filled, Session.Done, Session.Broken;
      SameGeometry(s, p);
      ghost var before, all := buffer[..], blnr - s.first;
      ok, done := ReadPart(buffer, offset, n, s, p);
      assert buffer[..][..offset] == before[..offset];
      ghost var len := Times(n, g.size);
      assert buffer[..][offset..offset + len] == buffer[offset..offset + len];
      Scaled(s.first, all, 0, g.size);
      if ok && done {
        s.FilledMore(before, buffer[..], all, n);
        blnr := blnr + n;
      } else {
        s.FilledMore(before, buffer[..], all, 0);
      }
    }

    /** The loop over the tracks, behind the first seek. */
    method ReadTracks(buffer: array<byte>, count: nat, ghost s: Session) returns (ok: bool)
      requires g.Valid() && Times(count, g.size) <= buffer.Length
      requires s.g == g && s.first == blnr && s.count == count
      requires Going(s, s.Begin().(phase := Reading))
      modifies this`t, this`blnr, this`cmd, this`log, buffer
      ensures Going(s, s.Run(|log|)) && s.Run(|log|).phase == Stopped(ok)
      ensures ok ==> blnr == old(blnr) + count && s.Filled(buffer[..], count)
      ensures forall i :: Times(count, g.size) <= i < buffer.Length ==> buffer[i] == old(buffer[i])
    {
      hide Times, Mod, Truncated, Session.Filled, Session.Run, Session.Follows;
      var blocks: nat, retriesRw: nat, retriesCal: nat, offset: nat := count, 0, 0, 0;
      Quotient(blnr, g.sect);
      var readblk: nat := g.sect - Mod(blnr, g.sect);
      if readblk > blocks {
        readblk := blocks;
      }
      Scaled(s.first, 0, count, g.size);
      NothingFilled(s, buffer[..]);
      while true
        invariant Going(s, Progress(Reading, blnr, blocks, readblk, retriesRw, retriesCal))
        invariant blnr + blocks == s.first + count && blocks <= count && offset == Times(blnr - s.first, g.size)
        invariant readblk <= blocks && (blocks > 0 ==> readblk > 0) && Mod(blnr, g.sect) + readblk <= g.sect
        invariant readblk < blocks ==> Mod(blnr, g.sect) + readblk == g.sect
        invariant retriesRw <= RW_RETRIES + 1 && retriesCal <= CAL_RETRIES + 1
        invariant offset <= Times(count, g.size) <= buffer.Length
        invariant s.Filled(buffer[..], blnr - s.first)
        invariant forall i :: Times(count, g.size) <= i < buffer.Length ==> buffer[i] == old(buffer[i])
        decreases blocks, CAL_RETRIES - retriesCal, RW_RETRIES - retriesRw
      {
        ghost var p := Progress(Reading, blnr, blocks, readblk, retriesRw, retriesCal);
        Scaled(s.first, blnr - s.first, readblk, g.size);
        Monotone(blnr - s.first + readblk, count, g.size);
        NextTrack(g, blnr, readblk);
        var done;
        ok, done := ReadNext(buffer, offset, readblk, s, p);
        if !ok {
          return;
        }
        if !done {
          ok, retriesRw, retriesCal := Retry(retriesRw, retriesCal, s, p);
          if !ok {
            return;
          }
        } else {
          offset := offset + Times(readblk, g.size);
          blocks := blocks - readblk;
          if blocks == 0 {
            return true;
          }
          readblk := g.sect;
          if readblk > blocks {
            readblk := blocks;
          }
          ok := Seek(s, s.Done(p));
          if !ok {
            return;
          }
        }
      }
    }

    /** fdc_read_data. The commands are those of the machine, up to its end. It returns TRUE exactly if no
        command failed and fewer than 25 transfers broke off, and then the buffer holds the requested
        blocks. With the data on the disk and answers that neither time out nor miss the end of a seek,
        fewer than 25 aborts let it succeed. */
    method ReadData(buffer: array<byte>, count: nat) returns (ok: bool)
      requires g.Valid() && Times(count, g.size) <= buffer.Length && log == []
      modifies this`t, this`blnr, this`cmd, this`log, buffer
      ensures var s := old(Asked(count));
              && t == old(t) + |log| && s.Follows(log) && s.Run(|log|).phase == Stopped(ok)
              && s.Aborted(log) <= 25 && (ok <==> !s.Faulted(log) && s.Aborted(log) < 25)
              && (ok ==> s.Filled(buffer[..], count))
              && (old(blnr) + count <= Times(256, Times(g.sect, g.heads))
                  && Times(old(blnr) + count, g.size) <= |disk| ==>
                    s.NoFailure(|log|) && s.Aborts(|log|) < 25 ==> ok)
      ensures ok ==> blnr == old(blnr) + count
      ensures ok && old(blnr) + count <= Times(256, Times(g.sect, g.heads)) ==>
                var from, len := Times(old(blnr), g.size), Times(count, g.size);
                count > 0 ==> from + len <= |disk| && buffer[..len] == disk[from..from + len]
      ensures forall i :: Times(count, g.size) <= i < buffer.Length ==> buffer[i] == old(buffer[i])
    {
      hide Times, Mod, Truncated, Session.Filled, Session.Run, Session.Follows, Session.Faulted, Session.Aborted;
      hide Session.Aborts, Session.NoFailure, Session.Begin;
      ghost var s := Asked(count);
      Started(s);
      ok := Seek(s, s.Begin());
      if ok {
        ok := ReadTracks(buffer, count, s);
      }
      s.RunEnds(log);
      s.EndsWell(log);
      if ok && s.first + count <= Times(256, Times(g.sect, g.heads)) {
        s.Flat(buffer[..], count);
      }
    }
  }
}
