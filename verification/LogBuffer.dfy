/** logbuff_printk of cmd_log.c: tagging in the work buffer and storing in the ring. */
module LogBuffer {
  import opened CString
  import opened LogRing
  import opened Sequences

  /** The i-th cell of a ring that starts somewhere. */
  function Cell(start: nat, i: nat): (c: nat)
    ensures c < LEN
  {
    (start + i) % LEN
  }

  /** The same cell in 32-bit arithmetic: (start + i) & LOGBUFF_MASK. */
  function Index(start: u32, i: nat): (c: nat)
    ensures c < LEN
  {
    (start + i) % U32 % LEN
  }

  /** Unsigned addition. */
  function Add(a: u32, n: nat): u32 {
    (a + n) % U32
  }

  lemma AddTwice(a: u32, m: nat, n: nat)
    ensures Add(Add(a, m), n) == Add(a, m + n) && Add(a, 0) == a
  {
  }

  /** log_size & LOGBUFF_MASK */
  function Masked(size: nat): (r: nat)
    requires size <= LEN
    ensures r == if size < LEN then size else 0
  {
    size % LEN
  }

  /** The characters of a ring, from the oldest one on. */
  function Ring(cells: seq<char>, start: nat, size: nat): (r: string)
    requires |cells| == LEN
    ensures |r| == size
    ensures forall i :: 0 <= i < size ==> r[i] == cells[Cell(start, i)]
  {
    seq(size, i requires 0 <= i < size && |cells| == LEN => cells[Cell(start, i)])
  }

  /** Only cells a whole length apart are the same. */
  lemma SameCell(start: nat, i: nat, j: nat)
    requires i < LEN && j <= LEN
    ensures Cell(start, i) == Cell(start, j) <==> i == j || (i == 0 && j == LEN)
  {
  }

  lemma Around(x: nat)
    requires x < 2 * U32
    ensures x % U32 % LEN == x % LEN
  {
    var cells := U32 / LEN;
    if x >= U32 {
      assert x == (x - U32) + cells * LEN;
    }
  }

  /** Unsigned overflow does not disturb the ring: its length divides 2^32. */
  lemma Wrapped(start: u32, i: nat)
    requires i <= LEN
    ensures Index(start, i) == Cell(start, i)
    ensures Cell((start + 1) % U32, i) == Cell(start, i + 1)
  {
    Around(start + i);
    if start + 1 == U32 {
      Around(start + 1 + i);
    }
  }

  lemma RingGrows(cells: seq<char>, start: u32, size: nat, c: char)
    requires |cells| == LEN && size < LEN
    ensures Ring(cells[Cell(start, size) := c], start, size + 1) == Ring(cells, start, size) + [c]
  {
    hide Cell, Ring;
    var now := cells[Cell(start, size) := c];
    forall i | 0 <= i < size + 1 ensures Ring(now, start, size + 1)[i] == (Ring(cells, start, size) + [c])[i] {
      SameCell(start, i, size);
    }
  }

  lemma RingTurns(cells: seq<char>, start: u32, c: char)
    requires |cells| == LEN
    ensures Ring(cells[Cell(start, LEN) := c], (start + 1) % U32, LEN) == Ring(cells, start, LEN)[1..] + [c]
  {
    hide Cell, Ring;
    var now := cells[Cell(start, LEN) := c];
    forall i | 0 <= i < LEN ensures Ring(now, (start + 1) % U32, LEN)[i] == (Ring(cells, start, LEN)[1..] + [c])[i] {
      Wrapped(start, i);
      if i + 1 < LEN {
        SameCell(start, i + 1, LEN);
      }
    }
  }

  lemma RingPrefix(cells: seq<char>, start: u32, n: nat)
    requires |cells| == LEN && n < LEN
    ensures Ring(cells, start, n + 1) == Ring(cells, start, n) + [cells[Index(start, n)]]
    ensures Ring(cells, start, 0) == ""
  {
    hide Cell, Index;
    Wrapped(start, n);
  }

  lemma TailTag(s: string, q: nat)
    requires q < |s|
    ensures DefaultTag(s[q..], 0, true) == DefaultTag(s, q, true) && LevelAt(s[q..], 0) == LevelAt(s, q)
  {
  }

  /** The characters that StoreLine has taken from the work buffer, as a part of the line. */
  lemma LoggedText(buf: seq<char>, from: nat, end: nat, line: string, q: nat, tag: string, p: nat, lineFeed: bool)
    requires from <= p <= end <= |buf| && q <= |line| && end == |line| + 3 && from + |tag| == q + 3
    requires buf[from..end] == tag + line[q..] && '\n' !in tag
    requires lineFeed == (p < end) && (lineFeed ==> buf[p] == '\n') && '\n' !in buf[from..p]
    ensures q + 3 <= p && (lineFeed ==> line[p - 3] == '\n') && '\n' !in line[q..p - 3]
    ensures buf[from..if lineFeed then p + 1 else p] == tag + line[q..p - 3 + if lineFeed then 1 else 0]
  {
    var all := tag + line[q..];
    forall i | from <= i < end ensures buf[i] == all[i - from] {
      assert buf[i] == buf[from..end][i - from];
    }
    assert forall i :: 0 <= i < |tag| ==> all[i] == tag[i];
    assert p < end ==> buf[p] == all[p - from];
    forall i | q <= i < p - 3 ensures line[i] == buf[i + 3] && line[i] != '\n' {
      assert buf[i + 3] == all[i + 3 - from] == line[q..][i - q];
      assert buf[i + 3] == buf[from..p][i + 3 - from];
    }
  }

  class Buffer {
    /** Work buffer for one message, and the ring. */
    const buf: array<char>
    const logBuf: array<char>

    var logStart: u32
    var logSize: u32
    var loggedChars: u32
    var msgLevel: int

    ghost predicate Valid()
      reads this`logSize, this`msgLevel
    {
      buf.Length == BUF_SIZE && logBuf.Length == LEN && buf != logBuf && logSize <= LEN && -1 <= msgLevel < 8
    }

    /** The characters in the ring, oldest first. */
    ghost function Contents(): (r: string)
      requires logBuf.Length == LEN
      reads this`logStart, this`logSize, logBuf
      ensures |r| == logSize
    {
      Ring(logBuf[..], logStart, logSize)
    }

    constructor ()
      ensures Valid() && Contents() == "" && loggedChars == 0 && msgLevel == -1 && fresh(buf) && fresh(logBuf)
    {
      buf, logBuf := new char[BUF_SIZE](_ => '\0'), new char[LEN](_ => '\0');
      logStart, logSize, loggedChars, msgLevel := 0, 0, 0, -1;
    }

    /** One character goes into the ring. */
    method Store(c: char)
      requires Valid()
      modifies logBuf, this`logStart, this`logSize, this`loggedChars
      ensures Valid() && Contents() == Last(old(Contents()) + [c], LEN)
      ensures loggedChars == Add(old(loggedChars), 1)
    {
      hide Ring, Cell, Index;
      Wrapped(logStart, logSize);
      ghost var cells := logBuf[..];
      logBuf[Index(logStart, logSize)] := c;
      assert logBuf[..] == cells[Cell(logStart, logSize) := c];
      if logSize < LEN {
        RingGrows(cells, logStart, logSize, c);
        logSize := logSize + 1;
      } else {
        RingTurns(cells, logStart, c);
        logStart := (logStart + 1) % U32;
      }
      loggedChars := Add(loggedChars, 1);
    }

    /** Characters from p up to and including the end of the line, or up to the end. */
    method StoreLine(start: nat, end: nat) returns (p: nat, lineFeed: bool)
      requires Valid() && start <= end <= buf.Length
      modifies logBuf, this`logStart, this`logSize, this`loggedChars
      ensures Valid() && start <= p <= end
      ensures lineFeed == (p < end) && (lineFeed ==> buf[p] == '\n') && '\n' !in buf[start..p]
      ensures var text := buf[start..if lineFeed then p + 1 else p];
              && Contents() == Last(old(Contents()) + text, LEN)
              && loggedChars == Add(old(loggedChars), |text|)
    {
      hide Last, Add, Buffer.Contents;
      lineFeed, p := false, start;
      ghost var before := Contents();
      LastWhole(before, LEN);
      AddTwice(loggedChars, 0, 0);
      while p < end
        invariant Valid() && start <= p <= end && '\n' !in buf[start..p]
        invariant Contents() == Last(before + buf[start..p], LEN)
        invariant loggedChars == Add(old(loggedChars), p - start)
      {
        assert buf[start..p + 1] == buf[start..p] + [buf[p]];
        LastStep(before, buf[start..p], [buf[p]], LEN);
        AddTwice(old(loggedChars), p - start, 1);
        Store(buf[p]);
        if buf[p] == '\n' {
          lineFeed := true;
          break;
        }
        p := p + 1;
      }
    }

    /** At the start of a line: its tag is read, or the default tag is written over
        the three characters in front of it. */
    method TagLine(start: nat, end: nat, ghost line: string) returns (p: nat)
      requires Valid() && 3 <= start < end < buf.Length && line == buf[start..end] && buf[end] == '\0' && '\0' !in line
      modifies buf, this`msgLevel
      ensures Valid() && start - 3 <= p <= start && buf[end] == '\0' && buf[start..end] == line
      ensures buf[p..end] == DefaultTag(line, 0, true) + line
      ensures msgLevel == LevelAt(line, 0)
    {
      p := start;
      ghost var tagged := TagAt(line, 0);
      assert buf[p] == line[0] && buf[p + 1] == CharAt(line, 1);
      assert p + 1 < end ==> buf[p + 2] == CharAt(line, 2);
      if buf[p] != '<' || buf[p + 1] < '0' || buf[p + 1] > '7' || buf[p + 2] != '>' {
        assert !tagged;
        p := p - 3;
        buf[p] := '<';
        buf[p + 1] := (DEFAULT_LEVEL + '0' as int) as char;
        buf[p + 2] := '>';
        assert buf[p..end] == "<4>" + buf[start..end];
      }
      msgLevel := buf[p + 1] as int - '0' as int;
    }

    /** strcpy to behind the room for a tag. */
    method Strcpy(line: string)
      requires Valid() && |line| <= BUF_SIZE - 4
      modifies buf
      ensures buf[3..3 + |line|] == line && buf[3 + |line|] == '\0'
    {
      forall i | 0 <= i < |line| {
        buf[3 + i] := line[i];
      }
      buf[3 + |line|] := '\0';
    }

    /** One line of the message, which starts at q. */
    method LogLine(start: nat, end: nat, ghost line: string, ghost q: nat) returns (p: nat, lineFeed: bool)
      requires Valid() && start == q + 3 && q < |line| && end == |line| + 3 < buf.Length
      requires buf[start..end] == line[q..] && buf[end] == '\0' && '\0' !in line
      modifies buf, logBuf, this`logStart, this`logSize, this`loggedChars, this`msgLevel
      ensures Valid() && buf[start..end] == line[q..] && buf[end] == '\0'
      ensures start <= p <= end && lineFeed == (p < end)
              && (lineFeed ==> line[p - 3] == '\n') && '\n' !in line[q..p - 3]
      ensures var text := DefaultTag(line, q, old(msgLevel) < 0) + line[q..p - 3 + if lineFeed then 1 else 0];
              && Contents() == Last(old(Contents()) + text, LEN)
              && loggedChars == Add(old(loggedChars), |text|)
      ensures msgLevel == if lineFeed then -1 else if old(msgLevel) < 0 then LevelAt(line, q) else old(msgLevel)
    {
      hide Last, Add, TagAt, LevelAt, DefaultTag, Buffer.Contents;
      TailTag(line, q);
      NoTag(line, q);
      var from := start;
      if msgLevel < 0 {
        from := TagLine(start, end, line[q..]);
      }
      ghost var tag := DefaultTag(line, q, old(msgLevel) < 0);
      assert buf[from..end] == tag + line[q..];
      p, lineFeed := StoreLine(from, end);
      TagIsPlain(line, q, old(msgLevel) < 0);
      LoggedText(buf[..], from, end, line, q, tag, p, lineFeed);
      if lineFeed {
        msgLevel := -1;
      }
    }

    method Printk(line: string) returns (n: nat)
      requires Valid() && |line| <= BUF_SIZE - 4 && '\0' !in line
      modifies buf, logBuf, this`logStart, this`logSize, this`loggedChars, this`msgLevel
      ensures Valid() && n == |line|
      ensures var text := Tagged(line, 0, old(msgLevel) < 0);
              && Contents() == Last(old(Contents()) + text, LEN)
              && loggedChars == Add(old(loggedChars), |text|)
      ensures msgLevel == LevelAfter(line, 0, old(msgLevel))
    {
      hide Last, Add, Tagged, LevelAfter, LevelAt, DefaultTag, Ahead, Buffer.Contents;
      ghost var before, level, logged := Contents(), msgLevel, "";
      n := |line|;
      Strcpy(line);
      var p: nat, end: nat := 3, 3 + n;
      LastWhole(before, LEN);
      AddTwice(loggedChars, 0, 0);
      AheadStart(line, level);
      while p < end
        invariant Valid() && 3 <= p <= end + 1 && buf[end] == '\0'
        invariant p <= end ==> buf[p..end] == line[p - 3..]
        invariant Contents() == Last(before + logged, LEN) && loggedChars == Add(old(loggedChars), |logged|)
        invariant Ahead(line, level, p - 3, msgLevel, logged)
      {
        ghost var q, now, rest := p - 3, msgLevel, buf[p..end];
        var lineFeed;
        p, lineFeed := LogLine(p, end, line, q);
        ghost var text := DefaultTag(line, q, now < 0) + line[q..p - 3 + if lineFeed then 1 else 0];
        LastStep(before, logged, text, LEN);
        AddTwice(old(loggedChars), |logged|, |text|);
        AheadStep(line, level, q, p - 3, lineFeed, now, logged);
        logged := logged + text;
        assert lineFeed ==> buf[p + 1..end] == rest[p - 2 - q..] == line[p - 2..];
        p := p + 1;
      }
      AheadEnd(line, level, p - 3, msgLevel, logged);
    }

    /** A message that is logged in two calls, which the cut at k separates outside of tags. */
    method PrintPieces(line: string, k: nat)
      requires Valid() && |line| <= BUF_SIZE - 4 && '\0' !in line
      requires k <= |line| && !CutsTag(line, 0, msgLevel < 0, k)
      modifies buf, logBuf, this`logStart, this`logSize, this`loggedChars, this`msgLevel
      ensures Valid() && msgLevel == LevelAfter(line, 0, old(msgLevel))
      ensures var text := Tagged(line, 0, old(msgLevel) < 0);
              && Contents() == Last(old(Contents()) + text, LEN)
              && loggedChars == Add(old(loggedChars), |text|)
    {
      hide Last, Add, Tagged, LevelAfter, CutsTag, Buffer.Contents;
      ghost var before, level, chars := Contents(), msgLevel, loggedChars;
      PiecesLeaveTheSame(line, level, k);
      var n := Printk(line[..k]);
      ghost var front := Tagged(line[..k], 0, level < 0);
      LastStep(before, front, Tagged(line[k..], 0, msgLevel < 0), LEN);
      AddTwice(chars, |front|, |Tagged(line[k..], 0, msgLevel < 0)|);
      n := Printk(line[k..]);
    }

    /** "log show" prints the ring, except that the size mask makes it print nothing of a full one. */
    method Show() returns (out: string)
      requires Valid()
      ensures out == if logSize < LEN then Contents() else ""
    {
      hide Ring, Cell, Index, Masked;
      out := "";
      RingPrefix(logBuf[..], logStart, 0);
      for i := 0 to Masked(logSize)
        invariant out == Ring(logBuf[..], logStart, i)
      {
        RingPrefix(logBuf[..], logStart, i);
        out := out + [logBuf[Index(logStart, i)]];
      }
    }
  }
}
