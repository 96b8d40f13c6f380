/** Block numbers of the floppy read of cmd_fdc.c: tracks, heads, sectors, and byte positions. */
module Floppy {
  import opened Arithmetic
  import opened Words

  /** Geometry: sectors per track, heads, tracks, and bytes in a sector. */
  datatype Geometry = Geometry(sect: nat, heads: nat, tracks: nat, size: nat) {
    predicate Valid() {
      0 < sect < 256 && 0 < heads <= 2 && tracks <= 256 && 0 < size
    }
  }

  /** Place of a block: sectors count from one. */
  datatype Place = Place(track: nat, head: nat, sector: nat)

  function PlaceOf(g: Geometry, block: nat): Place
    requires g.Valid()
  {
    var all := Times(g.sect, g.heads);
    Place(Div(block, all), Div(Mod(block, all), g.sect), Mod(Mod(block, all), g.sect) + 1)
  }

  function BlockAt(g: Geometry, p: Place): int {
    Times(Times(p.track, g.heads) + p.head, g.sect) + p.sector - 1
  }

  /** Block numbers and places stand for each other. */
  lemma {:induction false} PlaceIsBlock(g: Geometry, block: nat)
    requires g.Valid()
    ensures var p := PlaceOf(g, block);
            && BlockAt(g, p) == block && p.head < g.heads && 1 <= p.sector <= g.sect
            && Mod(block, g.sect) == p.sector - 1
            && (block < Times(256, Times(g.sect, g.heads)) ==> p.track < 256)
  {
    hide Times, Div, Mod;
    var all, p := Times(g.sect, g.heads), PlaceOf(g, block);
    var rest := Mod(block, all);
    Quotient(block, all);
    Quotient(rest, g.sect);
    Commute(g.heads, g.sect);
    Below(rest, g.heads, g.sect);
    Associate(p.track, g.heads, g.sect);
    Distribute(Times(p.track, g.heads), p.head, g.sect);
    QuotientIs(block, g.sect, Times(p.track, g.heads) + p.head, p.sector - 1);
    Below(block, 256, all);
  }

  /** The block that is read for a block number: its number within 256 tracks. */
  function Truncated(g: Geometry, block: nat): nat
    requires g.Valid()
  {
    Mod(block, Times(256, Times(g.sect, g.heads)))
  }

  lemma TimesIs(a: nat, b: nat)
    ensures Times(a, b) == a * b
  {
  }

  /** The blocks of the tracks in front, and the block's number inside its track. */
  lemma TrackParts(g: Geometry, p: Place)
    requires g.Valid() && p.head < g.heads && 1 <= p.sector <= g.sect
    ensures var all := Times(g.sect, g.heads);
            Times(p.track, all) <= BlockAt(g, p) < Times(p.track, all) + all
    ensures BlockAt(g, p) - Times(p.track, Times(g.sect, g.heads)) == Times(p.head, g.sect) + p.sector - 1
  {
    hide Times;
    Distribute(Times(p.track, g.heads), p.head, g.sect);
    Associate(p.track, g.heads, g.sect);
    Commute(g.heads, g.sect);
    Monotone(p.head, g.heads, g.sect);
  }

  /** The track register has eight bits: beyond 256 tracks another block is addressed. */
  lemma {:induction false} TruncatedTrack(g: Geometry, block: nat)
    requires g.Valid()
    ensures var p := PlaceOf(g, block);
            BlockAt(g, p.(track := p.track % 256)) == Truncated(g, block)
  {
    hide Times, Div, Mod, PlaceOf, BlockAt;
    var all, p := Times(g.sect, g.heads), PlaceOf(g, block);
    var q, low := p.track / 256, p.track % 256;
    PlaceIsBlock(g, block);
    TrackParts(g, p);
    TrackParts(g, p.(track := low));
    // p.track * all == q * (256 * all) + low * all
    Distribute(q * 256, low, all);
    Commute(256, q);
    TimesIs(q, 256);
    Associate(q, 256, all);
    Monotone(low, 256, all);
    QuotientIs(block, Times(256, all), q, BlockAt(g, p.(track := low)));
  }

  lemma TimesNone(c: nat)
    ensures Times(0, c) == 0
  {
  }

  /** Up to 256 tracks, the block that is read is the block that was meant. */
  lemma Small(g: Geometry, block: nat)
    requires g.Valid() && block < Times(256, Times(g.sect, g.heads))
    ensures Truncated(g, block) == block
  {
    hide Times, Mod;
    var all := Times(256, Times(g.sect, g.heads));
    TimesNone(all);
    QuotientIs(block, all, 0, block);
  }

  /** Blocks of one head's track follow each other also in the track that is read. */
  lemma {:induction false} TruncatedNext(g: Geometry, block: nat, n: nat, j: nat)
    requires g.Valid() && Mod(block, g.sect) + n <= g.sect && j < n
    ensures Truncated(g, block + j) == Truncated(g, block) + j
    ensures Mod(Truncated(g, block), g.sect) == Mod(block, g.sect)
  {
    hide Times, Div, Mod;
    var tracks := Times(256, g.heads);
    var all := Times(256, Times(g.sect, g.heads));
    Commute(g.sect, g.heads);
    Associate(256, g.heads, g.sect);
    assert all == Times(tracks, g.sect);
    var low := Truncated(g, block);
    Quotient(block, all);
    Quotient(low, g.sect);
    // block == (Div(block, all) * tracks + Div(low, g.sect)) * g.sect + Mod(low, g.sect)
    Associate(Div(block, all), tracks, g.sect);
    Distribute(Times(Div(block, all), tracks), Div(low, g.sect), g.sect);
    QuotientIs(block, g.sect, Times(Div(block, all), tracks) + Div(low, g.sect), Mod(low, g.sect));
    Below(low, tracks, g.sect);
    Monotone(Div(low, g.sect), tracks, g.sect);
    QuotientIs(block + j, all, Div(block, all), low + j);
  }

  /** A stretch in front of a common end is the same in both. */
  lemma Inside(a: seq<byte>, b: seq<byte>, from: nat, to: nat, end: nat)
    requires from <= to <= end <= |a| == |b| && a[..end] == b[..end]
    ensures a[from..to] == b[from..to]
  {
    forall k | from <= k < to ensures a[k] == b[k] {
      assert a[k] == a[..end][k] && b[k] == b[..end][k];
    }
  }

  lemma Part(a: seq<byte>, i: nat, len: nat, x: nat, y: nat)
    requires x <= y <= len && i + len <= |a|
    ensures a[i..i + len][x..y] == a[i + x..i + y]
  {
    var s := a[i..i + len];
    assert forall k :: 0 <= k < y - x ==> s[x..y][k] == s[x + k] == a[i + (x + k)] == a[i + x..i + y][k];
  }

  /** A part of a stretch that was copied. */
  lemma Stretch(a: seq<byte>, b: seq<byte>, i: nat, j: nat, len: nat, x: nat, y: nat)
    requires x <= y <= len && i + len <= |a| && j + len <= |b| && a[i..i + len] == b[j..j + len]
    ensures a[i + x..i + y] == b[j + x..j + y]
  {
    Part(a, i, len, x, y);
    Part(b, j, len, x, y);
  }

  /** Byte positions of the blocks behind the first ones. */
  lemma Scaled(first: nat, done: nat, n: nat, size: nat)
    ensures Times(first + done, size) == Times(first, size) + Times(done, size)
    ensures Times(done + n, size) == Times(done, size) + Times(n, size)
    ensures Times(0, size) == 0
  {
    Distribute(first, done, size);
    Distribute(done, n, size);
  }

  /** Byte positions of the j-th of n blocks behind the first one. */
  lemma Spots(block: nat, n: nat, j: nat, size: nat)
    requires j < n
    ensures Times(block + j, size) == Times(block, size) + Times(j, size)
    ensures Times(block + j + 1, size) == Times(block, size) + Times(j + 1, size)
    ensures Times(j, size) <= Times(j + 1, size) <= Times(n, size)
  {
    hide Times;
    Distribute(block, j, size);
    Distribute(block, j + 1, size);
    Monotone(j, j + 1, size);
    Monotone(j + 1, n, size);
  }

  /** A transfer that reaches the end of a track goes on at the start of the next one. */
  lemma {:induction false} NextTrack(g: Geometry, block: nat, n: nat)
    requires g.Valid()
    ensures Mod(block, g.sect) + n == g.sect ==> Mod(block + n, g.sect) == 0
  {
    hide Times, Div, Mod;
    Quotient(block, g.sect);
    if Mod(block, g.sect) + n == g.sect {
      Distribute(Div(block, g.sect), 1, g.sect);
      TimesOne(g.sect);
      QuotientIs(block + n, g.sect, Div(block, g.sect) + 1, 0);
    }
  }

  /** Two stretches of the buffer that follow each other on the disk. */
  lemma Joined(buffer: seq<byte>, disk: seq<byte>, from: nat, offset: nat, len: nat)
    requires offset + len <= |buffer| && from + offset + len <= |disk|
    requires buffer[offset..offset + len] == disk[from + offset..from + offset + len]
    ensures offset == 0 || buffer[..offset] == disk[from..from + offset] ==>
              buffer[..offset + len] == disk[from..from + offset + len]
  {
    assert buffer[..offset + len] == buffer[..offset] + buffer[offset..offset + len];
    assert disk[from..from + offset + len] == disk[from..from + offset] + disk[from + offset..from + offset + len];
  }

  lemma NoProduct(a: nat, b: nat)
    requires 0 < b
    ensures Times(a, b) == 0 ==> a == 0
  {
  }
}
