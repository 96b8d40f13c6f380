/** The sorted insertion of cmd_jffs2.c: it keeps every partition, and on a list that is in
    order already it turns the runs of equal offsets around. */
module MtdSort {
  import opened CString
  import opened MtdGrammar

  ghost predicate Ascending(parts: seq<Part>) {
    forall i, j :: 0 <= i < j < |parts| ==> parts[i].offset <= parts[j].offset
  }

  ghost predicate StrictlyAscending(parts: seq<Part>) {
    forall i, j :: 0 <= i < j < |parts| ==> parts[i].offset < parts[j].offset
  }

  ghost predicate Different(parts: seq<Part>) {
    forall i, j :: 0 <= i < j < |parts| ==> parts[i] != parts[j]
  }

  /** In an ordered list, only the first partition starts at offset zero. */
  predicate OneAtZero(parts: seq<Part>) {
    |parts| >= 2 ==> parts[1].offset > 0
  }

  lemma {:induction false} InsertPosIs(offsets: seq<u32>, x: u32, k: nat)
    requires k <= |offsets|
    requires forall i :: 0 <= i < k ==> offsets[i] < x
    requires k < |offsets| ==> x <= offsets[k]
    ensures InsertPos(offsets, x) == k
  {
    if k > 0 {
      InsertPosIs(offsets[1..], x, k - 1);
    }
  }

  // ---- sorting loses nothing

  lemma InsertAscending(parts: seq<Part>, part: Part, k: nat)
    requires Ascending(parts) && k == InsertPos(Offsets(parts), part.offset)
    ensures Ascending(parts[..k] + [part] + parts[k..])
    ensures OneAtZero(parts) && !Rejected(Offsets(parts), part.offset) ==> OneAtZero(parts[..k] + [part] + parts[k..])
  {
    hide InsertPos;
    assert forall i :: 0 <= i < |parts| ==> Offsets(parts)[i] == parts[i].offset;
    var r := parts[..k] + [part] + parts[k..];
    forall i, j | 0 <= i < j < |r| ensures r[i].offset <= r[j].offset {
      assert r[i] == if i < k then parts[i] else if i == k then part else parts[i - 1];
      assert r[j] == if j < k then parts[j] else if j == k then part else parts[j - 1];
    }
  }

  lemma InsertKeeps(parts: seq<Part>, part: Part)
    requires Ascending(parts) && OneAtZero(parts) && !Rejected(Offsets(parts), part.offset)
    ensures var k := InsertPos(Offsets(parts), part.offset);
            var r := parts[..k] + [part] + parts[k..];
            multiset(r) == multiset(parts) + multiset{part} && Ascending(r) && OneAtZero(r)
  {
    hide Ascending;
    var k := InsertPos(Offsets(parts), part.offset);
    assert parts == parts[..k] + parts[k..];
    InsertAscending(parts, part, k);
  }

  lemma NoneAscending()
    ensures Ascending([]) && OneAtZero([])
  {
  }

  /** Sorting rearranges the partitions and loses none; the result has one partition at zero at most. */
  lemma {:induction false} SortPermutes(parts: seq<Part>)
    ensures SortParts(parts).Good? ==>
              var r := SortParts(parts).value;
              multiset(r) == multiset(parts) && Ascending(r) && OneAtZero(r)
  {
    hide InsertPos, Offsets, Ascending, OneAtZero, Rejected;
    if parts == [] {
      NoneAscending();
    } else {
      var n := |parts| - 1;
      SortPermutes(parts[..n]);
      assert parts == parts[..n] + [parts[n]];
      var init := SortParts(parts[..n]);
      if init.Good? && !Rejected(Offsets(init.value), parts[n].offset) {
        InsertKeeps(init.value, parts[n]);
      }
    }
  }

  // ---- sorting an ordered list

  /** First and last entry of the run of equal offsets around the i-th one. */
  function RunStart(parts: seq<Part>, i: nat): (a: nat)
    requires i < |parts|
    ensures a <= i && forall j :: a <= j <= i ==> parts[j].offset == parts[i].offset
    ensures a > 0 ==> parts[a - 1].offset != parts[i].offset
  {
    if i > 0 && parts[i - 1].offset == parts[i].offset then RunStart(parts, i - 1) else i
  }

  function RunEnd(parts: seq<Part>, i: nat): (b: nat)
    requires i < |parts|
    ensures i <= b < |parts| && forall j :: i <= j <= b ==> parts[j].offset == parts[i].offset
    ensures b < |parts| - 1 ==> parts[b + 1].offset != parts[i].offset
    decreases |parts| - i
  {
    if i < |parts| - 1 && parts[i + 1].offset == parts[i].offset then RunEnd(parts, i + 1) else i
  }

  /** The entry as far from the end of the run as the i-th one is from its start. */
  function Opposite(parts: seq<Part>, i: nat): (j: nat)
    requires i < |parts|
    ensures j < |parts| && parts[j].offset == parts[i].offset
  {
    RunStart(parts, i) + RunEnd(parts, i) - i
  }

  function RunsReversed(parts: seq<Part>): (r: seq<Part>)
    ensures |r| == |parts|
  {
    seq(|parts|, i requires 0 <= i < |parts| => parts[Opposite(parts, i)])
  }

  lemma ReversedAt(parts: seq<Part>, i: nat)
    requires i < |parts|
    ensures RunsReversed(parts)[i] == parts[Opposite(parts, i)] && RunsReversed(parts)[i].offset == parts[i].offset
  {
    hide Opposite;
  }

  lemma ReversedOffsets(parts: seq<Part>)
    ensures Offsets(RunsReversed(parts)) == Offsets(parts)
  {
    hide RunsReversed;
    forall i | 0 <= i < |parts| ensures RunsReversed(parts)[i].offset == parts[i].offset {
      ReversedAt(parts, i);
    }
  }

  /** A run is determined by an entry of it. */
  lemma RunIs(parts: seq<Part>, i: nat, a: nat, b: nat, c: nat, d: nat)
    requires i < |parts| && a <= i <= b < |parts| && c <= i <= d < |parts|
    requires forall j :: a <= j <= b || c <= j <= d ==> parts[j].offset == parts[i].offset
    requires a > 0 ==> parts[a - 1].offset != parts[i].offset
    requires c > 0 ==> parts[c - 1].offset != parts[i].offset
    requires b < |parts| - 1 ==> parts[b + 1].offset != parts[i].offset
    requires d < |parts| - 1 ==> parts[d + 1].offset != parts[i].offset
    ensures a == c && b == d
  {
  }

  lemma OppositeIs(parts: seq<Part>, i: nat, c: nat, d: nat)
    requires c <= i <= d < |parts| && forall j :: c <= j <= d ==> parts[j].offset == parts[i].offset
    requires c > 0 ==> parts[c - 1].offset != parts[i].offset
    requires d < |parts| - 1 ==> parts[d + 1].offset != parts[i].offset
    ensures Opposite(parts, i) == c + d - i
  {
    hide RunStart, RunEnd;
    RunIs(parts, i, RunStart(parts, i), RunEnd(parts, i), c, d);
  }

  /** The opposite entries when a last one joins the run that starts at k. */
  lemma OppositeSnoc(parts: seq<Part>, k: nat, i: nat)
    requires |parts| > 0 && Ascending(parts) && k < |parts| && i < |parts|
    requires forall j :: 0 <= j < |parts| ==> (parts[j].offset == parts[|parts| - 1].offset <==> k <= j)
    ensures var n := |parts| - 1;
            && (i < k ==> Opposite(parts, i) == Opposite(parts[..n], i) < n)
            && (k <= i ==> Opposite(parts, i) == k + n - i)
            && (k < i ==> Opposite(parts[..n], i - 1) == k + n - i < n)
  {
    hide RunStart, RunEnd, Opposite, Ascending;
    var n := |parts| - 1;
    if i < k {
      var c, d := RunStart(parts[..n], i), RunEnd(parts[..n], i);
      assert parts[..n][d] == parts[d] && d < k;
      assert d < n - 1 ==> parts[..n][d + 1] == parts[d + 1];
      OppositeIs(parts[..n], i, c, d);
      OppositeIs(parts, i, c, d);
    } else {
      OppositeIs(parts, i, k, n);
      if k < i {
        OppositeIs(parts[..n], i - 1, k, n - 1);
      }
    }
  }

  lemma LastRun(parts: seq<Part>, k: nat)
    requires |parts| > 0 && Ascending(parts)
    requires k == InsertPos(Offsets(parts[..|parts| - 1]), parts[|parts| - 1].offset)
    ensures k < |parts|
    ensures forall j :: 0 <= j < |parts| ==> (parts[j].offset == parts[|parts| - 1].offset <==> k <= j)
  {
    hide InsertPos;
    assert forall i :: 0 <= i < |parts| - 1 ==> Offsets(parts[..|parts| - 1])[i] == parts[i].offset;
  }

  /** The last partition of an ordered list is inserted in front of its run. */
  lemma {:induction false} SnocReverses(parts: seq<Part>)
    requires |parts| > 0 && Ascending(parts)
    ensures var n := |parts| - 1;
            var r := RunsReversed(parts[..n]);
            var k := InsertPos(Offsets(r), parts[n].offset);
            RunsReversed(parts) == r[..k] + [parts[n]] + r[k..]
  {
    hide InsertPos, Opposite, Ascending, RunsReversed, Offsets;
    var n := |parts| - 1;
    var r := RunsReversed(parts[..n]);
    ReversedOffsets(parts[..n]);
    var k := InsertPos(Offsets(r), parts[n].offset);
    LastRun(parts, k);
    var all := r[..k] + [parts[n]] + r[k..];
    forall i | 0 <= i <= n ensures RunsReversed(parts)[i] == all[i] {
      assert all[i] == if i < k then r[i] else if i == k then parts[n] else r[i - 1];
      OppositeSnoc(parts, k, i);
      ReversedAt(parts, i);
      if i < k {
        ReversedAt(parts[..n], i);
      } else if i > k {
        ReversedAt(parts[..n], i - 1);
      }
    }
    assert RunsReversed(parts) == all;
  }

  lemma FrontAscending(parts: seq<Part>)
    requires |parts| > 0 && Ascending(parts)
    ensures Ascending(parts[..|parts| - 1])
  {
  }

  lemma ZeroSnoc(parts: seq<Part>)
    requires |parts| > 0 && Ascending(parts)
    ensures var n := |parts| - 1;
            OneAtZero(parts) <==>
              OneAtZero(parts[..n]) && !Rejected(Offsets(RunsReversed(parts[..n])), parts[n].offset)
  {
    hide RunsReversed;
    ReversedOffsets(parts[..|parts| - 1]);
  }

  /** Sorting a list that is in order turns its runs around, or fails for two partitions at zero. */
  lemma {:induction false} SortReverses(parts: seq<Part>)
    requires Ascending(parts)
    ensures SortParts(parts) == if OneAtZero(parts) then Good(RunsReversed(parts), 0) else Bad
  {
    hide InsertPos, RunsReversed, Ascending, OneAtZero, Rejected;
    if parts == [] {
      NoneAscending();
      assert RunsReversed(parts) == [];
    } else {
      var n := |parts| - 1;
      FrontAscending(parts);
      SortReverses(parts[..n]);
      SnocReverses(parts);
      ZeroSnoc(parts);
    }
  }

  lemma NoRuns(parts: seq<Part>)
    requires StrictlyAscending(parts)
    ensures RunsReversed(parts) == parts
  {
    hide RunStart, RunEnd;
    forall i | 0 <= i < |parts| ensures Opposite(parts, i) == i {
      RunIs(parts, i, RunStart(parts, i), RunEnd(parts, i), i, i);
    }
  }

  lemma InOneRun(parts: seq<Part>, i: nat, j: nat)
    requires Ascending(parts) && i < j < |parts| && parts[i].offset >= parts[j].offset
    ensures RunStart(parts, i) < RunEnd(parts, i)
  {
    hide RunStart, RunEnd;
    assert parts[i + 1].offset == parts[i].offset;
  }

  /** Two entries with one offset: the first of their run becomes another one. */
  lemma RunMoves(parts: seq<Part>, i: nat, j: nat)
    requires Ascending(parts) && i < j < |parts| && parts[i].offset >= parts[j].offset
    ensures exists a, b :: 0 <= a < b < |parts| && RunsReversed(parts)[a] == parts[b]
  {
    hide RunStart, RunEnd, RunsReversed;
    InOneRun(parts, i, j);
    var a, b := RunStart(parts, i), RunEnd(parts, i);
    RunIs(parts, a, RunStart(parts, a), RunEnd(parts, a), a, b);
    ReversedAt(parts, a);
    assert RunsReversed(parts)[a] == parts[b];
  }

  /** A list in strictly ascending order is kept, and of the ordered lists of different
      partitions no other one is. */
  lemma {:induction false} SortKeeps(parts: seq<Part>)
    requires Ascending(parts)
    ensures StrictlyAscending(parts) ==> SortParts(parts) == Good(parts, 0)
    ensures Different(parts) ==> (SortParts(parts) == Good(parts, 0) <==> StrictlyAscending(parts))
  {
    hide SortParts, RunsReversed;
    SortReverses(parts);
    if StrictlyAscending(parts) {
      assert |parts| >= 2 ==> parts[0].offset < parts[1].offset;
      NoRuns(parts);
    } else {
      var i, j :| 0 <= i < j < |parts| && parts[i].offset >= parts[j].offset;
      RunMoves(parts, i, j);
    }
  }
}
