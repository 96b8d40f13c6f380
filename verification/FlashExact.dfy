/** Plans on a flash of ascending banks without gaps: exactly the requested range is selected. */
module FlashExact {
  import opened CString
  import opened FlashRanges
  import opened FlashSafety

  ghost predicate Contiguous(banks: seq<Bank>) {
    && banks != [] && ValidBanks(banks)
    && (forall k :: 0 <= k < |banks| ==> banks[k].known)
    && (forall k :: 0 <= k < |banks| - 1 ==> banks[k + 1].start[0] == banks[k].End() + 1)
  }

  function Top(banks: seq<Bank>): int
    requires banks != [] && banks[|banks| - 1].start != []
  {
    banks[|banks| - 1].End()
  }

  /** The address belongs to a selected sector of the banks from the k-th on. */
  predicate Covers(banks: seq<Bank>, k: nat, sels: seq<Sel>, a: int)
    requires k + |sels| == |banks|
    requires forall i :: 0 <= i < |sels| && sels[i].Sel? ==> sels[i].f <= sels[i].l < |banks[k + i].start|
    decreases |sels|
  {
    sels != [] && (InSel(banks[k], sels[0], a) || Covers(banks, k + 1, sels[1..], a))
  }

  predicate InSel(b: Bank, sel: Sel, a: int)
    requires sel.Sel? ==> sel.f <= sel.l < |b.start|
  {
    sel.Sel? && b.start[sel.f] <= a <= b.SectorEnd(sel.l)
  }

  predicate StartsSector(b: Bank, a: int) {
    exists i :: 0 <= i < |b.start| && b.start[i] == a
  }

  predicate EndsSector(b: Bank, a: int) {
    exists i :: 0 <= i < |b.start| && b.SectorEnd(i) == a
  }

  /** Sectors among the first n of a bank that lie inside a range. */
  function SectorsOf(b: Bank, n: nat, lo: int, hi: int): nat
    requires n <= |b.start|
  {
    if n == 0 then 0
    else SectorsOf(b, n - 1, lo, hi) + if lo <= b.start[n - 1] && b.SectorEnd(n - 1) <= hi then 1 else 0
  }

  /** Sectors of the banks from the k-th on that lie inside a range. */
  function SectorsIn(banks: seq<Bank>, k: nat, lo: int, hi: int): nat
    requires k <= |banks|
    decreases |banks| - k
  {
    if k == |banks| then 0 else SectorsOf(banks[k], |banks[k].start|, lo, hi) + SectorsIn(banks, k + 1, lo, hi)
  }

  lemma EndOrder(b: Bank, l: nat, i: nat)
    requires b.Valid() && l < |b.start| && i < |b.start|
    ensures i <= l ==> b.SectorEnd(i) <= b.SectorEnd(l)
    ensures i > l ==> b.SectorEnd(l + 1) <= b.SectorEnd(i)
  {
  }

  lemma {:induction false} SectorsBetween(b: Bank, n: nat, f: nat, l: nat, lo: int, hi: int)
    requires b.Valid() && n <= |b.start| && f <= l < |b.start| && lo == b.start[f]
    requires b.SectorEnd(l) <= hi && (l + 1 < |b.start| ==> hi < b.SectorEnd(l + 1))
    ensures SectorsOf(b, n, lo, hi) == if n <= f then 0 else if n <= l + 1 then n - f else l + 1 - f
  {
    if n > 0 {
      SectorsBetween(b, n - 1, f, l, lo, hi);
      SectorOrder(b, n - 1, n - 1);
      EndOrder(b, l, n - 1);
    }
  }

  lemma {:induction false} NoSectors(b: Bank, n: nat, lo: int, hi: int)
    requires b.Valid() && n <= |b.start| && (b.End() < lo || hi < b.start[0])
    ensures SectorsOf(b, n, lo, hi) == 0
  {
    if n > 0 {
      NoSectors(b, n - 1, lo, hi);
      SectorOrder(b, 0, n - 1);
    }
  }

  // ---- one bank

  lemma EndBefore(b: Bank, i: nat, j: nat)
    requires b.Valid() && i < j < |b.start|
    ensures b.SectorEnd(i) < b.start[j]
  {
  }

  lemma EndAscends(b: Bank, l: nat)
    requires b.Valid() && l + 1 < |b.start|
    ensures b.SectorEnd(l) < b.SectorEnd(l + 1)
  {
  }

  /** A bank that the plan enters at the start of a sector. */
  lemma EnterBank(b: Bank, cur: nat, last: nat)
    requires b.Valid() && StartsSector(b, cur) && cur <= last
    ensures var r := PlanBank(b, cur, last);
            if last > b.End() then r.Take? && r.l == |b.start| - 1 && b.SectorEnd(r.l) == b.End() && b.start[r.f] == cur
            else if EndsSector(b, last) then r.Take? && b.SectorEnd(r.l) == last && b.start[r.f] == cur
            else r == Error
    ensures PlanBank(b, cur, last).Take? ==>
              var r := PlanBank(b, cur, last); SectorsOf(b, |b.start|, cur, last) == r.l - r.f + 1
    ensures cur <= b.End()
  {
    var n := |b.start|;
    var f, l := FirstAt(b, cur, n), LastAt(b, last, n);
    SectorOrder(b, f, f);
    if l >= 0 {
      SectorOrder(b, l, l);
      if l < f {
        SectorOrder(b, l, f);
        EndBefore(b, l, f);
      }
    }
    WholeEnd(b);
    var r := PlanBank(b, cur, last);
    if r.Take? {
      if r.l + 1 < n {
        EndAscends(b, r.l);
      }
      SectorsBetween(b, n, r.f, r.l, cur, last);
    }
  }

  /** A bank that ends in front of the range. */
  lemma BankBelow(b: Bank, cur: nat, last: nat)
    requires b.Valid() && b.End() < cur <= last
    ensures PlanBank(b, cur, last) == Skip
  {
    var n := |b.start|;
    var f, l := FirstAt(b, cur, n), LastAt(b, last, n);
    if f >= 0 {
      SectorOrder(b, f, f);
    }
    if l >= 0 {
      SectorOrder(b, l, l);
    }
  }

  /** Some bank from the k-th on has a sector that ends here. */
  predicate EndsFrom(banks: seq<Bank>, k: nat, a: int) {
    exists i :: k <= i < |banks| && EndsSector(banks[i], a)
  }

  lemma {:induction false} BanksAscend(banks: seq<Bank>, i: nat, j: nat)
    requires Contiguous(banks) && i < j < |banks|
    ensures banks[i].End() < banks[j].start[0] <= banks[j].End() <= Top(banks)
    decreases |banks| - i
  {
    WholeEnd(banks[i + 1]);
    if i + 1 < j {
      BanksAscend(banks, i + 1, j);
    } else if j + 1 < |banks| {
      BanksAscend(banks, j, |banks| - 1);
    }
  }

  lemma {:induction false} CountFront(sel: Sel, sels: seq<Sel>)
    requires sel.Sel? ==> sel.f <= sel.l
    requires forall i :: 0 <= i < |sels| && sels[i].Sel? ==> sels[i].f <= sels[i].l
    ensures Count([sel] + sels) == Count([sel]) + Count(sels)
  {
    if sels == [] {
      assert [sel] + sels == [sel];
    } else {
      var n := |sels| - 1;
      assert ([sel] + sels)[..n + 1] == [sel] + sels[..n];
      CountFront(sel, sels[..n]);
    }
  }

  lemma CountOne(sel: Sel)
    requires sel.Sel? ==> sel.f <= sel.l
    ensures Count([sel]) == match sel case None => 0 case Sel(f, l) => l - f + 1
  {
    assert [sel][..0] == [];
  }

  /** What the plan from the k-th bank on achieves for one address. */
  ghost predicate Exact(banks: seq<Bank>, k: nat, cur: nat, last: nat, a: int)
    requires Contiguous(banks) && k <= |banks|
  {
    var r := PlanFrom(banks, k, cur, last);
    && r.Planned? == EndsFrom(banks, k, last)
    && (r.Planned? ==> (Covers(banks, k, r.sels, a) <==> cur <= a <= last))
    && (r.Planned? ==> Count(r.sels) == SectorsIn(banks, k, cur, last))
  }

  lemma EndsHere(banks: seq<Bank>, k: nat, last: int)
    requires k < |banks| && EndsSector(banks[k], last)
    ensures EndsFrom(banks, k, last)
  {
    hide EndsSector;
  }

  /** The next bank starts right behind this one. */
  lemma NextBank(banks: seq<Bank>, k: nat)
    requires Contiguous(banks) && k + 1 < |banks|
    ensures banks[k + 1].start != [] && banks[k + 1].start[0] == banks[k].End() + 1
    ensures StartsSector(banks[k + 1], banks[k].End() + 1)
  {
    assert banks[k + 1].start[0] == banks[k].End() + 1;
  }

  /** The plan for one entered bank, and the plan behind it. */
  lemma {:induction false} BankStep(banks: seq<Bank>, k: nat, cur: nat, last: nat, f: nat, l: nat, a: int)
    requires Contiguous(banks) && k < |banks| && cur <= last && f <= l < |banks[k].start|
    requires PlanBank(banks[k], cur, last) == Take(f, l) && banks[k].start[f] == cur
    ensures var r, rest := PlanFrom(banks, k, cur, last), PlanFrom(banks, k + 1, Behind(banks[k], l), last);
            && r.Planned? == rest.Planned?
            && (r.Planned? ==> (Covers(banks, k, r.sels, a)
                                <==> cur <= a <= banks[k].SectorEnd(l) || Covers(banks, k + 1, rest.sels, a)))
            && (r.Planned? ==> Count(r.sels) == l - f + 1 + Count(rest.sels))
  {
    hide PlanBank, PlanFrom, Count, Bank.Valid, Bank.SectorEnd, Behind;
    PlanTail(banks, k, cur, last);
    var r := PlanFrom(banks, k, cur, last);
    if r.Planned? {
      assert r.sels == [Sel(f, l)] + r.sels[1..];
      CountFront(Sel(f, l), r.sels[1..]);
      CountOne(Sel(f, l));
    }
  }

  lemma FailStep(banks: seq<Bank>, k: nat, cur: nat, last: nat)
    requires Contiguous(banks) && k < |banks| && cur <= last && PlanBank(banks[k], cur, last) == Error
    ensures PlanFrom(banks, k, cur, last) == Failed
  {
    hide PlanBank;
  }

  lemma PlanBehind(banks: seq<Bank>, k: nat, first: nat, last: nat)
    requires ValidBanks(banks) && k <= |banks| && (k == |banks| || first > last)
    ensures PlanFrom(banks, k, first, last) == Planned(seq(|banks| - k, _ => None))
  {
    hide PlanBank, Behind;
  }

  lemma {:induction false} NonesCover(banks: seq<Bank>, k: nat, a: int)
    requires k <= |banks|
    ensures !Covers(banks, k, seq(|banks| - k, _ => None), a)
    decreases |banks| - k
  {
    if k < |banks| {
      assert seq(|banks| - k, _ => None)[1..] == seq(|banks| - k - 1, _ => None);
      NonesCover(banks, k + 1, a);
    }
  }

  lemma NoCount()
    ensures Count([]) == 0
  {
  }

  /** Behind the end of the range the plan selects nothing. */
  lemma NothingLeft(banks: seq<Bank>, k: nat, last: nat, a: int)
    requires Contiguous(banks) && k < |banks| && last <= banks[k].End()
    ensures var rest := PlanFrom(banks, k + 1, (last + 1) % U32, last);
            rest.Planned? && !Covers(banks, k + 1, rest.sels, a) && Count(rest.sels) == 0
  {
    hide PlanFrom, Covers, Count, Bank.Valid;
    var rest := seq(|banks| - k - 1, _ => None);
    if k + 1 < |banks| {
      BanksAscend(banks, k, k + 1);
      WholeEnd(banks[k + 1]);
    }
    PlanBehind(banks, k + 1, (last + 1) % U32, last);
    NonesCover(banks, k + 1, a);
    CountNones([], |banks| - k - 1);
    NoCount();
    assert [] + rest == rest;
  }

  lemma EndsLater(banks: seq<Bank>, k: nat, last: nat)
    requires Contiguous(banks) && k < |banks| && last > banks[k].End()
    ensures EndsFrom(banks, k, last) == EndsFrom(banks, k + 1, last)
  {
    if EndsSector(banks[k], last) {
      var i :| 0 <= i < |banks[k].start| && banks[k].SectorEnd(i) == last;
      SectorOrder(banks[k], i, i);
    }
  }

  lemma EndsInside(banks: seq<Bank>, k: nat, last: nat)
    requires Contiguous(banks) && k < |banks| && last <= banks[k].End() && !EndsSector(banks[k], last)
    ensures !EndsFrom(banks, k, last)
  {
    if EndsFrom(banks, k, last) {
      var i :| k <= i < |banks| && EndsSector(banks[i], last);
      var j :| 0 <= j < |banks[i].start| && banks[i].SectorEnd(j) == last;
      BanksAscend(banks, k, i);
      SectorOrder(banks[i], 0, j);
    }
  }

  lemma {:induction false} SameSectors(b: Bank, n: nat, lo: int, lo': int, hi: int)
    requires b.Valid() && n <= |b.start| && lo <= lo' <= b.start[0]
    ensures SectorsOf(b, n, lo, hi) == SectorsOf(b, n, lo', hi)
  {
    if n > 0 {
      SameSectors(b, n - 1, lo, lo', hi);
      SectorOrder(b, 0, n - 1);
    }
  }

  lemma {:induction false} LaterSectors(banks: seq<Bank>, k: nat, lo: int, lo': int, hi: int)
    requires Contiguous(banks) && k <= |banks| && lo <= lo' && (k < |banks| ==> lo' <= banks[k].start[0])
    ensures SectorsIn(banks, k, lo, hi) == SectorsIn(banks, k, lo', hi)
    decreases |banks| - k
  {
    if k < |banks| {
      SameSectors(banks[k], |banks[k].start|, lo, lo', hi);
      if k + 1 < |banks| {
        BanksAscend(banks, k, k + 1);
        WholeEnd(banks[k]);
      }
      LaterSectors(banks, k + 1, lo, lo', hi);
    }
  }

  lemma {:induction false} NoLaterSectors(banks: seq<Bank>, k: nat, lo: int, hi: int)
    requires Contiguous(banks) && 0 < k <= |banks| && hi <= banks[k - 1].End()
    ensures SectorsIn(banks, k, lo, hi) == 0
    decreases |banks| - k
  {
    if k < |banks| {
      BanksAscend(banks, k - 1, k);
      NoSectors(banks[k], |banks[k].start|, lo, hi);
      NoLaterSectors(banks, k + 1, lo, hi);
    }
  }

  /** The k-th bank has been entered; what is left continues at the next bank. */
  lemma {:induction false} RunFrom(banks: seq<Bank>, k: nat, cur: nat, last: nat, a: int)
    requires Contiguous(banks) && k < |banks| && StartsSector(banks[k], cur) && cur <= last <= Top(banks)
    ensures Exact(banks, k, cur, last, a)
    decreases |banks| - k
  {
    hide PlanBank, PlanFrom, Covers, Count, SectorsOf, Bank.Valid, Bank.SectorEnd, StartsSector, EndsSector, EndsFrom;
    var b := banks[k];
    EnterBank(b, cur, last);
    WholeEnd(b);
    WholeEnd(banks[|banks| - 1]);
    if last > b.End() {
      var t := PlanBank(b, cur, last);
      BankStep(banks, k, cur, last, t.f, t.l, a);
      NextBank(banks, k);
      RunFrom(banks, k + 1, b.End() + 1, last, a);
      LaterSectors(banks, k + 1, cur, b.End() + 1, last);
      EndsLater(banks, k, last);
    } else if EndsSector(b, last) {
      var t := PlanBank(b, cur, last);
      BankStep(banks, k, cur, last, t.f, t.l, a);
      NothingLeft(banks, k, last, a);
      NoLaterSectors(banks, k + 1, cur, last);
      EndsHere(banks, k, last);
    } else {
      FailStep(banks, k, cur, last);
      EndsInside(banks, k, last);
    }
  }

  // ---- the whole plan

  /** Success as flash_sect_erase takes it: no error and at least one sector. */
  ghost predicate Succeeds(banks: seq<Bank>, first: nat, last: nat)
    requires ValidBanks(banks)
  {
    PlanFrom(banks, 0, first, last).Planned? && Count(PlanFrom(banks, 0, first, last).sels) > 0
  }

  predicate StartsAny(banks: seq<Bank>, a: int) {
    exists i :: 0 <= i < |banks| && StartsSector(banks[i], a)
  }

  lemma StartInBank(b: Bank, a: int)
    requires b.Valid() && StartsSector(b, a)
    ensures b.start[0] <= a <= b.End()
  {
    var i :| 0 <= i < |b.start| && b.start[i] == a;
    SectorOrder(b, i, i);
  }

  lemma SkipCount(r: Plan)
    requires r.Planned? ==> r.sels != []
    requires r.Planned? ==> forall i :: 0 <= i < |r.sels| && r.sels[i].Sel? ==> r.sels[i].f <= r.sels[i].l
    ensures r.Planned? && r.sels[0] == None ==> Count(r.sels) == Count(r.sels[1..])
  {
    if r.Planned? && r.sels[0] == None {
      assert r.sels == [None] + r.sels[1..];
      CountFront(None, r.sels[1..]);
      CountOne(None);
    }
  }

  /** Banks in front of the one that the range starts in are passed over. */
  lemma {:induction false} ReachBank(banks: seq<Bank>, k: nat, m: nat, first: nat, last: nat, a: int)
    requires Contiguous(banks) && k <= m < |banks| && StartsSector(banks[m], first) && first <= last <= Top(banks)
    ensures Exact(banks, k, first, last, a)
    decreases m - k
  {
    hide PlanBank, PlanFrom, Count, SectorsOf, Bank.Valid, Bank.SectorEnd, StartsSector, EndsSector, EndsFrom;
    if k == m {
      RunFrom(banks, k, first, last, a);
    } else {
      BanksAscend(banks, k, m);
      StartInBank(banks[m], first);
      BankBelow(banks[k], first, last);
      PlanTail(banks, k, first, last);
      ReachBank(banks, k + 1, m, first, last, a);
      NoSectors(banks[k], |banks[k].start|, first, last);
      EndsLater(banks, k, last);
      SkipCount(PlanFrom(banks, k, first, last));
    }
  }

  lemma NotEntered(b: Bank, first: nat, last: nat)
    requires b.Valid()
    ensures !StartsSector(b, first) ==> !PlanBank(b, first, last).Take?
  {
    var f := FirstAt(b, first, |b.start|);
  }

  /** Without a sector start nothing is ever selected. */
  lemma {:induction false} NeverEntered(banks: seq<Bank>, k: nat, first: nat, last: nat)
    requires Contiguous(banks) && k <= |banks| && !StartsAny(banks, first)
    ensures var r := PlanFrom(banks, k, first, last); r.Planned? ==> Count(r.sels) == 0
    decreases |banks| - k
  {
    hide StartsSector, Bank.Valid, Bank.SectorEnd, Count;
    if k == |banks| || first > last {
      CountNones([], |banks| - k);
      assert [] + seq(|banks| - k, _ => None) == seq(|banks| - k, _ => None);
      NoCount();
    } else {
      NotEntered(banks[k], first, last);
      assert !StartsSector(banks[k], first);
      NeverEntered(banks, k + 1, first, last);
      SkipCount(PlanFrom(banks, k, first, last));
    }
  }

  lemma {:induction false} CoverCount(banks: seq<Bank>, k: nat, sels: seq<Sel>, a: int)
    requires k + |sels| == |banks|
    requires forall i :: 0 <= i < |sels| && sels[i].Sel? ==> sels[i].f <= sels[i].l < |banks[k + i].start|
    ensures Covers(banks, k, sels, a) ==> Count(sels) > 0
    decreases |sels|
  {
    hide Count;
    if sels != [] {
      CoverCount(banks, k + 1, sels[1..], a);
      assert sels == [sels[0]] + sels[1..];
      CountFront(sels[0], sels[1..]);
      CountOne(sels[0]);
    }
  }

  /** A covered address means that at least one sector is counted. */
  lemma CoveredIsCounted(banks: seq<Bank>, first: nat, last: nat)
    requires Contiguous(banks)
    ensures var r := PlanFrom(banks, 0, first, last);
            r.Planned? && Covers(banks, 0, r.sels, first) ==> Count(r.sels) > 0
  {
    hide PlanFrom, Covers, Count;
    var r := PlanFrom(banks, 0, first, last);
    if r.Planned? {
      CoverCount(banks, 0, r.sels, first);
    }
  }

  /** Sector planning is exact: it succeeds if and only if the range starts at a
      sector start and ends at a sector end; the selected sectors are then the
      requested range, and s_count is the number of its sectors. */
  lemma {:induction false} PlanIsExact(banks: seq<Bank>, first: nat, last: nat, a: int)
    requires Contiguous(banks) && first <= last <= Top(banks)
    ensures Succeeds(banks, first, last) <==> StartsAny(banks, first) && EndsFrom(banks, 0, last)
    ensures Succeeds(banks, first, last) ==>
              var sels := PlanFrom(banks, 0, first, last).sels;
              (Covers(banks, 0, sels, a) <==> first <= a <= last) && Count(sels) == SectorsIn(banks, 0, first, last)
  {
    hide PlanFrom, Covers, Count, SectorsIn, StartsSector, EndsFrom;
    if StartsAny(banks, first) {
      var m :| 0 <= m < |banks| && StartsSector(banks[m], first);
      ReachBank(banks, 0, m, first, last, a);
      ReachBank(banks, 0, m, first, last, first);
      CoveredIsCounted(banks, first, last);
    } else {
      NeverEntered(banks, 0, first, last);
    }
  }
}
