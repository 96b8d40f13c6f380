/** What the sector plans of FlashRanges select. */
module FlashSafety {
  import opened FlashRanges

  /** The selection of one bank lies inside the range. */
  predicate Within(b: Bank, sel: Sel, first: int, last: int)
    requires sel.Sel? ==> sel.f <= sel.l < |b.start|
  {
    sel.Sel? ==> first <= b.start[sel.f] && b.SectorEnd(sel.l) <= last
  }

  /** Nothing outside the requested range is selected. */
  ghost predicate Safe(banks: seq<Bank>, first: nat, last: nat)
    requires ValidBanks(banks)
  {
    var r := PlanFrom(banks, 0, first, last);
    r.Planned? ==> forall i :: 0 <= i < |banks| ==> Within(banks[i], r.sels[i], first, last)
  }

  /** No bank ends at the last address while a later one starts at address zero. */
  ghost predicate NoWrap(banks: seq<Bank>) {
    forall j, k | 0 <= j < k < |banks| && banks[j].known && banks[k].known
                  && banks[j].start != [] && banks[k].start != [] ::
      !(banks[j].End() == MAX_ADDRESS && banks[k].start[0] == 0)
  }

  lemma SectorOrder(b: Bank, i: nat, j: nat)
    requires b.Valid() && i <= j < |b.start|
    ensures b.start[i] <= b.start[j] <= b.SectorEnd(j) <= b.End() <= MAX_ADDRESS
    ensures b.SectorEnd(j) == MAX_ADDRESS ==> b.End() == MAX_ADDRESS
  {
  }

  lemma TakeBounds(b: Bank, first: nat, last: nat)
    requires b.Valid() && first <= last && PlanBank(b, first, last).Take?
    ensures var t := PlanBank(b, first, last);
            && b.start[t.f] == first && first <= b.SectorEnd(t.l) <= last
            && (Behind(b, t.l) == b.SectorEnd(t.l) + 1 || (Behind(b, t.l) == 0 && b.End() == MAX_ADDRESS))
  {
    var t := PlanBank(b, first, last);
    SectorOrder(b, t.f, t.l);
  }

  lemma NoTakeAtZero(b: Bank, last: nat)
    requires b.Valid() && b.start[0] != 0
    ensures !PlanBank(b, 0, last).Take?
  {
    var f := FirstAt(b, 0, |b.start|);
  }

  /** Where a plan goes on behind the k-th bank. */
  function Next(banks: seq<Bank>, k: nat, cur: nat, last: nat): nat
    requires ValidBanks(banks) && k < |banks|
  {
    if banks[k].known && PlanBank(banks[k], cur, last).Take? then Behind(banks[k], PlanBank(banks[k], cur, last).l)
    else cur
  }

  /** What a plan takes of the k-th bank. */
  function Chosen(banks: seq<Bank>, k: nat, cur: nat, last: nat): Sel
    requires ValidBanks(banks) && k < |banks|
  {
    if banks[k].known && PlanBank(banks[k], cur, last).Take? then
      Sel(PlanBank(banks[k], cur, last).f, PlanBank(banks[k], cur, last).l)
    else None
  }

  /** One bank of a plan. */
  lemma PlanTail(banks: seq<Bank>, k: nat, cur: nat, last: nat)
    requires ValidBanks(banks) && k < |banks| && cur <= last
    ensures var r, rest := PlanFrom(banks, k, cur, last), PlanFrom(banks, k + 1, Next(banks, k, cur, last), last);
            && (r.Planned? <==> rest.Planned? && !(banks[k].known && PlanBank(banks[k], cur, last).Error?))
            && (r.Planned? ==> r.sels == [Chosen(banks, k, cur, last)] + rest.sels)
  {
    hide PlanBank, Behind, Bank.Valid;
  }

  lemma PlanOfNone(banks: seq<Bank>, cur: nat, last: nat)
    requires ValidBanks(banks)
    ensures PlanFrom(banks, |banks|, cur, last) == Planned([])
  {
  }

  /** Behind the last address nothing more is selected. */
  lemma {:induction false} NothingAtZero(banks: seq<Bank>, k: nat, last: nat)
    requires ValidBanks(banks) && k <= |banks|
    requires forall i :: k <= i < |banks| && banks[i].known ==> banks[i].start[0] != 0
    ensures var r := PlanFrom(banks, k, 0, last);
            r.Planned? ==> forall i :: 0 <= i < |r.sels| ==> r.sels[i] == None
    decreases |banks| - k
  {
    hide PlanBank, PlanFrom, Behind, Bank.Valid;
    if k < |banks| {
      if banks[k].known {
        NoTakeAtZero(banks[k], last);
      }
      PlanTail(banks, k, 0, last);
      NothingAtZero(banks, k + 1, last);
    } else {
      PlanOfNone(banks, 0, last);
    }
  }

  lemma NoLaterZero(banks: seq<Bank>, j: nat)
    requires ValidBanks(banks) && NoWrap(banks) && j < |banks| && banks[j].known && banks[j].Valid()
    ensures banks[j].End() == MAX_ADDRESS ==>
              forall i :: j + 1 <= i < |banks| && banks[i].known ==> banks[i].start[0] != 0
  {
  }

  lemma PastTheEnd(banks: seq<Bank>, k: nat, cur: nat, last: nat)
    requires ValidBanks(banks) && k <= |banks| && (k == |banks| || cur > last)
    ensures var r := PlanFrom(banks, k, cur, last); r.Planned? && forall i :: 0 <= i < |r.sels| ==> r.sels[i] == None
  {
  }

  lemma {:induction false} PlanIsSafe(banks: seq<Bank>, k: nat, cur: nat, last: nat)
    requires ValidBanks(banks) && NoWrap(banks) && k <= |banks|
    ensures var r := PlanFrom(banks, k, cur, last);
            r.Planned? ==> forall i :: 0 <= i < |r.sels| ==> Within(banks[k + i], r.sels[i], cur, last)
    decreases |banks| - k
  {
    hide PlanBank, PlanFrom, Behind, Bank.Valid, NoWrap;
    if k == |banks| || cur > last {
      PastTheEnd(banks, k, cur, last);
      return;
    }
    PlanTail(banks, k, cur, last);
    var step := if banks[k].known then PlanBank(banks[k], cur, last) else Skip;
    if step.Take? {
      TakeBounds(banks[k], cur, last);
    }
    var next := Next(banks, k, cur, last);
    if step.Take? && next == 0 {
      NoLaterZero(banks, k);
      NothingAtZero(banks, k + 1, last);
    } else {
      PlanIsSafe(banks, k + 1, next, last);
    }
  }

  lemma RangeIsSafe(banks: seq<Bank>, first: nat, last: nat)
    requires ValidBanks(banks) && NoWrap(banks)
    ensures Safe(banks, first, last)
  {
    hide PlanFrom, Bank.Valid, NoWrap, Within;
    PlanIsSafe(banks, 0, first, last);
  }

  /** Known banks do not overlap. */
  ghost predicate Disjoint(banks: seq<Bank>)
    requires ValidBanks(banks)
  {
    forall j, k :: 0 <= j < |banks| && 0 <= k < |banks| && j != k && banks[j].known && banks[k].known ==>
      banks[j].End() < banks[k].start[0] || banks[k].End() < banks[j].start[0]
  }

  /** The address is not inside any of the banks from the k-th on. */
  ghost predicate Outside(banks: seq<Bank>, k: nat, cur: nat)
    requires ValidBanks(banks)
  {
    forall i :: k <= i < |banks| && banks[i].known ==> cur <= banks[i].start[0] || banks[i].End() < cur
  }

  /** Up to the last address, a plan that enters banks only at their start takes them whole. */
  lemma WholeBank(b: Bank, cur: nat)
    requires b.Valid() && b.End() != MAX_ADDRESS && (cur <= b.start[0] || b.End() < cur)
    ensures PlanBank(b, cur, MAX_ADDRESS) == if cur == b.start[0] then Take(0, |b.start| - 1) else Skip
  {
    var n := |b.start|;
    var f, l := FirstAt(b, cur, n), LastAt(b, MAX_ADDRESS, n);
    if l >= 0 {
      SectorOrder(b, 0, l);
    }
    if f >= 0 {
      SectorOrder(b, 0, f);
      SectorOrder(b, f, n - 1);
    }
  }

  lemma WholeEnd(b: Bank)
    requires b.Valid()
    ensures b.start != []
    ensures b.SectorEnd(|b.start| - 1) == b.End() <= MAX_ADDRESS && b.start[0] <= b.End()
  {
    SectorOrder(b, 0, |b.start| - 1);
  }

  /** One bank is taken whole or skipped, and the plan goes on outside the remaining ones. */
  lemma NextOutside(banks: seq<Bank>, k: nat, cur: nat)
    requires ValidBanks(banks) && Disjoint(banks) && k < |banks| && cur <= MAX_ADDRESS && Outside(banks, k, cur)
    requires banks[k].known ==> banks[k].End() != MAX_ADDRESS
    ensures var b := banks[k];
            var next := Next(banks, k, cur, MAX_ADDRESS);
            && (b.known ==> PlanBank(b, cur, MAX_ADDRESS) == if cur == b.start[0] then Take(0, |b.start| - 1) else Skip)
            && (b.known && cur == b.start[0] ==> next == b.End() + 1)
            && (!(b.known && cur == b.start[0]) ==> next == cur)
            && next <= MAX_ADDRESS && Outside(banks, k + 1, next)
            && (b.known && cur == b.start[0] ==>
                  forall i :: k < i < |banks| && banks[i].known ==> banks[i].start[0] != cur)
  {
    hide PlanBank, Bank.Valid;
    forall i | k <= i < |banks| && banks[i].known
      ensures banks[i].start != [] && banks[i].start[0] <= banks[i].End()
    {
      WholeEnd(banks[i]);
    }
    if banks[k].known {
      WholeBank(banks[k], cur);
      WholeEnd(banks[k]);
    }
  }

  lemma {:induction false} NeverFails(banks: seq<Bank>, k: nat, cur: nat, i: nat)
    requires ValidBanks(banks) && Disjoint(banks) && k <= |banks| && cur <= MAX_ADDRESS && Outside(banks, k, cur)
    requires forall i :: k <= i < |banks| && banks[i].known ==> banks[i].End() != MAX_ADDRESS
    requires k <= i
    ensures PlanFrom(banks, k, cur, MAX_ADDRESS).Planned?
    ensures i < |banks| && banks[i].known && banks[i].start[0] == cur ==>
              PlanFrom(banks, k, cur, MAX_ADDRESS).sels[i - k] == Sel(0, |banks[i].start| - 1)
    decreases |banks| - k
  {
    hide PlanBank, Bank.Valid, PlanFrom, Outside, Disjoint, Next;
    if k == |banks| {
      PlanOfNone(banks, cur, MAX_ADDRESS);
    } else {
      NextOutside(banks, k, cur);
      PlanTail(banks, k, cur, MAX_ADDRESS);
      NeverFails(banks, k + 1, Next(banks, k, cur, MAX_ADDRESS), if i == k then k + 1 else i);
    }
  }

  /** The whole of a bank that ends at the last address: the plan goes on at address zero. */
  lemma TopBank(b: Bank)
    requires b.Valid() && b.End() == MAX_ADDRESS
    ensures PlanBank(b, b.start[0], MAX_ADDRESS) == Take(0, |b.start| - 1) && Behind(b, |b.start| - 1) == 0
  {
    var n := |b.start|;
    var f, l := FirstAt(b, b.start[0], n), LastAt(b, MAX_ADDRESS, n);
    assert b.start[0] == b.start[0] && b.SectorEnd(n - 1) == MAX_ADDRESS;
    assert forall i :: 0 <= i < n - 1 ==> b.SectorEnd(i) < b.start[i + 1] <= b.End();
  }

  /** Banks in front of the j-th are passed over. */
  lemma {:induction false} PassOver(banks: seq<Bank>, k: nat, j: nat)
    requires ValidBanks(banks) && Disjoint(banks) && k <= j < |banks| && banks[j].known && banks[j].End() == MAX_ADDRESS
    ensures var first := banks[j].start[0];
            var r := PlanFrom(banks, k, first, MAX_ADDRESS);
            var rest := PlanFrom(banks, j, first, MAX_ADDRESS);
            && r.Planned? == rest.Planned?
            && (r.Planned? ==> r.sels[j - k..] == rest.sels)
    decreases j - k
  {
    hide PlanBank, PlanFrom, Bank.SectorEnd, Behind;
    if k < j {
      if banks[k].known {
        WholeBank(banks[k], banks[j].start[0]);
      }
      PlanTail(banks, k, banks[j].start[0], MAX_ADDRESS);
      PassOver(banks, k + 1, j);
    }
  }

  lemma OneTopBank(banks: seq<Bank>, j: nat)
    requires ValidBanks(banks) && Disjoint(banks) && j < |banks| && banks[j].known && banks[j].End() == MAX_ADDRESS
    ensures forall i :: j + 1 <= i < |banks| && banks[i].known ==> banks[i].End() != MAX_ADDRESS
    ensures Outside(banks, j + 1, 0)
  {
    forall i | j + 1 <= i < |banks| && banks[i].known ensures banks[i].End() != MAX_ADDRESS {
      WholeEnd(banks[i]);
      WholeEnd(banks[j]);
    }
  }

  lemma WrapSelectsOutside(banks: seq<Bank>, j: nat, k: nat)
    requires ValidBanks(banks) && Disjoint(banks) && j < k < |banks| && banks[j].known && banks[k].known
    requires banks[j].End() == MAX_ADDRESS && banks[k].start[0] == 0
    ensures !Safe(banks, banks[j].start[0], MAX_ADDRESS)
  {
    hide PlanBank, PlanFrom, Behind;
    var first := banks[j].start[0];
    PassOver(banks, 0, j);
    TopBank(banks[j]);
    PlanTail(banks, j, first, MAX_ADDRESS);
    OneTopBank(banks, j);
    NeverFails(banks, j + 1, 0, k);
    var r := PlanFrom(banks, 0, first, MAX_ADDRESS);
    assert r.sels[j..][k - j] == Sel(0, |banks[k].start| - 1);
    assert !Within(banks[k], r.sels[k], first, MAX_ADDRESS);
  }

  /** For banks that do not overlap, plans are safe for every range exactly if no
      bank that ends at the last address comes before one at address zero. */
  lemma SafeLayout(banks: seq<Bank>)
    requires ValidBanks(banks) && Disjoint(banks)
    ensures NoWrap(banks) <==> forall first: nat, last: nat :: Safe(banks, first, last)
  {
    hide PlanBank, PlanFrom, Behind, Bank.Valid, Disjoint, Safe;
    if NoWrap(banks) {
      forall first: nat, last: nat ensures Safe(banks, first, last) {
        RangeIsSafe(banks, first, last);
      }
    } else {
      var j, k :| 0 <= j < k < |banks| && banks[j].known && banks[k].known
               && banks[j].start != [] && banks[k].start != []
                  && banks[j].End() == MAX_ADDRESS && banks[k].start[0] == 0;
      WrapSelectsOutside(banks, j, k);
    }
  }

  /** Two banks of one sector: the upper one ends the address space, and the lower one starts it. */
  const UPPER := Bank(true, [0xFFFF_0000], 0x1_0000)
  const LOWER := Bank(true, [0], 0x1_0000)

  /** With the upper one in front, a plan for it takes the lower one, too. */
  lemma UpperTakesLower()
    ensures UPPER.Valid() && LOWER.Valid()
    ensures PlanFrom([UPPER, LOWER], 0, 0xFFFF_0000, MAX_ADDRESS) == Planned([Sel(0, 0), Sel(0, 0)])
    ensures PlanFrom([LOWER, UPPER], 0, 0xFFFF_0000, MAX_ADDRESS) == Planned([None, Sel(0, 0)])
  {
    assert PlanBank(UPPER, 0xFFFF_0000, MAX_ADDRESS) == Take(0, 0) && Behind(UPPER, 0) == 0;
    assert PlanBank(LOWER, 0, MAX_ADDRESS) == Take(0, 0);
    assert PlanBank(LOWER, 0xFFFF_0000, MAX_ADDRESS) == Skip;
    hide PlanBank, Behind;
    assert PlanFrom([UPPER, LOWER], 2, 0x1_0000, MAX_ADDRESS) == Planned([]);
    assert PlanFrom([UPPER, LOWER], 1, 0, MAX_ADDRESS).Planned?;
    assert PlanFrom([LOWER, UPPER], 2, 0, MAX_ADDRESS) == Planned([]);
  }

  // ---- the end of the range

  /** Some bank from the k-th to the m-th is selected up to the last address of the range, or further. */
  predicate Reached(banks: seq<Bank>, k: nat, sels: seq<Sel>, m: nat, last: nat)
    requires k + |sels| == |banks|
    decreases |sels|
  {
    sels != [] && k <= m
    && ((sels[0].Sel? && sels[0].l < |banks[k].start| && last <= banks[k].SectorEnd(sels[0].l))
        || Reached(banks, k + 1, sels[1..], m, last))
  }

  lemma EndingBank(b: Bank, cur: nat, last: nat, j: nat)
    requires b.Valid() && cur <= last && j < |b.start| && b.SectorEnd(j) == last
    ensures var step := PlanBank(b, cur, last); step.Error? || (step.Take? && b.SectorEnd(step.l) == last)
  {
    assert LastAt(b, last, |b.start|) >= 0;
  }

  /** On any layout, a plan that gets past a bank with a sector that ends at the last address has reached that
      address: such a bank is never passed over in silence. */
  lemma {:induction false} EndIsReached(banks: seq<Bank>, k: nat, cur: nat, last: nat, m: nat, j: nat)
    requires ValidBanks(banks) && k <= m < |banks| && cur <= last && banks[m].known
    requires j < |banks[m].start| && banks[m].SectorEnd(j) == last
    ensures var r := PlanFrom(banks, k, cur, last); r.Planned? ==> Reached(banks, k, r.sels, m, last)
    decreases |banks| - k
  {
    hide Bank.Valid, PlanBank, PlanFrom, Behind, Bank.SectorEnd;
    var r := PlanFrom(banks, k, cur, last);
    var next := Next(banks, k, cur, last);
    PlanTail(banks, k, cur, last);
    if k == m {
      EndingBank(banks[k], cur, last, j);
    } else if r.Planned? && next <= last {
      EndIsReached(banks, k + 1, next, last, m, j);
    } else if r.Planned? {
      TakeBounds(banks[k], cur, last);
    }
    if r.Planned? {
      assert r.sels[1..] == PlanFrom(banks, k + 1, next, last).sels;
    }
  }
}
