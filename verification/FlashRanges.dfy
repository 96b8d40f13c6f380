/** Which flash sectors an address range stands for, in cmd_flash.c.

    Addresses are 32-bit and wrap. A bank that was not detected is skipped.
  */
module FlashRanges {
  import opened CString

  const MAX_ADDRESS := 0xFFFF_FFFF

  /** Sector start addresses and the size in bytes. */
  datatype Bank = Bank(known: bool, start: seq<nat>, size: nat) {
    /** Last address of the bank. */
    function End(): int
      requires start != []
    {
      start[0] + size - 1
    }

    /** Last address of a sector. */
    function SectorEnd(i: nat): int
      requires i < |start|
    {
      if i == |start| - 1 then End() else start[i + 1] as int - 1
    }

    predicate Valid() {
      && 0 < |start| <= 0x8000
      && (forall i, j :: 0 <= i < j < |start| ==> start[i] < start[j])
      && start[|start| - 1] <= End() <= MAX_ADDRESS
    }
  }

  ghost predicate ValidBanks(banks: seq<Bank>) {
    forall k :: 0 <= k < |banks| && banks[k].known ==> banks[k].Valid()
  }

  /** The sectors from f to l of a bank, or none. */
  datatype Sel = None | Sel(f: nat, l: nat)

  datatype Plan = Failed | Planned(sels: seq<Sel>)

  /** Number of the sector that starts at an address, -1 when there is none. */
  function FirstAt(b: Bank, a: nat, n: nat): (r: int)
    requires n <= |b.start|
    ensures -1 <= r < n
    ensures r >= 0 ==> b.start[r] == a
    ensures r < 0 ==> forall i :: 0 <= i < n ==> b.start[i] != a
  {
    if n == 0 then -1 else if b.start[n - 1] == a then n - 1 else FirstAt(b, a, n - 1)
  }

  /** Number of the sector that ends at an address, -1 when there is none. */
  function LastAt(b: Bank, a: nat, n: nat): (r: int)
    requires n <= |b.start|
    ensures -1 <= r < n
    ensures r >= 0 ==> b.SectorEnd(r) == a
    ensures r < 0 ==> forall i :: 0 <= i < n ==> b.SectorEnd(i) != a
  {
    if n == 0 then -1 else if b.SectorEnd(n - 1) == a then n - 1 else LastAt(b, a, n - 1)
  }

  datatype BankPlan = Error | Skip | Take(f: nat, l: nat)

  /** What flash_fill_sect_ranges does with one known bank. */
  function PlanBank(b: Bank, first: nat, last: nat): (r: BankPlan)
    requires b.Valid()
    ensures r.Take? ==> r.f <= r.l < |b.start|
  {
    var f, l := FirstAt(b, first, |b.start|), LastAt(b, last, |b.start|);
    if f >= 0 then
      var end := if l >= 0 then l else if last > b.End() then |b.start| - 1 else -1;
      if end < f then Error else Take(f, end)
    else if (b.start[0] <= first && first < b.End()) || l >= 0 then Error
    else Skip
  }

  /** The address behind a sector; it wraps behind the last address. */
  function Behind(b: Bank, l: nat): nat
    requires b.Valid() && l < |b.start|
  {
    (b.SectorEnd(l) + 1) % U32
  }

  function PlanFrom(banks: seq<Bank>, k: nat, first: nat, last: nat): (r: Plan)
    requires k <= |banks| && ValidBanks(banks)
    ensures r.Planned? ==> |r.sels| == |banks| - k
    ensures r.Planned? ==> forall i :: 0 <= i < |r.sels| && r.sels[i].Sel? ==>
              banks[k + i].known && r.sels[i].f <= r.sels[i].l < |banks[k + i].start|
    decreases |banks| - k
  {
    if k == |banks| then Planned([])
    else if first > last then Planned(seq(|banks| - k, _ => None))
    else
      var b := banks[k];
      var step := if b.known then PlanBank(b, first, last) else Skip;
      if step.Error? then Failed
      else
        var rest := PlanFrom(banks, k + 1, if step.Take? then Behind(b, step.l) else first, last);
        if rest.Failed? then Failed
        else Planned([if step.Take? then Sel(step.f, step.l) else None] + rest.sels)
  }

  function Count(sels: seq<Sel>): nat
    requires forall i :: 0 <= i < |sels| && sels[i].Sel? ==> sels[i].f <= sels[i].l
  {
    if sels == [] then 0
    else Count(sels[..|sels| - 1])
         + match sels[|sels| - 1] case None => 0 case Sel(f, l) => l - f + 1
  }

  // ---- the routine

  /** The sector loop for one bank. */
  method ScanSectors(b: Bank, first: nat, last: nat) returns (f: int, l: int)
    requires b.Valid() && first <= last
    ensures f == FirstAt(b, first, |b.start|) && l == LastAt(b, last, |b.start|)
  {
    f, l := -1, -1;
    for sect := 0 to |b.start|
      invariant f == FirstAt(b, first, sect) && l == LastAt(b, last, sect)
    {
      var end := if sect == |b.start| - 1 then b.End() else b.start[sect + 1] as int - 1;
      assert b.start[sect] <= end;
      if first <= end && b.start[sect] <= last {
        if first == b.start[sect] {
          f := sect;
        }
        if last == end {
          l := sect;
        }
      }
    }
  }

  /** The i-th entries of the result arrays say what the plan says. */
  predicate Says(first: int, last: int, sel: Sel) {
    match sel
    case None => first == -1 && last == -1
    case Sel(f, l) => first == f && last == l
  }

  /** The decisions behind the sector loop. */
  method ChooseSectors(info: Bank, first: nat, last: nat) returns (r: BankPlan)
    requires info.Valid() && first <= last
    ensures r == PlanBank(info, first, last)
  {
    var f, l := ScanSectors(info, first, last);
    if f >= 0 {
      if l < 0 {
        if last > info.End() {
          l := |info.start| - 1;
        } else {
          return Error;
        }
      }
      if l < f {
        return Error;
      }
      return Take(f, l);
    } else if info.start[0] <= first && first < info.End() {
      return Error;
    } else if l >= 0 {
      return Error;
    }
    return Skip;
  }

  lemma PlanStart(banks: seq<Bank>, first: nat, last: nat)
    requires ValidBanks(banks)
    ensures PlanFrom(banks, 0, first, last) == Prefixed([], PlanFrom(banks, 0, first, last)) && Count([]) == 0
  {
    hide PlanFrom;
    var r := PlanFrom(banks, 0, first, last);
    assert r.Planned? ==> [] + r.sels == r.sels;
  }

  lemma CountSnoc(sels: seq<Sel>, sel: Sel)
    requires forall i :: 0 <= i < |sels| && sels[i].Sel? ==> sels[i].f <= sels[i].l
    requires sel.Sel? ==> sel.f <= sel.l
    ensures Count(sels + [sel]) == Count(sels) + match sel case None => 0 case Sel(f, l) => l - f + 1
  {
    assert (sels + [sel])[..|sels|] == sels;
  }

  /** The turn of the loop for one bank. */
  lemma PlanStep(banks: seq<Bank>, k: nat, first: nat, last: nat, sels: seq<Sel>)
    requires k < |banks| && ValidBanks(banks) && first <= last
    ensures var step := if banks[k].known then PlanBank(banks[k], first, last) else Skip;
            Prefixed(sels, PlanFrom(banks, k, first, last))
            == if step.Error? then Failed
               else Prefixed(sels + [if step.Take? then Sel(step.f, step.l) else None],
                             PlanFrom(banks, k + 1, if step.Take? then Behind(banks[k], step.l) else first, last))
  {
    hide PlanBank, Bank.Valid, Behind;
    var step := if banks[k].known then PlanBank(banks[k], first, last) else Skip;
    if !step.Error? {
      var sel := if step.Take? then Sel(step.f, step.l) else None;
      var rest := PlanFrom(banks, k + 1, if step.Take? then Behind(banks[k], step.l) else first, last);
      if rest.Planned? {
        assert sels + ([sel] + rest.sels) == sels + [sel] + rest.sels;
      }
    }
  }

  lemma {:induction false} CountNones(sels: seq<Sel>, n: nat)
    requires forall i :: 0 <= i < |sels| && sels[i].Sel? ==> sels[i].f <= sels[i].l
    ensures Count(sels + seq(n, _ => None)) == Count(sels)
  {
    var all := sels + seq(n, _ => None);
    if n == 0 {
      assert all == sels;
    } else {
      assert all[..|all| - 1] == sels + seq(n - 1, _ => None);
      CountNones(sels, n - 1);
    }
  }

  /** Where the loop stops, the banks that are left have no selection. */
  lemma PlanEnd(banks: seq<Bank>, k: nat, first: nat, last: nat, sels: seq<Sel>)
    requires k <= |banks| && ValidBanks(banks) && (k == |banks| || first > last) && |sels| == k
    requires forall i :: 0 <= i < |sels| && sels[i].Sel? ==> sels[i].f <= sels[i].l
    ensures var r := Prefixed(sels, PlanFrom(banks, k, first, last));
            && r.Planned? && |r.sels| == |banks|
            && (forall i :: 0 <= i < |banks| ==> r.sels[i] == if i < k then sels[i] else None)
            && Count(r.sels) == Count(sels)
  {
    CountNones(sels, |banks| - k);
    assert sels + [] == sels;
  }

  /** A plan with the selections of the banks in front of it. */
  function Prefixed(sels: seq<Sel>, rest: Plan): Plan {
    if rest.Failed? then Failed else Planned(sels + rest.sels)
  }

  method FillSectRanges(banks: seq<Bank>, addrFirst: nat, addrLast: nat, sFirst: array<int>, sLast: array<int>)
    returns (rcode: int, sCount: nat)
    requires ValidBanks(banks) && sFirst.Length == sLast.Length == |banks| && sFirst != sLast
    modifies sFirst, sLast
    ensures rcode == if PlanFrom(banks, 0, addrFirst, addrLast).Failed? then 1 else 0
    ensures rcode == 0 ==> var sels := PlanFrom(banks, 0, addrFirst, addrLast).sels;
              && sCount == Count(sels)
              && forall i :: 0 <= i < |banks| ==> Says(sFirst[i], sLast[i], sels[i])
  {
    hide PlanBank, PlanFrom, Prefixed, Count, Bank.Valid, Behind;
    PlanStart(banks, addrFirst, addrLast);
    rcode, sCount := 0, 0;
    for i := 0 to |banks|
      invariant forall j :: 0 <= j < i ==> sFirst[j] == -1 && sLast[j] == -1
    {
      sFirst[i], sLast[i] := -1, -1;
    }
    var first: nat, bank: nat := addrFirst, 0;
    ghost var sels: seq<Sel> := [];
    ghost var all := PlanFrom(banks, 0, addrFirst, addrLast);
    while bank < |banks| && first <= addrLast
      invariant 0 <= bank <= |banks| && |sels| == bank
      invariant forall i :: 0 <= i < bank && sels[i].Sel? ==> sels[i].f <= sels[i].l
      invariant all == Prefixed(sels, PlanFrom(banks, bank, first, addrLast))
      invariant sCount == Count(sels)
      invariant forall i :: 0 <= i < bank ==> Says(sFirst[i], sLast[i], sels[i])
      invariant forall i :: bank <= i < |banks| ==> sFirst[i] == -1 && sLast[i] == -1
    {
      var info := banks[bank];
      PlanStep(banks, bank, first, addrLast, sels);
      var choice := Skip;
      if info.known {
        choice := ChooseSectors(info, first, addrLast);
      }
      if choice.Error? {
        return 1, sCount;
      }
      ghost var sel := None;
      if choice.Take? {
        sFirst[bank], sLast[bank] := choice.f, choice.l;
        sel := Sel(choice.f, choice.l);
        first := Behind(info, choice.l);
        sCount := sCount + (choice.l - choice.f + 1);
      }
      CountSnoc(sels, sel);
      sels := sels + [sel];
      bank := bank + 1;
    }
    PlanEnd(banks, bank, first, addrLast, sels);
  }
}
