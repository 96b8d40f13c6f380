/** The address arguments of the flash commands and the erase routine, in cmd_flash.c. */
module FlashAddress {
  import opened CString
  import opened FlashRanges
  import opened FlashSafety
  import opened FlashExact

  /** The rest of the text from p on is a number. */
  predicate IsNumber(s: string, p: nat)
    requires p <= |s|
  {
    var end := Strtoul(s, p, 16).1;
    p != end && end == |s|
  }

  /** Sector end in 32-bit arithmetic; undetected banks may hold anything. */
  function WrappedEnd(b: Bank, i: nat): nat
    requires i < |b.start|
  {
    b.SectorEnd(i) % U32
  }

  /** End of the first sector, from the i-th on, that holds an address; -1 when there is none. */
  function EndIn(b: Bank, i: nat, a: nat): int
    requires i <= |b.start|
    decreases |b.start| - i
  {
    if i == |b.start| then -1
    else if b.start[i] <= a <= WrappedEnd(b, i) then WrappedEnd(b, i)
    else EndIn(b, i + 1, a)
  }

  function EndOf(banks: seq<Bank>, k: nat, a: nat): int
    requires k <= |banks|
    decreases |banks| - k
  {
    if k == |banks| then -1
    else if EndIn(banks[k], 0, a) >= 0 then EndIn(banks[k], 0, a)
    else EndOf(banks, k + 1, a)
  }

  datatype Range = BadRange | Range(first: nat, last: nat)

  /** What addr_spec makes of its two arguments. */
  function AddrRange(banks: seq<Bank>, arg1: string, arg2: string): Range {
    var p := if CharAt(arg2, 0) == '+' then 1 else 0;
    if !IsNumber(arg1, 0) || !IsNumber(arg2, p) then BadRange
    else
      var first, n := Strtoul(arg1, 0, 16).0, Strtoul(arg2, p, 16).0;
      if p == 0 then Range(first, n)
      else
        var last := EndOf(banks, 0, (first + n - 1) % U32);
        if last < 0 then BadRange else Range(first, last)
  }

  // ---- the routines

  /** The search for the sector that holds an address, over banks and sectors. */
  method RoundUp(banks: seq<Bank>, addr: nat) returns (found: bool, last: nat)
    ensures found == (EndOf(banks, 0, addr) >= 0)
    ensures last == if found then EndOf(banks, 0, addr) else addr
  {
    found, last := false, addr;
    var bank: nat := 0;
    while bank < |banks| && !found
      invariant bank <= |banks|
      invariant if found then last == EndOf(banks, 0, addr)
                else last == addr && EndOf(banks, bank, addr) == EndOf(banks, 0, addr)
    {
      var info := banks[bank];
      var i: nat := 0;
      while i < |info.start| && !found
        invariant i <= |info.start|
        invariant if found then last == EndIn(info, 0, addr) >= 0
                  else last == addr && EndIn(info, i, addr) == EndIn(info, 0, addr)
      {
        var sectorEnd := (if i == |info.start| - 1 then info.start[0] + info.size - 1
                          else info.start[i + 1] as int - 1) % U32;
        if last <= sectorEnd && last >= info.start[i] {
          found := true;
          if last < sectorEnd {
            last := sectorEnd;
          }
        }
        i := i + 1;
      }
      bank := bank + 1;
    }
  }

  method AddrSpec(banks: seq<Bank>, arg1: string, arg2: string) returns (ok: bool, first: nat, last: nat)
    ensures ok == AddrRange(banks, arg1, arg2).Range?
    ensures ok ==> AddrRange(banks, arg1, arg2) == Range(first, last)
  {
    hide Strtoul, EndOf;
    var lenUsed, ep := false, 0;
    var p: nat := 0;
    last := 0;
    first, ep := SimpleStrtoul(arg1, 0, 16);
    if ep == 0 || ep != |arg1| {
      return false, first, last;
    }
    if CharAt(arg2, 0) == '+' {
      lenUsed, p := true, 1;
    }
    last, ep := SimpleStrtoul(arg2, p, 16);
    if ep == p || ep != |arg2| {
      return false, first, last;
    }
    ok := true;
    if lenUsed {
      last := (first + last - 1) % U32;
      ok, last := RoundUp(banks, last);
    }
  }

  /** One call of the flash driver. */
  datatype Erase = Erase(bank: nat, first: nat, last: nat)

  /** The driver calls for the banks in front of the k-th. */
  function Calls(sels: seq<Sel>, k: nat): seq<Erase>
    requires k <= |sels|
  {
    if k == 0 then []
    else Calls(sels, k - 1) + match sels[k - 1] case None => [] case Sel(f, l) => [Erase(k - 1, f, l)]
  }

  /** Number of sectors that some driver calls erase. */
  function Erased(calls: seq<Erase>): int {
    if calls == [] then 0
    else Erased(calls[..|calls| - 1]) + calls[|calls| - 1].last - calls[|calls| - 1].first + 1
  }

  lemma CountEmpty(sels: seq<Sel>)
    ensures Count(sels[..0]) == 0
  {
  }

  lemma CountNext(sels: seq<Sel>, k: nat)
    requires k < |sels| && forall i :: 0 <= i < |sels| && sels[i].Sel? ==> sels[i].f <= sels[i].l
    ensures Count(sels[..k + 1]) == Count(sels[..k]) + match sels[k] case None => 0 case Sel(f, l) => l - f + 1
  {
    assert sels[..k + 1][..k] == sels[..k];
  }

  lemma NothingErased()
    ensures Erased([]) == 0
  {
  }

  lemma OneErased(calls: seq<Erase>, e: Erase)
    ensures Erased(calls + [e]) == Erased(calls) + e.last - e.first + 1
  {
    assert (calls + [e])[..|calls|] == calls;
  }

  lemma {:induction false} CallsCount(sels: seq<Sel>, k: nat)
    requires k <= |sels| && forall i :: 0 <= i < |sels| && sels[i].Sel? ==> sels[i].f <= sels[i].l
    ensures Erased(Calls(sels, k)) == Count(sels[..k])
  {
    hide Count, Erased;
    CountEmpty(sels);
    NothingErased();
    if k > 0 {
      CallsCount(sels, k - 1);
      CountNext(sels, k - 1);
      if sels[k - 1].Sel? {
        OneErased(Calls(sels, k - 1), Erase(k - 1, sels[k - 1].f, sels[k - 1].l));
      } else {
        assert Calls(sels, k - 1) + [] == Calls(sels, k - 1);
      }
    }
  }

  /** flash_sect_erase; outcome[b] is what the driver answers for bank b. */
  method SectErase(banks: seq<Bank>, addrFirst: nat, addrLast: nat, outcome: seq<int>)
    returns (rcode: int, erased: int, calls: seq<Erase>)
    requires ValidBanks(banks) && |outcome| == |banks|
    ensures var r := PlanFrom(banks, 0, addrFirst, addrLast);
            if !Succeeds(banks, addrFirst, addrLast) then rcode == 1 && calls == [] && erased == 0
            else exists k :: 0 <= k <= |banks| && calls == Calls(r.sels, k) && erased == Count(r.sels[..k])
                   && (rcode == 0 ==> k == |banks|)
                   && (rcode != 0 ==> k > 0 && r.sels[k - 1].Sel? && outcome[k - 1] == rcode)
                   && forall i :: 0 <= i < k && r.sels[i].Sel? && (rcode == 0 || i < k - 1) ==> outcome[i] == 0
    ensures erased == Erased(calls)
  {
    hide PlanFrom, Count, Erased;
    erased, calls := 0, [];
    NothingErased();
    var sFirst, sLast := new int[|banks|], new int[|banks|];
    var planned;
    rcode, planned := FillSectRanges(banks, addrFirst, addrLast, sFirst, sLast);
    if rcode != 0 || planned == 0 {
      return 1, erased, calls;
    }
    ghost var sels := PlanFrom(banks, 0, addrFirst, addrLast).sels;
    var bank: nat := 0;
    CountEmpty(sels);
    while bank < |banks| && rcode == 0
      invariant forall i :: 0 <= i < |banks| ==> Says(sFirst[i], sLast[i], sels[i])
      invariant bank <= |banks| && calls == Calls(sels, bank) && erased == Count(sels[..bank])
      invariant rcode != 0 ==> bank > 0 && sels[bank - 1].Sel? && outcome[bank - 1] == rcode
      invariant forall i :: 0 <= i < bank && sels[i].Sel? && (rcode == 0 || i < bank - 1) ==> outcome[i] == 0
    {
      CountNext(sels, bank);
      if sFirst[bank] >= 0 {
        erased := erased + (sLast[bank] - sFirst[bank] + 1);
        calls := calls + [Erase(bank, sFirst[bank], sLast[bank])];
        rcode := outcome[bank];
      }
      bank := bank + 1;
    }
    CallsCount(sels, bank);
  }

  // ---- "start +length" on banks without gaps

  /** The j-th sector of the m-th bank holds the address. */
  predicate Holds(banks: seq<Bank>, m: nat, j: nat, a: int, end: int) {
    m < |banks| && j < |banks[m].start| && banks[m].start[j] <= a <= end == banks[m].SectorEnd(j)
  }

  lemma {:induction false} EndInBank(b: Bank, i: nat, a: nat) returns (j: nat)
    requires b.Valid() && i < |b.start| && b.start[i] <= a <= b.End()
    ensures i <= j < |b.start| && b.start[j] <= a <= b.SectorEnd(j) == EndIn(b, i, a)
    decreases |b.start| - i
  {
    SectorOrder(b, i, i);
    if a <= b.SectorEnd(i) {
      j := i;
    } else {
      j := EndInBank(b, i + 1, a);
    }
  }

  lemma {:induction false} NoEndIn(b: Bank, i: nat, a: nat)
    requires b.Valid() && i <= |b.start| && !(b.start[0] <= a <= b.End())
    ensures EndIn(b, i, a) == -1
    decreases |b.start| - i
  {
    if i < |b.start| {
      SectorOrder(b, 0, i);
      SectorOrder(b, i, i);
      NoEndIn(b, i + 1, a);
    }
  }

  /** An address inside flash is held by exactly the sector whose end is found. */
  lemma {:induction false} EndInFlash(banks: seq<Bank>, k: nat, a: nat) returns (m: nat, j: nat)
    requires Contiguous(banks) && k < |banks| && banks[k].start[0] <= a <= Top(banks)
    ensures Holds(banks, m, j, a, EndOf(banks, k, a))
    decreases |banks| - k
  {
    hide Bank.Valid, EndIn;
    WholeEnd(banks[k]);
    if a <= banks[k].End() {
      m := k;
      j := EndInBank(banks[k], 0, a);
    } else {
      NoEndIn(banks[k], 0, a);
      NextBank(banks, k);
      m, j := EndInFlash(banks, k + 1, a);
    }
  }

  lemma {:induction false} NoEndOf(banks: seq<Bank>, k: nat, a: nat)
    requires Contiguous(banks) && k <= |banks| && (a < banks[0].start[0] || Top(banks) < a)
    ensures EndOf(banks, k, a) == -1
    decreases |banks| - k
  {
    hide Bank.Valid, EndIn;
    if k < |banks| {
      if k > 0 {
        BanksAscend(banks, 0, k);
      }
      if k < |banks| - 1 {
        BanksAscend(banks, k, |banks| - 1);
      }
      WholeEnd(banks[0]);
      NoEndIn(banks[k], 0, a);
      NoEndOf(banks, k + 1, a);
    }
  }

  lemma LeastEnd(banks: seq<Bank>, m: nat, j: nat, a: int, end: int, k: nat, i: nat)
    requires Contiguous(banks) && Holds(banks, m, j, a, end)
    requires k < |banks| && i < |banks[k].start| && a <= banks[k].SectorEnd(i)
    ensures end <= banks[k].SectorEnd(i)
  {
    hide Bank.SectorEnd, Bank.Valid;
    SectorOrder(banks[m], 0, j);
    SectorOrder(banks[k], 0, i);
    if k < m {
      BanksAscend(banks, k, m);
    } else if m < k {
      BanksAscend(banks, m, k);
    } else if i < j {
      EndBefore(banks[m], i, j);
    } else {
      EndOrder(banks[m], i, j);
    }
  }

  lemma LaterStart(banks: seq<Bank>, m: nat, j: nat, a: int, end: int, k: nat, i: nat)
    requires Contiguous(banks) && Holds(banks, m, j, a, end)
    requires k < |banks| && i < |banks[k].start| && a < banks[k].start[i]
    ensures end < banks[k].start[i]
  {
    hide Bank.SectorEnd, Bank.Valid;
    SectorOrder(banks[m], 0, j);
    SectorOrder(banks[k], 0, i);
    if k < m {
      BanksAscend(banks, k, m);
    } else if m < k {
      BanksAscend(banks, m, k);
    } else if i <= j {
      SectorOrder(banks[m], i, j);
    } else {
      EndBefore(banks[m], j, i);
    }
  }

  /** The end of the holding sector is the least sector end that is not below the
      address, and every sector that starts behind the address starts behind that end. */
  lemma HolderIsLeast(banks: seq<Bank>, m: nat, j: nat, a: int, end: int, other: int)
    requires Contiguous(banks) && Holds(banks, m, j, a, end)
    ensures EndsFrom(banks, 0, end) && end <= Top(banks)
    ensures EndsFrom(banks, 0, other) && a <= other ==> end <= other
    ensures StartsAny(banks, other) && a < other ==> end < other
  {
    hide Bank.SectorEnd, Bank.Valid;
    assert EndsSector(banks[m], end);
    SectorOrder(banks[m], j, j);
    SectorOrder(banks[m], 0, j);
    if m + 1 < |banks| {
      BanksAscend(banks, m, |banks| - 1);
    }
    if EndsFrom(banks, 0, other) && a <= other {
      var k :| 0 <= k < |banks| && EndsSector(banks[k], other);
      var i :| 0 <= i < |banks[k].start| && banks[k].SectorEnd(i) == other;
      LeastEnd(banks, m, j, a, end, k, i);
    }
    if StartsAny(banks, other) && a < other {
      var k :| 0 <= k < |banks| && StartsSector(banks[k], other);
      var i :| 0 <= i < |banks[k].start| && banks[k].start[i] == other;
      LaterStart(banks, m, j, a, end, k, i);
    }
  }

  /** A start address and a length, both as text. */
  predicate StartAndLength(arg1: string, arg2: string, first: nat, len: nat) {
    && IsNumber(arg1, 0) && Strtoul(arg1, 0, 16).0 == first
    && CharAt(arg2, 0) == '+' && IsNumber(arg2, 1) && Strtoul(arg2, 1, 16).0 == len
  }

  ghost predicate Plans(banks: seq<Bank>, r: Range)
    requires Contiguous(banks)
  {
    r.Range? && Succeeds(banks, r.first, r.last)
  }

  lemma StartInFlash(banks: seq<Bank>, first: int)
    requires Contiguous(banks) && StartsAny(banks, first)
    ensures banks[0].start != [] && banks[|banks| - 1].start != []
    ensures banks[0].start[0] <= first <= Top(banks) <= MAX_ADDRESS
  {
    hide Bank.Valid, StartsSector;
    var m :| 0 <= m < |banks| && StartsSector(banks[m], first);
    StartInBank(banks[m], first);
    WholeEnd(banks[0]);
    WholeEnd(banks[|banks| - 1]);
    if m > 0 {
      BanksAscend(banks, 0, m);
    }
    if m < |banks| - 1 {
      BanksAscend(banks, m, |banks| - 1);
    }
  }

  lemma NothingPlanned(banks: seq<Bank>, first: nat, last: nat)
    requires ValidBanks(banks) && last < first
    ensures !Succeeds(banks, first, last)
  {
    CountNones([], |banks|);
    assert [] + seq(|banks|, _ => None) == seq(|banks|, _ => None);
    NoCount();
  }

  /** An end address below the start, rounded or not, never plans anything. */
  lemma WrappedIsRejected(banks: seq<Bank>, first: nat, a: nat)
    requires Contiguous(banks) && StartsAny(banks, first) && a < first
    ensures EndOf(banks, 0, a) >= 0 ==> !Succeeds(banks, first, EndOf(banks, 0, a))
  {
    hide StartsAny, EndOf, Bank.Valid, EndsFrom;
    StartInFlash(banks, first);
    var end := EndOf(banks, 0, a);
    if banks[0].start[0] <= a {
      var m, j := EndInFlash(banks, 0, a);
      HolderIsLeast(banks, m, j, a, end, first);
      NothingPlanned(banks, first, end);
    } else {
      NoEndOf(banks, 0, a);
    }
  }

  /** "start +length" from a sector start plans exactly when the range fits into flash
      without wrapping; the planned range is then the least one of whole sectors
      that includes it. */
  lemma LengthIsPlanned(banks: seq<Bank>, arg1: string, arg2: string, first: nat, len: nat, end: int)
    requires Contiguous(banks) && StartsAny(banks, first) && StartAndLength(arg1, arg2, first, len) && len > 0
    ensures var r := AddrRange(banks, arg1, arg2);
            && (Plans(banks, r) <==> first + len - 1 <= Top(banks))
            && (Plans(banks, r) ==>
                  && r.first == first && first + len - 1 <= r.last && EndsFrom(banks, 0, r.last)
                  && (EndsFrom(banks, 0, end) && first + len - 1 <= end ==> r.last <= end))
  {
    hide StartsAny, EndsFrom, EndOf, PlanFrom, Bank.Valid, Strtoul;
    var a := first + len - 1;
    var r := AddrRange(banks, arg1, arg2);
    StartInFlash(banks, first);
    if a <= Top(banks) {
      var m, j := EndInFlash(banks, 0, a);
      HolderIsLeast(banks, m, j, a, EndOf(banks, 0, a), end);
      PlanIsExact(banks, first, r.last, first);
    } else if a < U32 {
      NoEndOf(banks, 0, a);
    } else {
      WrappedIsRejected(banks, first, a - U32);
    }
  }

  /** A zero length behind a sector start is rejected, unless it wraps at address zero. */
  lemma ZeroLength(banks: seq<Bank>, arg1: string, arg2: string, first: nat)
    requires Contiguous(banks) && StartsAny(banks, first) && StartAndLength(arg1, arg2, first, 0) && first > 0
    ensures !Plans(banks, AddrRange(banks, arg1, arg2))
  {
    hide StartsAny, EndOf, PlanFrom, Bank.Valid, Strtoul;
    StartInFlash(banks, first);
    WrappedIsRejected(banks, first, first - 1);
  }
}
