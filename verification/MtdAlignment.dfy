/** What validation of a partition means for the sectors of a device: each one lies in the partition as a whole, or
    not at all. */
module MtdAlignment {
  import opened Arithmetic
  import opened CString
  import opened MtdGrammar

  /** A partition takes all of a range, or nothing of it. */
  predicate Whole(part: Part, from: int, to: int) {
    || (part.offset <= from && to <= part.offset + part.size)
    || to <= part.offset || part.offset + part.size <= from
  }

  /** A partition with contents that lies on the device. */
  predicate Inside(part: Part, size: nat) {
    0 < part.size && part.offset + part.size <= size
  }

  lemma InsideIs(id: MtdId, part: Part)
    ensures Inside(part, id.size) <==>
              part.offset <= id.size && part.offset < Plus(part.offset, part.size) <= id.size
    ensures Inside(part, id.size) ==> Plus(part.offset, part.size) == part.offset + part.size
  {
  }

  // ---- NOR flash

  /** Sectors in ascending order, up to the end of the chip. */
  ghost predicate Chip(g: Geometry) {
    && g.Nor? && g.starts != []
    && (forall i, j :: 0 <= i < j < |g.starts| ==> g.starts[i] < g.starts[j])
    && g.starts[|g.starts| - 1] - g.starts[0] < g.flashSize
  }

  /** Where a sector starts and ends, relative to the chip. */
  function From(g: Geometry, i: nat): int
    requires g.Nor? && i < |g.starts|
  {
    g.starts[i] as int - g.starts[0]
  }

  function To(g: Geometry, i: nat): int
    requires g.Nor? && i < |g.starts|
  {
    if i == |g.starts| - 1 then g.flashSize else From(g, i + 1)
  }

  lemma StartsAre(g: Geometry, x: u32)
    requires Chip(g)
    ensures OnSectorStart(g, x) <==> exists i :: 0 <= i < |g.starts| && From(g, i) == x
  {
    forall i | 0 <= i < |g.starts| ensures (g.starts[i] - g.starts[0]) % U32 == From(g, i) {
      assert g.starts[0] <= g.starts[i];
    }
    if OnSectorStart(g, x) {
      var i :| 0 <= i < |g.starts| && (g.starts[i] - g.starts[0]) % U32 == x;
      assert From(g, i) == x;
    }
  }

  /** The sector that an address of the chip lies in. */
  lemma {:induction false} SectorOf(g: Geometry, x: nat, n: nat) returns (i: nat)
    requires Chip(g) && x < g.flashSize && n < |g.starts| && x < To(g, n)
    ensures i <= n && From(g, i) <= x < To(g, i)
    decreases n
  {
    if From(g, n) <= x {
      i := n;
    } else {
      i := SectorOf(g, x, n - 1);
    }
  }

  lemma SectorsInOrder(g: Geometry, i: nat, j: nat)
    requires Chip(g) && i < |g.starts| && j < |g.starts|
    ensures i < j ==> To(g, i) <= From(g, j)
    ensures From(g, i) < To(g, i) <= g.flashSize && From(g, 0) == 0 <= From(g, i)
  {
  }

  ghost predicate WholeSectors(g: Geometry, part: Part)
    requires g.Nor?
  {
    forall i :: 0 <= i < |g.starts| ==> Whole(part, From(g, i), To(g, i))
  }

  lemma LastEnd(g: Geometry)
    requires Chip(g)
    ensures g.Nor? && g.starts != [] && To(g, |g.starts| - 1) == g.flashSize
  {
  }

  lemma NextFrom(g: Geometry, j: nat)
    requires Chip(g) && j < |g.starts|
    ensures To(g, j) == if j < |g.starts| - 1 then From(g, j + 1) else g.flashSize
  {
  }

  lemma WholeIsAligned(id: MtdId, part: Part)
    requires Chip(id.geometry) && id.size == id.geometry.flashSize && Inside(part, id.size)
    requires WholeSectors(id.geometry, part)
    ensures AlignmentOk(id.geometry, part)
  {
    hide Chip, From, To, OnSectorStart;
    var g, end := id.geometry, part.offset + part.size;
    InsideIs(id, part);
    LastEnd(g);
    var i := SectorOf(g, part.offset, |g.starts| - 1);
    var j := SectorOf(g, end - 1, |g.starts| - 1);
    assert From(g, i) == part.offset && To(g, j) == end;
    StartsAre(g, part.offset);
    if j < |g.starts| - 1 {
      NextFrom(g, j);
      StartsAre(g, end);
    }
  }

  lemma AlignedIsWhole(id: MtdId, part: Part)
    requires id.geometry.Nor? && Chip(id.geometry) && id.size == id.geometry.flashSize && Inside(part, id.size)
    requires AlignmentOk(id.geometry, part)
    ensures WholeSectors(id.geometry, part)
  {
    hide Chip, From, To, OnSectorStart;
    var g, end := id.geometry, part.offset + part.size;
    InsideIs(id, part);
    StartsAre(g, part.offset);
    StartsAre(g, Plus(part.offset, part.size));
    LastEnd(g);
    var a :| 0 <= a < |g.starts| && From(g, a) == part.offset;
    forall i | 0 <= i < |g.starts| ensures Whole(part, From(g, i), To(g, i)) {
      SectorsInOrder(g, i, a);
      SectorsInOrder(g, a, i);
      if end != g.flashSize {
        var b :| 0 <= b < |g.starts| && From(g, b) == end;
        SectorsInOrder(g, i, b);
        SectorsInOrder(g, b, i);
      }
    }
  }

  /** On NOR flash, validation accepts exactly the partitions that lie on the chip, are not empty and consist of
      whole sectors. */
  lemma SectorsStayWhole(id: MtdId, part: Part)
    requires id.geometry.Nor? && Chip(id.geometry) && id.size == id.geometry.flashSize
    ensures Acceptable(id, part) <==> Inside(part, id.size) && WholeSectors(id.geometry, part)
  {
    hide Chip, WholeSectors, AlignmentOk, Plus;
    InsideIs(id, part);
    if Inside(part, id.size) && WholeSectors(id.geometry, part) {
      WholeIsAligned(id, part);
    }
    if Acceptable(id, part) {
      AlignedIsWhole(id, part);
    }
  }

  // ---- NAND flash

  ghost predicate WholeBlocks(eraseSize: nat, part: Part) {
    forall k: nat :: WholeBlock(eraseSize, part, k)
  }

  predicate WholeBlock(eraseSize: nat, part: Part, k: nat) {
    Whole(part, Times(k, eraseSize), Times(k + 1, eraseSize))
  }

  lemma OneMore(k: nat, e: nat)
    ensures Times(k + 1, e) == Times(k, e) + e
  {
  }

  lemma Remainder(a: nat, e: nat)
    requires 0 < e
    ensures Mod(a, e) == a % e
  {
  }

  /** The block of an address. */
  lemma BlockOf(x: nat, e: nat) returns (k: nat)
    requires 0 < e
    ensures Times(k, e) <= x < Times(k + 1, e) && x == Times(k, e) + x % e
  {
    hide Times, Mod, Div;
    k := Div(x, e);
    Quotient(x, e);
    OneMore(k, e);
    Remainder(x, e);
  }

  lemma MultipleIs(k: nat, e: nat)
    requires 0 < e
    ensures Times(k, e) % e == 0
  {
    hide Times, Mod, Div;
    QuotientIs(Times(k, e), e, k, 0);
    Remainder(Times(k, e), e);
  }

  lemma SumOfMultiples(a: nat, b: nat, e: nat)
    requires 0 < e && a % e == 0
    ensures (a + b) % e == 0 <==> b % e == 0
  {
    hide Times;
    var k := BlockOf(a, e);
    var m := BlockOf(b, e);
    Distribute(k, m, e);
    MultipleIs(k + m, e);
    Remainder(a + b, e);
    QuotientIs(a + b, e, k + m, b % e);
  }

  lemma BlocksAreAligned(e: nat, part: Part)
    requires 0 < e && 0 < part.size && WholeBlocks(e, part)
    ensures part.offset % e == 0 && part.size % e == 0
  {
    hide Times;
    var end := part.offset + part.size;
    var k := BlockOf(part.offset, e);
    var m := BlockOf(end - 1, e);
    assert WholeBlock(e, part, k) && WholeBlock(e, part, m);
    MultipleIs(m + 1, e);
    SumOfMultiples(part.offset, part.size, e);
  }

  lemma AlignedBlocks(e: nat, part: Part, k: nat)
    requires 0 < e && part.offset % e == 0 && part.size % e == 0
    ensures WholeBlock(e, part, k)
  {
    hide Times;
    var end := part.offset + part.size;
    SumOfMultiples(part.offset, part.size, e);
    var a := BlockOf(part.offset, e);
    var b := BlockOf(end, e);
    Monotone(k, a, e);
    Monotone(a, k, e);
    Monotone(k, b, e);
    Monotone(b, k, e);
    OneMore(k, e);
  }

  /** On NAND flash, of whole erase blocks. */
  lemma BlocksStayWhole(id: MtdId, part: Part)
    requires id.geometry.Nand?
    ensures Acceptable(id, part) <==> Inside(part, id.size) && WholeBlocks(id.geometry.eraseSize, part)
  {
    hide WholeBlock, Plus;
    var e := id.geometry.eraseSize;
    InsideIs(id, part);
    if Inside(part, id.size) && WholeBlocks(e, part) {
      BlocksAreAligned(e, part);
    }
    if Acceptable(id, part) {
      forall k: nat ensures WholeBlock(e, part, k) {
        AlignedBlocks(e, part, k);
      }
    }
  }
}
