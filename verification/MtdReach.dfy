/** Tables that come out of the parser are fit for the printer, so a saved table survives reloading. */
module MtdReach {
  import opened CString
  import opened MtdGrammar
  import opened MtdRoundTrip
  import opened MtdSort

  /** What the parser and the validation establish for every partition. */
  ghost predicate GoodPart(id: MtdId, part: Part) {
    && FillSize(id, part) == part && Acceptable(id, part)
    && (!part.autoName ==> part.name != "" && ')' !in part.name)
  }

  ghost predicate GoodParts(id: MtdId, parts: seq<Part>) {
    forall i :: 0 <= i < |parts| ==> GoodPart(id, parts[i])
  }

  lemma ParsedName(s: string, p: nat)
    requires p <= |s| && ParsePart(s, p).Good?
    ensures var part := ParsePart(s, p).value; !part.autoName ==> part.name != "" && ')' !in part.name
  {
    hide ParseSize, ParseOffset, ParseRo, ParseEnd, AutoName;
  }

  lemma {:induction false} PartsAreGood(id: MtdId, s: string, p: nat, offset: u32, acc: seq<Part>)
    requires p <= |s| && GoodParts(id, acc)
    ensures var r := ParseParts(id, s, p, offset, acc); r.Good? ==> GoodParts(id, r.value)
    decreases |s| - p
  {
    hide ParsePart, Acceptable;
    if p < |s| && s[p] != ';' && ParsePart(s, p).Good? {
      ParsedName(s, p);
      var def := ParsePart(s, p);
      var part := Place(id, def.value, offset);
      if Acceptable(id, part) {
        PartsAreGood(id, s, def.next, Plus(part.offset, part.size), acc + [part]);
      }
    }
  }

  lemma GoodAfterSort(id: MtdId, parts: seq<Part>, sorted: seq<Part>)
    requires GoodParts(id, parts) && multiset(sorted) == multiset(parts)
    ensures GoodParts(id, sorted) && |sorted| == |parts|
  {
    hide GoodPart;
    forall i | 0 <= i < |sorted| ensures GoodPart(id, sorted[i]) {
      assert sorted[i] in multiset(sorted);
      assert sorted[i] in parts;
    }
    assert |multiset(sorted)| == |multiset(parts)|;
  }

  /** A device that the parser accepts: as the printer needs it, with its partitions in order. */
  ghost predicate GoodDevice(ids: seq<MtdId>, dev: DeviceDef) {
    && dev.id in ids && ':' !in dev.id.name
    && dev.parts != [] && GoodParts(dev.id, dev.parts) && Ascending(dev.parts) && OneAtZero(dev.parts)
  }

  lemma {:induction false} FoundId(ids: seq<MtdId>, name: string)
    ensures FindId(ids, name).Good? ==> FindId(ids, name).value in ids && FindId(ids, name).value.name == name
  {
    if ids != [] {
      FoundId(ids[1..], name);
    }
  }

  lemma {:induction false} DeviceIsGood(ids: seq<MtdId>, devs: seq<DeviceDef>, s: string, p: nat)
    requires p <= |s|
    ensures var r := ParseDevice(ids, devs, s, p); r.Good? ==> GoodDevice(ids, r.value)
  {
    hide ParseParts, SortParts, StartOffset, FindId, GoodPart, Ascending, OneAtZero;
    var r := ParseDevice(ids, devs, s, p);
    if r.Good? {
      var name := s[p..Find(s, p, ':')];
      FoundId(ids, name);
      var id := FindId(ids, name).value;
      var start := StartOffset(devs, id);
      PartsAreGood(id, s, Find(s, p, ':') + 1, start, []);
      var parts := ParseParts(id, s, Find(s, p, ':') + 1, start, []).value;
      SortPermutes(parts);
      GoodAfterSort(id, parts, SortParts(parts).value);
    }
  }

  ghost predicate GoodDevices(ids: seq<MtdId>, devs: seq<DeviceDef>) {
    && (forall i :: 0 <= i < |devs| ==> GoodDevice(ids, devs[i]))
    && (forall i, j :: 0 <= i < j < |devs| ==> !SameDevice(devs[i].id, devs[j].id))
  }

  lemma {:induction false} DevicesAreGood(ids: seq<MtdId>, s: string, p: nat, devs: seq<DeviceDef>)
    requires p <= |s| && GoodDevices(ids, devs)
    ensures var r := ParseDevices(ids, s, p, devs); r.Good? ==> GoodDevices(ids, r.value)
    decreases |s| - p
  {
    hide ParseDevice, GoodDevice, DeviceIndex, SameDevice;
    if p < |s| {
      DeviceIsGood(ids, devs, s, p);
      var dev := ParseDevice(ids, devs, s, p);
      if dev.Good? && DeviceIndex(devs, dev.value.id) == |devs| {
        DevicesAreGood(ids, s, dev.next, devs + [dev.value]);
      }
    }
  }

  /** The table that the parser stores again for a table that it accepted: in every device,
      the runs of partitions with one offset are turned around. */
  function RunsTurned(dev: DeviceDef): DeviceDef {
    dev.(parts := RunsReversed(RereadAll(dev.parts)))
  }

  function TableTurned(devs: seq<DeviceDef>): (r: seq<DeviceDef>)
    ensures |r| == |devs|
  {
    seq(|devs|, i requires 0 <= i < |devs| => RunsTurned(devs[i]))
  }

  ghost predicate AllDifferent(devs: seq<DeviceDef>) {
    forall i :: 0 <= i < |devs| ==> Different(RereadAll(devs[i].parts))
  }

  /** Two tables are equal if their devices are. */
  lemma TurnedOrNot(devs: seq<DeviceDef>)
    requires AllDifferent(devs) ==> forall i :: 0 <= i < |devs| ==>
               (RunsTurned(devs[i]) == RereadDevice(devs[i]) <==> StrictlyAscending(devs[i].parts))
    ensures AllDifferent(devs) ==> (TableTurned(devs) == RereadTable(devs) <==> AllStrict(devs))
    ensures !AllRereadable(devs, 0) ==> devs != []
  {
    hide RunsTurned, RereadDevice, StrictlyAscending, Different;
    if AllDifferent(devs) && TableTurned(devs) == RereadTable(devs) {
      forall i | 0 <= i < |devs| ensures RunsTurned(devs[i]) == RereadDevice(devs[i]) {
        assert TableTurned(devs)[i] == RereadTable(devs)[i];
      }
    }
  }

  lemma GoodIsValid(ids: seq<MtdId>, dev: DeviceDef)
    requires GoodDevice(ids, dev)
    ensures ValidDevice(ids, dev)
  {
    hide Acceptable, FillSize;
    assert forall i :: 0 <= i < |dev.parts| ==> GoodPart(dev.id, dev.parts[i]);
  }

  /** What the second sorting makes of an accepted device. */
  lemma GoodReload(ids: seq<MtdId>, dev: DeviceDef)
    requires GoodDevice(ids, dev)
    ensures (Reloadable(dev) <==> Rereadable(dev)) && Reload(dev) == RunsTurned(dev)
    ensures Different(RereadAll(dev.parts)) ==>
              (RunsTurned(dev) == RereadDevice(dev) <==> StrictlyAscending(dev.parts))
  {
    hide Legible, SortParts, RunsReversed, GoodPart;
    var parts := RereadAll(dev.parts);
    assert forall i :: 0 <= i < |parts| ==> parts[i].offset == dev.parts[i].offset;
    SortReverses(parts);
    SortKeeps(parts);
    assert StrictlyAscending(parts) == StrictlyAscending(dev.parts);
    assert RunsTurned(dev).parts == RunsReversed(parts) && RereadDevice(dev).parts == parts;
  }

  lemma ParsedIsGood(ids: seq<MtdId>, text: string)
    ensures GoodDevices(ids, ParseTable(ids, text))
  {
    hide ParseDevices, GoodDevice;
    DevicesAreGood(ids, text, if |text| < 9 then 0 else 9, []);
  }

  /** A table in the state that the parser establishes, saved and reloaded, comes back with its runs of
      equal offsets turned around and its generated names renewed, or not at all if a size is illegible.
      So when no two partitions look the same, the order is kept exactly if the offsets differ. */
  lemma {:induction false} GoodReloads(ids: seq<MtdId>, devs: seq<DeviceDef>)
    requires DistinctNames(ids) && GoodDevices(ids, devs)
    ensures ParseTable(ids, TableText(devs)) == if AllRereadable(devs, 0) then TableTurned(devs) else []
    ensures AllDifferent(devs) ==>
              (ParseTable(ids, TableText(devs)) == RereadTable(devs) <==> AllRereadable(devs, 0) && AllStrict(devs))
  {
    hide ParseTable, Rereadable, Reload, Reloadable, TableText, RereadDevice, RunsTurned, StrictlyAscending, Different;
    hide GoodDevice, ValidDevice, SameDevice;
    forall i | 0 <= i < |devs|
      ensures ValidDevice(ids, devs[i])
      ensures (Reloadable(devs[i]) <==> Rereadable(devs[i])) && Reload(devs[i]) == RunsTurned(devs[i])
      ensures Different(RereadAll(devs[i].parts)) ==>
                (RunsTurned(devs[i]) == RereadDevice(devs[i]) <==> StrictlyAscending(devs[i].parts))
    {
      GoodIsValid(ids, devs[i]);
      GoodReload(ids, devs[i]);
    }
    ReloadOfTable(ids, devs);
    assert AllReloadable(devs, 0) == AllRereadable(devs, 0);
    assert ReloadTable(devs) == TableTurned(devs);
    TurnedOrNot(devs);
  }

  /** So it is for the table that any text yields. */
  lemma {:induction false} ReloadIsStable(ids: seq<MtdId>, text: string)
    requires DistinctNames(ids)
    ensures var devs := ParseTable(ids, text);
            ParseTable(ids, TableText(devs)) == if AllRereadable(devs, 0) then TableTurned(devs) else []
    ensures var devs := ParseTable(ids, text);
            AllDifferent(devs) ==>
              (ParseTable(ids, TableText(devs)) == RereadTable(devs) <==> AllRereadable(devs, 0) && AllStrict(devs))
  {
    hide *;
    ParsedIsGood(ids, text);
    GoodReloads(ids, ParseTable(ids, text));
  }

  // ---- a text whose table is lost

  const SMALL := MtdId(0, 0x1800, "n", Nand(0x800))
  const FIRST := Part(0x1000, 0, AutoName(0x1000, OFFSET_NOT_SPECIFIED), true, false)
  const REST := Part(0x800, 0x1000, AutoName(SIZE_REMAINING, OFFSET_NOT_SPECIFIED), true, false)

  /** "4k" at position 11 of the text, and the rest behind it. */
  lemma SmallParts(s: string)
    requires s == "mtdparts=n:4k,-"
    ensures ParsePart(s, 11) == Good(FIRST.(offset := OFFSET_NOT_SPECIFIED), 14)
    ensures ParsePart(s, 14)
            == Good(Part(SIZE_REMAINING, OFFSET_NOT_SPECIFIED,
                         AutoName(SIZE_REMAINING, OFFSET_NOT_SPECIFIED), true, false), 15)
  {
    hide AutoName, Value;
    hide Strtoul;
    OneDigit(s, 11, 4);
    assert Scaled(4, 'k') == 0x1000;
  }

  lemma SmallList(s: string)
    requires s == "mtdparts=n:4k,-"
    ensures ParseParts(SMALL, s, 11, 0, []) == Good([FIRST, REST], 15)
  {
    hide ParsePart, AutoName;
    SmallParts(s);
    assert Acceptable(SMALL, FIRST) && Acceptable(SMALL, REST);
    assert [] + [FIRST] == [FIRST] && [FIRST] + [REST] == [FIRST, REST];
    assert ParseParts(SMALL, s, 15, 0x1800, [FIRST, REST]) == Good([FIRST, REST], 15);
    assert ParseParts(SMALL, s, 14, 0x1000, [FIRST]) == ParseParts(SMALL, s, 15, 0x1800, [FIRST, REST]);
  }

  lemma SmallDevice(s: string)
    requires s == "mtdparts=n:4k,-"
    ensures ParseDevice([SMALL], [], s, 9) == Good(DeviceDef(SMALL, [FIRST, REST]), 15)
  {
    hide ParseParts, AutoName, SortParts;
    SmallList(s);
    FindIs(s, 9, 10, ':');
    assert s[9..10] == "n";
    assert StartOffset([], SMALL) == 0 && FindId([SMALL], "n") == Good(SMALL, 0);
    SortKeeps([FIRST, REST]);
  }

  lemma SmallTable(s: string)
    requires s == "mtdparts=n:4k,-"
    ensures ParseTable([SMALL], s) == [DeviceDef(SMALL, [FIRST, REST])]
  {
    hide ParseDevice, AutoName;
    var dev := DeviceDef(SMALL, [FIRST, REST]);
    SmallDevice(s);
    assert [] + [dev] == [dev];
    assert ParseDevices([SMALL], s, 15, [dev]) == Good([dev], 15);
    assert ParseDevices([SMALL], s, 9, []) == Good([dev], 15);
    assert s[0..9] == "mtdparts=";
  }

  /** The parser accepts what is left over however small it is, but not its size when it is written out:
      this text is accepted, and its table is lost on reloading. */
  lemma {:induction false} SmallRestIsLost()
    ensures var devs := ParseTable([SMALL], "mtdparts=n:4k,-");
            devs == [DeviceDef(SMALL, [FIRST, REST])] && ParseTable([SMALL], TableText(devs)) == []
  {
    hide ParseTable, AutoName, TableText, TableTurned, RereadTable;
    var s := "mtdparts=n:4k,-";
    SmallTable(s);
    ReloadIsStable([SMALL], s);
    var devs := ParseTable([SMALL], s);
    assert devs[0].parts[1].size < MIN_PART_SIZE;
    assert !Rereadable(devs[0]);
  }

  // ---- a text whose partitions change places

  const PLAIN := MtdId(0, 0x4000, "n", Nand(0x1000))

  function Spot(name: char): Part {
    Part(0x1000, 0x1000, [name], false, false)
  }

  /** "4k@4k(a)" stands at p, in front of a comma or the end. */
  ghost predicate SpotAt(s: string, p: nat, c: char) {
    && p + 8 <= |s| && s[p] == '4' && s[p + 1] == 'k' && s[p + 2] == '@' && s[p + 3] == '4' && s[p + 4] == 'k'
    && s[p + 5] == '(' && s[p + 6] == c && s[p + 7] == ')' && c != ')'
    && (p + 8 < |s| ==> s[p + 8] == ',')
  }

  lemma SpotSizes(s: string, p: nat)
    requires p + 6 <= |s| && s[p] == '4' && s[p + 1] == 'k' && s[p + 2] == '@' && s[p + 3] == '4' && s[p + 4] == 'k'
    requires s[p + 5] == '('
    ensures ParseSize(s, p) == Good(0x1000, p + 2) && ParseOffset(s, p + 2) == (0x1000, p + 5)
  {
    hide Value;
    OneDigit(s, p, 4);
    OneDigit(s, p + 3, 4);
    hide Strtoul;
    assert Scaled(4, 'k') == 0x1000;
  }

  lemma SpotParsed(s: string, p: nat, c: char)
    requires SpotAt(s, p, c)
    ensures ParsePart(s, p) == Good(Spot(c), if p + 8 < |s| then p + 9 else p + 8)
  {
    hide ParseSize, ParseOffset;
    SpotSizes(s, p);
    assert s[p + 6..p + 7] == [c];
    FindIs(s, p + 6, p + 7, ')');
    assert !Has(s, p + 8, "ro") by {
      if Has(s, p + 8, "ro") {
        HasAt(s, p + 8, "ro", 0);
      }
    }
  }

  lemma SwapTwo(a: Part, b: Part)
    requires a.offset == b.offset > 0
    ensures SortParts([a, b]) == Good([b, a], 0)
  {
    assert [a, b][..1] == [a] && [a][..0] == [];
    var none := SortParts([]).value;
    assert none[..0] + [a] + none[0..] == [a];
    assert SortParts([a]) == Good([a], 0);
    assert Offsets([a])[0] == a.offset;
    assert [a][..0] + [b] + [a][0..] == [b, a];
  }

  lemma SpotParts(s: string, a: Part, b: Part)
    requires |s| == 28 && s[11] != ';' && s[20] != ';' && a == Spot('a') && b == Spot('b')
    requires ParsePart(s, 11) == Good(a, 20) && ParsePart(s, 20) == Good(b, 28)
    ensures ParseParts(PLAIN, s, 11, 0, []) == Good([a, b], 28)
  {
    hide ParsePart;
    assert Acceptable(PLAIN, a) && Acceptable(PLAIN, b);
    assert [] + [a] == [a] && [a] + [b] == [a, b];
    assert ParseParts(PLAIN, s, 28, 0x2000, [a, b]) == Good([a, b], 28);
    assert ParseParts(PLAIN, s, 20, 0x2000, [a]) == Good([a, b], 28);
  }

  /** The text with both of them. */
  ghost predicate SpotText(s: string) {
    |s| == 28 && Has(s, 0, "mtdparts=") && s[9] == 'n' && s[10] == ':' && SpotAt(s, 11, 'a') && SpotAt(s, 20, 'b')
  }

  lemma SpotDevice(s: string)
    requires SpotText(s)
    ensures ParseDevice([PLAIN], [], s, 9) == Good(DeviceDef(PLAIN, [Spot('b'), Spot('a')]), 28)
  {
    hide ParsePart, SortParts;
    SpotParsed(s, 11, 'a');
    SpotParsed(s, 20, 'b');
    SpotParts(s, Spot('a'), Spot('b'));
    hide ParseParts, SpotAt;
    SwapTwo(Spot('a'), Spot('b'));
    FindIs(s, 9, 10, ':');
    assert s[9..10] == "n" && StartOffset([], PLAIN) == 0;
  }

  lemma SpotTable(s: string)
    requires SpotText(s)
    ensures ParseTable([PLAIN], s) == [DeviceDef(PLAIN, [Spot('b'), Spot('a')])]
  {
    hide ParseDevice, SpotAt, Has;
    var dev := DeviceDef(PLAIN, [Spot('b'), Spot('a')]);
    SpotDevice(s);
    assert [] + [dev] == [dev] && ParseDevices([PLAIN], s, 28, [dev]) == Good([dev], 28);
    assert ParseDevices([PLAIN], s, 9, []) == Good([dev], 28);
  }

  lemma SpotIs(s: string)
    requires s == "mtdparts=n:4k@4k(a),4k@4k(b)"
    ensures SpotText(s)
  {
    assert s[0..9] == "mtdparts=";
  }

  lemma SpotsTurned(devs: seq<DeviceDef>)
    requires devs == [DeviceDef(PLAIN, [Spot('b'), Spot('a')])]
    ensures TableTurned(devs) == [DeviceDef(PLAIN, [Spot('a'), Spot('b')])] && AllRereadable(devs, 0)
  {
    hide RunsReversed, SortParts;
    var a, b := Spot('a'), Spot('b');
    assert RereadAll([b, a]) == [b, a];
    SwapTwo(b, a);
    SortReverses([b, a]);
    assert TableTurned(devs)[0] == DeviceDef(PLAIN, [a, b]);
  }

  /** Two partitions with one offset change places each time the table is saved and reloaded. */
  lemma {:induction false} EqualOffsetsSwap()
    ensures var devs := ParseTable([PLAIN], "mtdparts=n:4k@4k(a),4k@4k(b)");
            && devs == [DeviceDef(PLAIN, [Spot('b'), Spot('a')])]
            && ParseTable([PLAIN], TableText(devs)) == [DeviceDef(PLAIN, [Spot('a'), Spot('b')])]
  {
    hide ParseTable, TableText, TableTurned, AllRereadable, SpotText;
    var s := "mtdparts=n:4k@4k(a),4k@4k(b)";
    SpotIs(s);
    SpotTable(s);
    ReloadIsStable([PLAIN], s);
    SpotsTurned(ParseTable([PLAIN], s));
  }
}
