/** Where a partition starts whose definition does not say so. */
module MtdPlacement {
  import opened CString
  import opened MtdGrammar
  import opened MtdSort

  predicate SameTypeAndNumber(a: MtdId, b: MtdId) {
    a.num == b.num && (a.geometry.Nor? <==> b.geometry.Nor?)
  }

  /** A device is found in the table by its type and its number, both of them. */
  lemma DeviceFound(devs: seq<DeviceDef>, id: MtdId, k: nat)
    requires k <= |devs| && (k < |devs| ==> SameTypeAndNumber(devs[k].id, id))
    requires forall i :: 0 <= i < k ==> !SameTypeAndNumber(devs[i].id, id)
    ensures DeviceIndex(devs, id) == k
  {
  }

  /** The first definition of a text has no "@<offset>" behind its size. */
  ghost predicate SaysNoOffset(text: string) {
    var colon := Find(text, 0, ':');
    colon < |text| && ParseSize(text, colon + 1).Good? && CharAt(text, ParseSize(text, colon + 1).next) != '@'
  }

  lemma {:induction false} ParsedFront(id: MtdId, s: string, p: nat, offset: u32, acc: seq<Part>)
    requires p <= |s| && ParseParts(id, s, p, offset, acc).Good?
    ensures acc <= ParseParts(id, s, p, offset, acc).value
    decreases |s| - p
  {
    hide ParsePart, Acceptable, Place;
    if p < |s| && s[p] != ';' {
      var def := ParsePart(s, p);
      var part := Place(id, def.value, offset);
      ParsedFront(id, s, def.next, Plus(part.offset, part.size), acc + [part]);
    }
  }

  lemma NoOffsetParsed(s: string, p: nat)
    requires p <= |s| && ParsePart(s, p).Good? && ParseSize(s, p).Good? && CharAt(s, ParseSize(s, p).next) != '@'
    ensures ParsePart(s, p).value.offset == OFFSET_NOT_SPECIFIED
  {
    hide ParseSize, ParseName, ParseRo, ParseEnd, AutoName;
  }

  lemma OneSorted(part: Part)
    ensures SortParts([part]) == Good([part], 0)
  {
    assert [part][..0] == [];
    assert [][..0] + [part] + [][0..] == [part];
  }

  /** A single definition without an offset starts behind the last partition that its device has in the table,
      and at zero when the device has none. */
  lemma {:induction false} DefaultPlace(ids: seq<MtdId>, devs: seq<DeviceDef>, s: string)
    requires ParseDevice(ids, devs, s, 0).Good? && |ParseDevice(ids, devs, s, 0).value.parts| == 1 && SaysNoOffset(s)
    ensures var dev := ParseDevice(ids, devs, s, 0).value;
            var k := DeviceIndex(devs, dev.id);
            dev.parts[0].offset == if k == |devs| || devs[k].parts == [] then 0
                                   else
                                     var last := devs[k].parts[|devs[k].parts| - 1];
                                     (last.offset + last.size) % 0x1_0000_0000
  {
    hide ParsePart, SortParts, Acceptable, FindId, DeviceIndex;
    var dev, p := ParseDevice(ids, devs, s, 0).value, Find(s, 0, ':') + 1;
    var start := StartOffset(devs, dev.id);
    var parts := ParseParts(dev.id, s, p, start, []).value;
    assert SortParts(parts).Good? && |parts| == 1;
    var def := ParsePart(s, p);
    NoOffsetParsed(s, p);
    var first := Place(dev.id, def.value, start);
    assert [] + [first] == [first];
    ParsedFront(dev.id, s, def.next, Plus(first.offset, first.size), [first]);
    assert parts == [first];
    OneSorted(first);
  }

  /** A single definition without an offset, for the k-th device, behind the last partition there. */
  ghost predicate GoesBehind(devs: seq<DeviceDef>, s: string, def: Parsed<DeviceDef>, k: nat, offset: u32) {
    def.Good? && |def.value.parts| == 1 && SaysNoOffset(s) && k < |devs| && devs[k].parts != [] ==>
      var last := devs[k].parts[|devs[k].parts| - 1];
      offset == (last.offset + last.size) % 0x1_0000_0000
  }

  lemma DefinedPlace(ids: seq<MtdId>, devs: seq<DeviceDef>, s: string)
    ensures var def := ParseDevice(ids, devs, s, 0);
            def.Good? ==> GoesBehind(devs, s, def, DeviceIndex(devs, def.value.id), def.value.parts[0].offset)
  {
    hide ParseDevice, SaysNoOffset, DeviceIndex;
    var def := ParseDevice(ids, devs, s, 0);
    if def.Good? && |def.value.parts| == 1 && SaysNoOffset(s) {
      DefaultPlace(ids, devs, s);
    }
  }

  // ---- overlaps

  predicate Overlap(a: Part, b: Part) {
    a.offset < b.offset + b.size && b.offset < a.offset + a.size
  }

  ghost predicate NoneOverlap(parts: seq<Part>) {
    forall i, j :: 0 <= i < j < |parts| ==> !Overlap(parts[i], parts[j])
  }

  /** An acceptable partition ends inside its device. */
  lemma EndsInside(id: MtdId, part: Part)
    requires Acceptable(id, part)
    ensures 0 < part.size && Plus(part.offset, part.size) == part.offset + part.size <= id.size
  {
    hide AlignmentOk;
  }

  /** Behind the last partition of an ordered list, a new one overlaps no old one exactly if no old one reaches
      farther than the last. */
  lemma BehindTheLast(id: MtdId, parts: seq<Part>, part: Part)
    requires parts != [] && Ascending(parts) && Acceptable(id, part)
    requires forall i :: 0 <= i < |parts| ==> Acceptable(id, parts[i])
    requires var last := parts[|parts| - 1]; part.offset == (last.offset + last.size) % 0x1_0000_0000
    ensures var last := parts[|parts| - 1];
            (forall i :: 0 <= i < |parts| ==> !Overlap(parts[i], part))
            <==> forall i :: 0 <= i < |parts| ==> parts[i].offset + parts[i].size <= last.offset + last.size
  {
    hide Acceptable;
    var n := |parts| - 1;
    EndsInside(id, parts[n]);
    EndsInside(id, part);
    forall i | 0 <= i < |parts|
      ensures !Overlap(parts[i], part) <==> parts[i].offset + parts[i].size <= parts[n].offset + parts[n].size
    {
      EndsInside(id, parts[i]);
    }
  }

  /** In particular none, when the old ones do not overlap each other. */
  lemma StaysApart(id: MtdId, parts: seq<Part>, part: Part)
    requires parts != [] && Ascending(parts) && Acceptable(id, part) && NoneOverlap(parts)
    requires forall i :: 0 <= i < |parts| ==> Acceptable(id, parts[i])
    requires var last := parts[|parts| - 1]; part.offset == (last.offset + last.size) % 0x1_0000_0000
    ensures NoneOverlap(parts + [part])
  {
    hide Acceptable;
    var n := |parts| - 1;
    forall i | 0 <= i < |parts| ensures parts[i].offset + parts[i].size <= parts[n].offset + parts[n].size {
      EndsInside(id, parts[i]);
      EndsInside(id, parts[n]);
      if i < n {
        assert !Overlap(parts[i], parts[n]);
      }
    }
    BehindTheLast(id, parts, part);
  }
}
