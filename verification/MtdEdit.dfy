/** What "mtdparts add" and "mtdparts del" make of the device list. Every edit keeps what the parser
    establishes, so a table that was edited any number of times can still be saved and reloaded. */
module MtdEdit {
  import opened CString
  import opened MtdGrammar
  import opened MtdPlacement
  import opened MtdReach
  import opened MtdRoundTrip
  import opened MtdSort

  /** A new definition, or the d-th partition of the k-th device deleted. */
  datatype Edit = Add(text: string) | Del(k: nat, d: nat)

  /** The list with a partition in its place. */
  function Put(parts: seq<Part>, part: Part): seq<Part> {
    var k := InsertPos(Offsets(parts), part.offset);
    parts[..k] + [part] + parts[k..]
  }

  /** part_add on the k-th device. */
  function Grown(devs: seq<DeviceDef>, k: nat, def: Part): seq<DeviceDef>
    requires k < |devs|
  {
    var part := FillSize(devs[k].id, def);
    if Acceptable(devs[k].id, part) && !Rejected(Offsets(devs[k].parts), part.offset) then
      devs[k := devs[k].(parts := Put(devs[k].parts, part))]
    else devs
  }

  /** A definition that names a device that is there already adds its first partition to that device. */
  function Added(ids: seq<MtdId>, devs: seq<DeviceDef>, text: string): seq<DeviceDef> {
    match ParseDevice(ids, devs, text, 0)
    case Bad => devs
    case Good(dev, _) =>
      var k := DeviceIndex(devs, dev.id);
      if k == |devs| then devs + [dev] else Grown(devs, k, dev.parts[0])
  }

  /** part_del: with its last partition, a device goes, too. */
  function Shrunk(devs: seq<DeviceDef>, k: nat, d: nat): seq<DeviceDef>
    requires k < |devs| && d < |devs[k].parts|
  {
    if |devs[k].parts| == 1 then devs[..k] + devs[k + 1..]
    else devs[k := devs[k].(parts := devs[k].parts[..d] + devs[k].parts[d + 1..])]
  }

  function Edited(ids: seq<MtdId>, devs: seq<DeviceDef>, e: Edit): seq<DeviceDef> {
    match e
    case Add(text) => Added(ids, devs, text)
    case Del(k, d) => if k < |devs| && d < |devs[k].parts| then Shrunk(devs, k, d) else devs
  }

  function EditAll(ids: seq<MtdId>, devs: seq<DeviceDef>, edits: seq<Edit>): seq<DeviceDef>
    decreases |edits|
  {
    if edits == [] then devs else EditAll(ids, Edited(ids, devs, edits[0]), edits[1..])
  }

  // ---- what edits keep

  lemma FilledTwice(id: MtdId, part: Part)
    ensures FillSize(id, FillSize(id, part)) == FillSize(id, part)
  {
  }

  lemma PutKeepsGood(id: MtdId, parts: seq<Part>, part: Part)
    requires GoodParts(id, parts) && GoodPart(id, part)
    ensures GoodParts(id, Put(parts, part))
  {
    hide GoodPart;
  }

  lemma PutKeepsDevice(ids: seq<MtdId>, dev: DeviceDef, part: Part)
    requires GoodDevice(ids, dev) && GoodPart(dev.id, part) && !Rejected(Offsets(dev.parts), part.offset)
    ensures GoodDevice(ids, dev.(parts := Put(dev.parts, part)))
  {
    hide GoodPart, GoodParts, Ascending, OneAtZero, Rejected, InsertPos;
    PutKeepsGood(dev.id, dev.parts, part);
    InsertKeeps(dev.parts, part);
  }

  lemma GrownIsGood(ids: seq<MtdId>, devs: seq<DeviceDef>, k: nat, def: Part)
    requires GoodDevices(ids, devs) && k < |devs| && (!def.autoName ==> def.name != "" && ')' !in def.name)
    ensures GoodDevices(ids, Grown(devs, k, def))
  {
    hide GoodDevice, Put, Acceptable, SameDevice;
    var dev, part := devs[k], FillSize(devs[k].id, def);
    if Acceptable(dev.id, part) && !Rejected(Offsets(dev.parts), part.offset) {
      FilledTwice(dev.id, def);
      PutKeepsDevice(ids, dev, part);
    }
  }

  lemma FirstIsNamed(ids: seq<MtdId>, dev: DeviceDef)
    requires GoodDevice(ids, dev)
    ensures dev.parts != [] && (!dev.parts[0].autoName ==> dev.parts[0].name != "" && ')' !in dev.parts[0].name)
  {
    assert GoodPart(dev.id, dev.parts[0]);
  }

  lemma AddedIsGood(ids: seq<MtdId>, devs: seq<DeviceDef>, text: string)
    requires GoodDevices(ids, devs)
    ensures GoodDevices(ids, Added(ids, devs, text))
  {
    hide GoodDevice, ParseDevice, DeviceIndex, SameDevice, Grown;
    DeviceIsGood(ids, devs, text, 0);
    var r := ParseDevice(ids, devs, text, 0);
    if r.Good? && DeviceIndex(devs, r.value.id) < |devs| {
      FirstIsNamed(ids, r.value);
      GrownIsGood(ids, devs, DeviceIndex(devs, r.value.id), r.value.parts[0]);
    }
  }

  lemma CutKeepsDevice(ids: seq<MtdId>, dev: DeviceDef, d: nat)
    requires GoodDevice(ids, dev) && d < |dev.parts| && |dev.parts| > 1
    ensures GoodDevice(ids, dev.(parts := dev.parts[..d] + dev.parts[d + 1..]))
  {
    hide GoodPart;
    var r := dev.parts[..d] + dev.parts[d + 1..];
    assert forall i :: 0 <= i < |r| ==> r[i] == dev.parts[if i < d then i else i + 1];
  }

  lemma ShrunkIsGood(ids: seq<MtdId>, devs: seq<DeviceDef>, k: nat, d: nat)
    requires GoodDevices(ids, devs) && k < |devs| && d < |devs[k].parts|
    ensures GoodDevices(ids, Shrunk(devs, k, d))
  {
    hide GoodDevice, SameDevice;
    if |devs[k].parts| > 1 {
      CutKeepsDevice(ids, devs[k], d);
    }
  }

  lemma {:induction false} EditsKeepGood(ids: seq<MtdId>, devs: seq<DeviceDef>, edits: seq<Edit>)
    requires GoodDevices(ids, devs)
    ensures GoodDevices(ids, EditAll(ids, devs, edits))
    decreases |edits|
  {
    hide GoodDevices, Added, Shrunk;
    if edits != [] {
      match edits[0] {
        case Add(text) => AddedIsGood(ids, devs, text);
        case Del(k, d) =>
          if k < |devs| && d < |devs[k].parts| {
            ShrunkIsGood(ids, devs, k, d);
          }
      }
      EditsKeepGood(ids, Edited(ids, devs, edits[0]), edits[1..]);
    }
  }

  /** A table read from any text and edited any number of times comes back from its own text with the
      runs of equal offsets turned around, or not at all if a size is illegible. */
  lemma EditedTableReloads(ids: seq<MtdId>, text: string, edits: seq<Edit>)
    requires DistinctNames(ids)
    ensures var devs := EditAll(ids, ParseTable(ids, text), edits);
            ParseTable(ids, TableText(devs)) == if AllRereadable(devs, 0) then TableTurned(devs) else []
    ensures var devs := EditAll(ids, ParseTable(ids, text), edits);
            AllDifferent(devs) ==>
              (ParseTable(ids, TableText(devs)) == RereadTable(devs) <==> AllRereadable(devs, 0) && AllStrict(devs))
  {
    hide *;
    ParsedIsGood(ids, text);
    EditsKeepGood(ids, ParseTable(ids, text), edits);
    GoodReloads(ids, EditAll(ids, ParseTable(ids, text), edits));
  }

  // ---- where a definition without an offset goes

  lemma PutLast(id: MtdId, parts: seq<Part>, part: Part)
    requires parts != [] && Ascending(parts) && Acceptable(id, part) && Acceptable(id, parts[|parts| - 1])
    requires var last := parts[|parts| - 1]; part.offset == (last.offset + last.size) % 0x1_0000_0000
    ensures Put(parts, part) == parts + [part]
  {
    hide Acceptable;
    EndsInside(id, parts[|parts| - 1]);
    InsertPosIs(Offsets(parts), part.offset, |parts|);
  }

  lemma PartsAreGood(ids: seq<MtdId>, dev: DeviceDef)
    requires GoodDevice(ids, dev)
    ensures dev.parts != [] && Ascending(dev.parts)
    ensures forall i :: 0 <= i < |dev.parts| ==> Acceptable(dev.id, dev.parts[i])
  {
    hide Acceptable;
    assert forall i :: 0 <= i < |dev.parts| ==> GoodPart(dev.id, dev.parts[i]);
  }

  /** "mtdparts add" without an offset, on a device of the table: the new partition stands last and starts behind
      the partition that was the last one; partitions that did not overlap still do not. */
  lemma {:induction false} AddGoesBehind(ids: seq<MtdId>, devs: seq<DeviceDef>, text: string, dev: DeviceDef, next: nat)
    requires GoodDevices(ids, devs) && ParseDevice(ids, devs, text, 0) == Good(dev, next)
    requires |dev.parts| == 1 && SaysNoOffset(text) && DeviceIndex(devs, dev.id) < |devs|
    ensures var k, after := DeviceIndex(devs, dev.id), Added(ids, devs, text);
            var parts, part := devs[k].parts, FillSize(devs[k].id, dev.parts[0]);
            after != devs ==>
              && parts != [] && part.offset == (parts[|parts| - 1].offset + parts[|parts| - 1].size) % 0x1_0000_0000
              && after == devs[k := devs[k].(parts := parts + [part])]
              && (NoneOverlap(parts) ==> NoneOverlap(parts + [part]))
  {
    hide ParseDevice, Acceptable, DeviceIndex, NoneOverlap, SaysNoOffset, FillSize, Put, Rejected, GoodDevice;
    var k := DeviceIndex(devs, dev.id);
    var parts, part := devs[k].parts, FillSize(devs[k].id, dev.parts[0]);
    DefaultPlace(ids, devs, text);
    PartsAreGood(ids, devs[k]);
    if Acceptable(devs[k].id, part) {
      PutLast(devs[k].id, parts, part);
      if NoneOverlap(parts) {
        StaysApart(devs[k].id, parts, part);
      }
    }
  }
}
