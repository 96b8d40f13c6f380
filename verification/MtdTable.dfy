/** The device and partition lists of cmd_jffs2.c, with the current selection and
    the environment variables that mirror it.

    Counters keep their widths: current_partnum has 8 bits, num_parts and
    mtddevnum have 16.
  */
module MtdTable {
  import opened CString
  import opened MtdGrammar
  import opened MtdParser
  import opened MtdPartId
  import opened MtdPlacement
  import opened MtdSort
  import opened Options

  const U8 := 0x100
  const U16 := 0x1_0000
  const MTDPARTS_MAXLEN := 512
  const PARTITION_MAXLEN := 16

  /** A list entry; two entries are the same partition only if they are the same object. */
  class PartInfo {
    const def: Part

    constructor (def: Part)
      ensures this.def == def
    {
      this.def := def;
    }
  }

  function Defs(parts: seq<PartInfo>): (r: seq<Part>)
    ensures |r| == |parts|
    ensures forall i :: 0 <= i < |parts| ==> r[i] == parts[i].def
  {
    seq(|parts|, i requires 0 <= i < |parts| => parts[i].def)
  }

  ghost predicate Sorted(parts: seq<PartInfo>) {
    forall i, j :: 0 <= i < j < |parts| ==> parts[i].def.offset <= parts[j].def.offset
  }

  ghost predicate Distinct(parts: seq<PartInfo>) {
    forall i, j :: 0 <= i < j < |parts| ==> parts[i] != parts[j]
  }

  /** The list with a partition put in front of the first one that does not start before it. */
  function Inserted(parts: seq<PartInfo>, part: PartInfo): (r: seq<PartInfo>)
    ensures |r| == |parts| + 1 && part in r
  {
    var k := InsertPos(Offsets(Defs(parts)), part.def.offset);
    assert (parts[..k] + [part] + parts[k..])[k] == part;
    parts[..k] + [part] + parts[k..]
  }

  function Removed(parts: seq<PartInfo>, d: nat): (r: seq<PartInfo>)
    requires d < |parts|
    ensures |r| == |parts| - 1
    ensures forall i :: 0 <= i < |r| ==> r[i] == parts[if i < d then i else i + 1]
  {
    parts[..d] + parts[d + 1..]
  }

  /** Element by element: what stands in front of the new entry starts before it, what stands behind it does not. */
  lemma InsertedAt(parts: seq<PartInfo>, part: PartInfo) returns (k: nat)
    requires Sorted(parts)
    ensures k <= |parts| && |Inserted(parts, part)| == |parts| + 1
    ensures var r := Inserted(parts, part);
            r[k] == part && r[..k] == parts[..k] && forall i :: k < i < |r| ==> r[i] == parts[i - 1]
    ensures forall i :: 0 <= i < |parts| ==> (i < k <==> parts[i].def.offset < part.def.offset)
  {
    k := InsertPos(Offsets(Defs(parts)), part.def.offset);
    assert forall i :: 0 <= i < |parts| ==> Offsets(Defs(parts))[i] == parts[i].def.offset;
  }

  lemma OrderedWith(parts: seq<PartInfo>, part: PartInfo, k: nat, r: seq<PartInfo>)
    requires Sorted(parts) && Distinct(parts) && part !in parts && k <= |parts| && |r| == |parts| + 1
    requires r[k] == part && r[..k] == parts[..k] && forall i :: k < i < |r| ==> r[i] == parts[i - 1]
    requires forall i :: 0 <= i < |parts| ==> (i < k <==> parts[i].def.offset < part.def.offset)
    ensures Sorted(r) && Distinct(r)
  {
    forall i, j | 0 <= i < j < |r|
      ensures r[i] != r[j] && r[i].def.offset <= r[j].def.offset
    {
      assert i < k ==> r[i] == r[..k][i] == parts[i];
      assert j < k ==> r[j] == r[..k][j] == parts[j];
    }
  }

  lemma InsertedOrdered(parts: seq<PartInfo>, part: PartInfo)
    requires Sorted(parts) && Distinct(parts) && part !in parts
    ensures Sorted(Inserted(parts, part)) && Distinct(Inserted(parts, part))
  {
    var k := InsertedAt(parts, part);
    hide *;
    OrderedWith(parts, part, k, Inserted(parts, part));
  }

  /** current_partnum after an insertion into the selected device, an 8-bit counter. */
  function NumberAfterInsert(parts: seq<PartInfo>, part: PartInfo, cur: nat): nat {
    if cur < |parts| && part.def.offset <= parts[cur].def.offset then (cur + 1) % U8 else cur
  }

  /** current_partnum after entry d was taken off the list of the selected device. */
  function NumberAfterDelete(parts: seq<PartInfo>, d: nat, cur: nat): nat
    requires d < |parts|
  {
    if cur >= |parts| then cur
    else if cur == d then 0
    else if parts[d].def.offset <= parts[cur].def.offset then (cur - 1) % U8
    else cur
  }

  /** The place that the search loop finds decides about both the list and the number. */
  lemma InsertedHere(parts: seq<PartInfo>, part: PartInfo, cur: nat, k: nat)
    requires Sorted(parts) && k == InsertPos(Offsets(Defs(parts)), part.def.offset) <= |parts|
    requires forall i :: 0 <= i < |parts| ==> (i < k <==> parts[i].def.offset < part.def.offset)
    ensures Inserted(parts, part) == parts[..k] + [part] + parts[k..]
    ensures NumberAfterInsert(parts, part, cur)
            == if k < |parts| && cur < |parts| && parts[k].def.offset <= parts[cur].def.offset then (cur + 1) % U8
               else cur
  {
    hide InsertPos, Offsets, Defs;
  }

  ghost predicate Denotes(parts: seq<PartInfo>, cur: nat, part: PartInfo) {
    cur < |parts| && parts[cur] == part
  }

  /** After an insertion the number still denotes the selected partition, unless
      the partition has number 255 and moves up. */
  lemma SelectionFollowsInsert(parts: seq<PartInfo>, part: PartInfo, cur: nat)
    requires Sorted(parts) && Distinct(parts) && part !in parts && cur < |parts| && cur < U8
    ensures Denotes(Inserted(parts, part), NumberAfterInsert(parts, part, cur), parts[cur])
            <==> (cur < U8 - 1 || part.def.offset > parts[cur].def.offset)
    ensures NumberAfterInsert(parts, part, cur) <= |parts| && NumberAfterInsert(parts, part, cur) < U8
  {
    hide Inserted, InsertPos, Offsets, Defs, Sorted;
    var k := InsertedAt(parts, part);
    var r, number := Inserted(parts, part), NumberAfterInsert(parts, part, cur);
    if cur < k {
      assert number == cur && r[cur] == r[..k][cur] == parts[cur];
    } else if cur < U8 - 1 {
      assert number == cur + 1 && r[cur + 1] == parts[cur];
    } else {
      assert number == 0 && (k > 0 ==> r[0] == r[..k][0] == parts[0]);
    }
  }

  /** The number stays in range, unless a later entry with the offset of number 0 goes. */
  lemma NumberStaysInRange(parts: seq<PartInfo>, d: nat, cur: nat)
    requires Sorted(parts) && d < |parts| && cur < |parts| && cur < U8 && |parts| > 1
    requires d <= cur || parts[d].def.offset != parts[cur].def.offset
    ensures NumberAfterDelete(parts, d, cur) < |parts| - 1 && NumberAfterDelete(parts, d, cur) < U8
  {
  }

  /** After deleting another entry the number still denotes the selected
      partition, unless a later entry with the same offset was deleted. */
  lemma SelectionFollowsDelete(parts: seq<PartInfo>, d: nat, cur: nat)
    requires Sorted(parts) && Distinct(parts) && d < |parts| && cur < |parts| && cur < U8 && cur != d
    ensures Denotes(Removed(parts, d), NumberAfterDelete(parts, d, cur), parts[cur])
            <==> (d < cur || parts[d].def.offset != parts[cur].def.offset)
  {
  }

  lemma NumberFacts(parts: seq<PartInfo>, d: nat, cur: nat)
    requires Sorted(parts) && Distinct(parts) && d < |parts| && cur < |parts| && cur < U8 && |parts| > 1
    ensures parts[cur] == parts[d] <==> cur == d
    ensures d <= cur || parts[d].def.offset != parts[cur].def.offset ==> NumberAfterDelete(parts, d, cur) < |parts| - 1
    ensures NumberAfterDelete(parts, d, cur) < U8 && (cur == d ==> NumberAfterDelete(parts, d, cur) == 0)
    ensures cur != d ==>
              (Denotes(Removed(parts, d), NumberAfterDelete(parts, d, cur), parts[cur])
               <==> (d < cur || parts[d].def.offset != parts[cur].def.offset))
  {
    hide Removed;
    if cur != d {
      SelectionFollowsDelete(parts, d, cur);
    }
    if d <= cur || parts[d].def.offset != parts[cur].def.offset {
      NumberStaysInRange(parts, d, cur);
    }
  }

  lemma RemovedOrdered(parts: seq<PartInfo>, d: nat)
    requires Sorted(parts) && Distinct(parts) && d < |parts|
    ensures Sorted(Removed(parts, d)) && Distinct(Removed(parts, d))
  {
    var r := Removed(parts, d);
    assert forall i :: 0 <= i < |r| ==> r[i] == parts[if i < d then i else i + 1];
  }

  class Device {
    const id: MtdId
    var parts: seq<PartInfo>
    var numParts: nat

    constructor (id: MtdId)
      ensures this.id == id && parts == [] && numParts == 0
    {
      this.id := id;
      parts := [];
      numParts := 0;
    }

    ghost predicate Ordered()
      reads this
    {
      numParts == |parts| < U16 && Sorted(parts) && Distinct(parts)
    }

    function Def(): DeviceDef
      reads this
    {
      DeviceDef(id, Defs(parts))
    }

    function Named(partNum: nat): PartId {
      PartId(id.geometry.Nor?, id.num, partNum)
    }

    /** list_del on the entry d, and the counter one lower. */
    method Drop(d: nat)
      requires Ordered() && d < |parts|
      modifies this
      ensures Ordered() && parts == Removed(old(parts), d)
    {
      hide Sorted, Distinct, Removed;
      RemovedOrdered(parts, d);
      parts := Removed(parts, d);
      numParts := (numParts - 1) % U16;
    }

    /** jffs2_part_info */
    function Entry(partNum: nat): (r: PartInfo?)
      reads this
    {
      if partNum < numParts && partNum < |parts| then parts[partNum] else null
    }
  }

  function Contents(devices: seq<Device>): (r: seq<DeviceDef>)
    reads devices
    ensures |r| == |devices|
    ensures forall i :: 0 <= i < |devices| ==> r[i] == devices[i].Def()
  {
    if devices == [] then [] else Contents(devices[..|devices| - 1]) + [devices[|devices| - 1].Def()]
  }

  /** Partitions on the first k devices of the list. */
  function PartsBefore(devices: seq<Device>, k: nat): nat
    requires k <= |devices|
    reads devices
  {
    if k == 0 then 0 else PartsBefore(devices, k - 1) + devices[k - 1].numParts
  }

  ghost predicate DevicesOk(devices: seq<Device>)
    reads devices
  {
    && (forall i :: 0 <= i < |devices| ==> devices[i].parts != [] && devices[i].Ordered())
    && (forall i, j :: 0 <= i < j < |devices| ==>
          devices[i] != devices[j] && !SameDevice(devices[i].id, devices[j].id))
  }

  function Wrap16(x: nat): nat {
    x % U16
  }

  lemma WrapAdd(a: nat, b: nat)
    ensures Wrap16(Wrap16(a) + b) == Wrap16(a + b)
  {
  }

  predicate IsDevice(id: MtdId, nor: bool, num: nat) {
    id.geometry.Nor? == nor && id.num == num
  }

  /** Number of the first device with this type and number, the length of the list when there is none. */
  function FindDevice(devices: seq<Device>, nor: bool, num: nat): (k: nat)
    ensures k <= |devices|
    ensures k < |devices| ==> IsDevice(devices[k].id, nor, num)
    ensures forall i :: 0 <= i < k ==> !IsDevice(devices[i].id, nor, num)
  {
    if devices == [] || IsDevice(devices[0].id, nor, num) then 0 else 1 + FindDevice(devices[1..], nor, num)
  }

  lemma FirstDevice(devices: seq<Device>, nor: bool, num: nat, k: nat)
    requires k <= |devices| && forall i :: 0 <= i < k ==> !IsDevice(devices[i].id, nor, num)
    requires k < |devices| ==> IsDevice(devices[k].id, nor, num)
    ensures FindDevice(devices, nor, num) == k
  {
    var j := FindDevice(devices, nor, num);
  }

  /** The device and the partition number that an identifier names, if the table has them. */
  function PlaceOf(devices: seq<Device>, text: string): (r: Option<(nat, nat)>)
    reads devices
    ensures r.Some? ==> r.value.0 < |devices| && r.value.1 < |devices[r.value.0].parts| && r.value.1 < U8
  {
    var id := ParsePartId(text);
    if id.None? then None
    else
      var k, n := FindDevice(devices, id.value.nor, id.value.num), id.value.part;
      if k < |devices| && n < |devices[k].parts| then Some((k, n)) else None
  }

  /** The identifier that is saved for a partition names that partition. */
  lemma SavedPlace(devices: seq<Device>, k: nat, n: nat)
    requires DevicesOk(devices) && k < |devices| && n < |devices[k].parts| && n < U8
    ensures PlaceOf(devices, IdText(devices[k].Named(n))) == Some((k, n))
  {
    hide ParsePartId, IdText;
    PartIdRoundTrip(devices[k].Named(n));
    FirstDevice(devices, devices[k].id.geometry.Nor?, devices[k].id.num, k);
  }

  lemma NoPlace(devices: seq<Device>)
    ensures PlaceOf(devices, "") == None
  {
  }

  /** The entry of a device is the first one with its type and number. */
  lemma IndexIs(devices: seq<Device>, id: MtdId, k: nat)
    requires k <= |devices| && forall i :: 0 <= i < k ==> !SameDevice(devices[i].id, id)
    requires k < |devices| ==> SameDevice(devices[k].id, id)
    ensures DeviceIndex(Contents(devices), id) == k
  {
    hide SameDevice, Defs;
    assert forall i :: 0 <= i < |devices| ==> Contents(devices)[i].id == devices[i].id;
    var j := DeviceIndex(Contents(devices), id);
  }

  lemma NoDevices(ids: seq<MtdId>, text: string)
    ensures Contents([]) == [] && DevicesOk([])
    ensures ParseTable(ids, text) == if !Has(text, 0, "mtdparts=") || ParseDevices(ids, text, 9, []).Bad? then []
                                     else ParseDevices(ids, text, 9, []).value
  {
    hide ParseDevices;
  }

  lemma DevicesDone(ids: seq<MtdId>, s: string, p: nat, devs: seq<DeviceDef>)
    requires p == |s|
    ensures ParseDevices(ids, s, p, devs) == Good(devs, p)
  {
  }

  lemma {:induction false} PartsBound(id: MtdId, s: string, p: nat, offset: u32, acc: seq<Part>)
    requires p <= |s|
    ensures var r := ParseParts(id, s, p, offset, acc); r.Good? ==> |r.value| <= |acc| + |s| - p
    decreases |s| - p
  {
    var def := ParsePart(s, p);
    if p < |s| && s[p] != ';' && def.Good? {
      var part := Place(id, def.value, offset);
      PartsBound(id, s, def.next, Plus(part.offset, part.size), acc + [part]);
    }
  }

  lemma ContentsSnoc(devices: seq<Device>, dev: Device)
    ensures Contents(devices + [dev]) == Contents(devices) + [dev.Def()]
  {
    hide Device.Def;
    assert (devices + [dev])[..|devices|] == devices;
  }

  lemma NotKnown(devices: seq<Device>, dev: Device)
    requires DeviceIndex(Contents(devices), dev.id) == |devices|
    ensures forall i :: 0 <= i < |devices| ==> !SameDevice(devices[i].id, dev.id)
  {
    hide DeviceIndex, Contents, SameDevice, Defs;
    var k := DeviceIndex(Contents(devices), dev.id);
    forall i | 0 <= i < |devices| ensures !SameDevice(devices[i].id, dev.id) {
      assert Contents(devices)[i] == devices[i].Def();
    }
  }

  /** One turn of the loop over the device definitions. */
  lemma DevicesStep(ids: seq<MtdId>, s: string, p: nat, devs: seq<DeviceDef>)
    requires p < |s|
    ensures var dev := ParseDevice(ids, devs, s, p);
            ParseDevices(ids, s, p, devs)
            == if dev.Bad? || DeviceIndex(devs, dev.value.id) < |devs| then Bad
               else ParseDevices(ids, s, dev.next, devs + [dev.value])
  {
    hide ParseDevice, DeviceIndex;
  }

  lemma DevicesOkSnoc(devices: seq<Device>, dev: Device)
    requires DevicesOk(devices) && dev !in devices && dev.parts != [] && dev.Ordered()
    requires forall i :: 0 <= i < |devices| ==> !SameDevice(devices[i].id, dev.id)
    ensures DevicesOk(devices + [dev])
  {
    hide Device.Ordered, SameDevice;
  }

  lemma SortNone()
    ensures SortParts([]) == Good(Defs([]), 0)
    ensures Sorted([]) && Distinct([])
  {
  }

  lemma SortStep(parts: seq<Part>, i: nat, sorted: seq<PartInfo>, part: PartInfo)
    requires i < |parts| && SortParts(parts[..i]) == Good(Defs(sorted), 0) && part.def == parts[i]
    ensures SortParts(parts[..i + 1])
            == if Rejected(Offsets(Defs(sorted)), part.def.offset) then Bad else Good(Defs(Inserted(sorted, part)), 0)
  {
    assert parts[..i + 1][..i] == parts[..i];
    var k := InsertPos(Offsets(Defs(sorted)), part.def.offset);
    assert Defs(Inserted(sorted, part)) == Defs(sorted)[..k] + [part.def] + Defs(sorted)[k..];
  }

  /** A prefix that cannot be sorted makes the list unsortable. */
  lemma {:induction false} SortBad(parts: seq<Part>, i: nat)
    requires i <= |parts| && SortParts(parts[..i]).Bad?
    ensures SortParts(parts).Bad?
    decreases |parts|
  {
    if i < |parts| {
      assert parts[..|parts| - 1][..i] == parts[..i];
      SortBad(parts[..|parts| - 1], i);
    } else {
      assert parts[..i] == parts;
    }
  }

  /** list_del: the list without one of its entries. */
  function Without(devices: seq<Device>, dev: Device): (r: seq<Device>)
    ensures |r| <= |devices|
  {
    if devices == [] then []
    else if devices[0] == dev then devices[1..]
    else [devices[0]] + Without(devices[1..], dev)
  }

  lemma {:induction false} WithoutIn(devices: seq<Device>, dev: Device)
    ensures |Without(devices, dev)| <= |devices|
    ensures forall x :: x in Without(devices, dev) ==> x in devices
    ensures forall x :: x in devices && x != dev ==> x in Without(devices, dev)
  {
    if devices != [] && devices[0] != dev {
      WithoutIn(devices[1..], dev);
    }
  }

  lemma {:induction false} WithoutDistinct(devices: seq<Device>, dev: Device)
    requires forall i, j :: 0 <= i < j < |devices| ==> devices[i] != devices[j]
    ensures var r := Without(devices, dev); dev !in r && forall i, j :: 0 <= i < j < |r| ==> r[i] != r[j]
  {
    if devices != [] && devices[0] != dev {
      WithoutDistinct(devices[1..], dev);
      WithoutIn(devices[1..], dev);
      assert devices[0] !in devices[1..];
      assert forall i :: 0 < i < |Without(devices, dev)| ==> Without(devices, dev)[i] in Without(devices[1..], dev);
    }
  }

  lemma {:induction false} WithoutOk(devices: seq<Device>, dev: Device)
    requires DevicesOk(devices)
    ensures DevicesOk(Without(devices, dev))
    ensures forall x :: x in Without(devices, dev) ==> x in devices
    ensures forall x :: x in devices && x != dev ==> x in Without(devices, dev)
  {
    WithoutIn(devices, dev);
    if devices != [] && devices[0] != dev {
      WithoutOk(devices[1..], dev);
      assert forall x :: x in devices[1..] ==> devices[0] != x && !SameDevice(devices[0].id, x.id);
      assert forall i :: 0 < i < |Without(devices, dev)| ==> Without(devices, dev)[i] in Without(devices[1..], dev);
    }
  }

  /** The search loop of part_sort_add. */
  method FindPlace(parts: seq<PartInfo>, x: u32) returns (ok: bool, k: nat)
    requires Sorted(parts)
    ensures ok <==> !Rejected(Offsets(Defs(parts)), x)
    ensures ok ==> k == InsertPos(Offsets(Defs(parts)), x) <= |parts|
    ensures ok ==> forall i :: 0 <= i < |parts| ==> (i < k <==> parts[i].def.offset < x)
  {
    ghost var offsets := Offsets(Defs(parts));
    k := 0;
    while k < |parts|
      invariant 0 <= k <= |parts|
      invariant forall i :: 0 <= i < k ==> parts[i].def.offset < x
    {
      var pi := parts[k];
      if x == pi.def.offset && pi.def.offset == 0 {
        return false, k;
      }
      if x <= pi.def.offset {
        break;
      }
      k := k + 1;
    }
    assert forall i :: 0 <= i < |parts| ==> offsets[i] == parts[i].def.offset;
    InsertPosIs(offsets, x, k);
    ok := true;
  }

  class Table {
    var devices: seq<Device>
    var currentDev: Device?
    var currentPartnum: u8
    var mtddevnum: Option<nat>
    var mtddevname: Option<string>
    var partition: Option<string>

    /** No device, and nothing selected. */
    constructor ()
      ensures Valid() && devices == [] && currentDev == null && currentPartnum == 0
    {
      devices, currentDev, currentPartnum := [], null, 0;
      mtddevnum, mtddevname, partition := None, None, None;
    }

    function Selected(): (r: PartInfo?)
      reads this, currentDev
    {
      if currentDev == null then null else currentDev.Entry(currentPartnum)
    }

    /** mtddevnum counts all partitions in front of the selected one. */
    ghost predicate Indexed()
      reads this, devices, currentDev
    {
      if currentDev == null then mtddevnum == None && mtddevname == None
      else
        && (forall k :: 0 <= k < |devices| && devices[k] == currentDev ==>
              mtddevnum == Some(Wrap16(PartsBefore(devices, k) + currentPartnum)))
        && (Selected() != null ==> mtddevname == Some(Selected().def.name))
    }

    ghost predicate Saved()
      reads this, currentDev
    {
      partition == if currentDev == null then None else Some(IdText(currentDev.Named(currentPartnum)))
    }

    ghost predicate Valid()
      reads this, devices, currentDev
    {
      && DevicesOk(devices) && Indexed() && Saved()
      && (currentDev == null <==> devices == [])
      && (currentDev != null ==> currentDev in devices && Selected() != null)
    }

    /** The counting loop of index_partitions; the list's length when dev is not on it. */
    method NumberOf(dev: Device) returns (num: nat, k: nat)
      ensures k <= |devices| && (k < |devices| ==> devices[k] == dev)
      ensures forall i :: 0 <= i < k ==> devices[i] != dev
      ensures num == Wrap16(PartsBefore(devices, k))
    {
      hide Wrap16;
      num, k := Wrap16(0), 0;
      while k < |devices| && devices[k] != dev
        invariant 0 <= k <= |devices|
        invariant forall i :: 0 <= i < k ==> devices[i] != dev
        invariant num == Wrap16(PartsBefore(devices, k))
      {
        WrapAdd(PartsBefore(devices, k), devices[k].numParts);
        num := Wrap16(num + devices[k].numParts);
        k := k + 1;
      }
    }

    method IndexPartitions()
      requires forall i, j :: 0 <= i < j < |devices| ==> devices[i] != devices[j]
      modifies this`mtddevnum, this`mtddevname
      ensures Indexed()
    {
      hide Wrap16, PartsBefore;
      if currentDev == null {
        mtddevnum, mtddevname := None, None;
        return;
      }
      var num, k := NumberOf(currentDev);
      assert forall j :: 0 <= j < |devices| && devices[j] == currentDev ==> j == k;
      if k < |devices| {
        WrapAdd(PartsBefore(devices, k), currentPartnum);
        mtddevnum := Some(Wrap16(num + currentPartnum));
      }
      var part := currentDev.Entry(currentPartnum);
      mtddevname := if part == null then None else Some(part.def.name);
    }

    method CurrentSave()
      requires forall i, j :: 0 <= i < j < |devices| ==> devices[i] != devices[j]
      modifies this`partition, this`mtddevnum, this`mtddevname
      ensures Indexed() && Saved()
    {
      partition := if currentDev == null then None else Some(IdText(currentDev.Named(currentPartnum)));
      IndexPartitions();
    }

    ghost predicate DistinctDevices()
      reads this
    {
      forall i, j :: 0 <= i < j < |devices| ==> devices[i] != devices[j]
    }

    method PartSortAdd(dev: Device, part: PartInfo) returns (ok: bool)
      requires DistinctDevices() && dev.Ordered() && part !in dev.parts
      modifies this`currentPartnum, this`partition, this`mtddevnum, this`mtddevname, dev
      ensures ok <==> !Rejected(Offsets(Defs(old(dev.parts))), part.def.offset)
      ensures !ok ==> unchanged(this) && unchanged(dev)
      ensures ok ==> dev.parts == Inserted(old(dev.parts), part) && dev.numParts == Wrap16(old(dev.numParts) + 1)
      ensures ok ==> currentPartnum == if dev == currentDev
                                 then NumberAfterInsert(old(dev.parts), part, old(currentPartnum))
                                       else old(currentPartnum)
      ensures ok ==> Indexed() && (old(Saved()) ==> Saved())
    {
      hide Rejected, Wrap16, Indexed, InsertPos, Offsets, Defs, Sorted, Distinct, Inserted, NumberAfterInsert, IdText;
      var k;
      ok, k := FindPlace(dev.parts, part.def.offset);
      if !ok {
        return;
      }
      InsertedHere(dev.parts, part, currentPartnum, k);
      var follow := false;
      if k < |dev.parts| && dev == currentDev {
        var curr := currentDev.Entry(currentPartnum);
        follow := curr != null && dev.parts[k].def.offset <= curr.def.offset;
      }
      dev.parts := dev.parts[..k] + [part] + dev.parts[k..];
      dev.numParts := Wrap16(dev.numParts + 1);
      if follow {
        currentPartnum := (currentPartnum + 1) % U8;
        CurrentSave();
      } else {
        IndexPartitions();
      }
    }

    /** part_add on a device of the table: part_validate fills the size in before the entry is linked. */
    method PartAdd(dev: Device, def: Part) returns (ok: bool, part: PartInfo)
      requires Valid() && dev in devices
      modifies this`currentPartnum, this`partition, this`mtddevnum, this`mtddevname, dev
      ensures fresh(part) && part.def == FillSize(dev.id, def)
      ensures ok <==> Acceptable(dev.id, part.def) && !Rejected(Offsets(Defs(old(dev.parts))), part.def.offset)
      ensures !ok ==> unchanged(this) && unchanged(dev)
      ensures ok ==> dev.parts == Inserted(old(dev.parts), part)
      ensures ok ==> currentPartnum == if dev == currentDev
                                       then NumberAfterInsert(old(dev.parts), part, old(currentPartnum))
                                       else old(currentPartnum)
      ensures ok && old(dev.numParts) < U16 - 1 ==> Valid()
      // the selection keeps denoting its partition unless number 255 moves up
      ensures ok && dev != currentDev ==> Selected() == old(Selected())
      ensures ok && dev == currentDev && old(dev.numParts) < U16 - 1 ==>
                (Selected() == old(Selected())
                 <==> old(currentPartnum) < U8 - 1 || part.def.offset > old(Selected()).def.offset)
    {
      hide Acceptable, Rejected, Offsets, Defs, Inserted, Indexed, FillSize, Sorted, Distinct, SameDevice;
      hide NumberAfterInsert, IdText;
      var filled;
      ok, filled := PartValidate(dev.id, def);
      part := new PartInfo(filled);
      if !ok {
        return;
      }
      InsertedOrdered(dev.parts, part);
      if dev == currentDev {
        SelectionFollowsInsert(dev.parts, part, currentPartnum);
      }
      ok := PartSortAdd(dev, part);
    }

    method DeviceDel(dev: Device)
      requires DistinctDevices()
      modifies this
      ensures devices == Without(old(devices), dev)
      ensures currentDev == if old(currentDev) != dev then old(currentDev)
                            else if devices == [] then null else devices[0]
      ensures currentPartnum == if old(currentDev) == dev && devices != [] then 0 else old(currentPartnum)
      ensures Indexed() && (old(Saved()) ==> Saved())
      ensures old(Valid()) ==> Valid()
    {
      hide Indexed, Without, IdText;
      WithoutDistinct(devices, dev);
      if DevicesOk(devices) {
        WithoutOk(devices, dev);
      }
      devices := Without(devices, dev);
      if dev == currentDev {
        if devices == [] {
          currentDev := null;
        } else {
          currentDev := devices[0];
          currentPartnum := 0;
        }
        CurrentSave();
      } else {
        IndexPartitions();
      }
    }

    /** The adjustment of current_partnum for an entry that is about to go. */
    method Renumber(dev: Device, d: nat)
      requires d < |dev.parts| == dev.numParts && Distinct(dev.parts)
      modifies this`currentPartnum
      ensures currentPartnum == if dev == currentDev then NumberAfterDelete(dev.parts, d, old(currentPartnum))
                                else old(currentPartnum)
    {
      if dev == currentDev {
        var curr := currentDev.Entry(currentPartnum);
        if curr != null {
          if curr == dev.parts[d] {
            currentPartnum := 0;
          } else if dev.parts[d].def.offset <= curr.def.offset {
            currentPartnum := (currentPartnum - 1) % U8;
          }
        }
      }
    }

    /** part_del on a device that keeps other partitions. */
    method Unlink(dev: Device, d: nat)
      requires Valid() && dev in devices && d < |dev.parts| && |dev.parts| > 1
      modifies this`currentPartnum, this`partition, this`mtddevnum, this`mtddevname, dev
      ensures dev.parts == Removed(old(dev.parts), d)
      ensures currentPartnum == if dev == currentDev then NumberAfterDelete(old(dev.parts), d, old(currentPartnum))
                                else old(currentPartnum)
      ensures old(dev != currentDev) ==> Selected() == old(Selected())
      ensures old(dev == currentDev && d > currentPartnum && dev.parts[d].def.offset == Selected().def.offset)
              || Valid()
      ensures old(dev == currentDev && d != currentPartnum) ==>
                (Selected() == old(Selected())
                 <==> old(d < currentPartnum || dev.parts[d].def.offset != Selected().def.offset))
      ensures old(dev == currentDev && d == currentPartnum) ==> currentPartnum == 0
    {
      hide Indexed, Sorted, Distinct, Removed, SameDevice, NumberAfterDelete, Defs, Offsets, IdText;
      if dev == currentDev {
        NumberFacts(dev.parts, d, currentPartnum);
      }
      Renumber(dev, d);
      dev.Drop(d);
      assert DevicesOk(devices);
      if dev == currentDev {
        CurrentSave();
      } else {
        IndexPartitions();
      }
      assert DevicesOk(devices);
    }

    method PartDel(dev: Device, d: nat)
      requires Valid() && dev in devices && d < |dev.parts|
      modifies this, dev
      ensures old(|dev.parts|) == 1 ==> devices == Without(old(devices), dev)
      ensures old(|dev.parts|) > 1 ==>
                && devices == old(devices) && currentDev == old(currentDev) && dev.parts == Removed(old(dev.parts), d)
                && currentPartnum == if dev == currentDev then NumberAfterDelete(old(dev.parts), d, old(currentPartnum))
                                     else old(currentPartnum)
      // only deleting a later entry with the offset of the selected one can break the table
      ensures old(dev == currentDev && d > currentPartnum && dev.parts[d].def.offset == Selected().def.offset)
              || Valid()
      ensures old(dev != currentDev) ==> Selected() == old(Selected())
      ensures old(dev == currentDev && |dev.parts| > 1 && d != currentPartnum) ==>
                (Selected() == old(Selected())
                 <==> old(d < currentPartnum || dev.parts[d].def.offset != Selected().def.offset))
      ensures old(dev == currentDev && |dev.parts| > 1 && d == currentPartnum) ==> currentPartnum == 0
    {
      hide Indexed;
      if dev.numParts == 1 {
        DeviceDel(dev);
      } else {
        Unlink(dev, d);
      }
    }

    method DeviceAdd(dev: Device)
      requires Valid() && dev !in devices && dev.parts != [] && dev.Ordered()
      requires forall i :: 0 <= i < |devices| ==> !SameDevice(devices[i].id, dev.id)
      modifies this
      ensures Valid() && devices == old(devices) + [dev]
      ensures old(devices) != [] ==>
                currentDev == old(currentDev) && currentPartnum == old(currentPartnum) && Selected() == old(Selected())
      ensures old(devices) == [] ==> currentDev == dev && currentPartnum == 0 && Selected() == dev.parts[0]
    {
      hide Indexed;
      var saveNeeded := false;
      if devices == [] {
        currentDev := dev;
        currentPartnum := 0;
        saveNeeded := true;
      }
      devices := devices + [dev];
      if saveNeeded {
        CurrentSave();
      } else {
        IndexPartitions();
      }
    }

    /** The end of device_parse: a new device with the given partitions sorted into its list. */
    method BuildDevice(id: MtdId, parts: seq<Part>) returns (ok: bool, dev: Device)
      requires DistinctDevices() && |parts| < U16
      modifies this`currentPartnum, this`partition, this`mtddevnum, this`mtddevname
      ensures fresh(dev) && dev.id == id
      ensures ok <==> SortParts(parts).Good?
      ensures ok ==> Defs(dev.parts) == SortParts(parts).value && dev.Ordered() && |dev.parts| == |parts|
      ensures currentPartnum == old(currentPartnum) && (old(Saved()) ==> Saved())
      ensures old(Indexed()) ==> Indexed()
    {
      hide Indexed, SortParts, Sorted, Distinct, Inserted, Offsets, Defs, Rejected, NumberAfterInsert;
      dev := new Device(id);
      ok := true;
      SortNone();
      for i := 0 to |parts|
        invariant fresh(dev) && dev.id == id && dev.Ordered() && |dev.parts| == i
        invariant SortParts(parts[..i]) == Good(Defs(dev.parts), 0)
        invariant currentPartnum == old(currentPartnum) && (old(Saved()) ==> Saved())
        invariant old(Indexed()) ==> Indexed()
      {
        var part := new PartInfo(parts[i]);
        SortStep(parts, i, dev.parts, part);
        InsertedOrdered(dev.parts, part);
        ok := PartSortAdd(dev, part);
        if !ok {
          SortBad(parts, i + 1);
          return;
        }
      }
      assert parts[..|parts|] == parts;
    }

    method DeviceParse(ids: seq<MtdId>, s: string, at: nat) returns (r: Parsed<Device>)
      requires DistinctDevices() && at <= |s| < U16
      modifies this`currentPartnum, this`partition, this`mtddevnum, this`mtddevname
      ensures r.Bad? <==> ParseDevice(ids, old(Contents(devices)), s, at).Bad?
      ensures r.Good? ==> fresh(r.value) && r.value.parts != [] && r.value.Ordered()
      ensures r.Good? ==> ParseDevice(ids, old(Contents(devices)), s, at) == Good(r.value.Def(), r.next)
      ensures currentPartnum == old(currentPartnum) && (old(Saved()) ==> Saved())
      ensures (old(Indexed()) ==> Indexed()) && (old(Valid()) ==> Valid())
    {
      hide Indexed, Saved, ParseParts, SortParts, Contents, FindId, StartOffset, Device.Ordered;
      var colon := Find(s, at, ':');
      if colon == |s| {
        return Bad;
      }
      var id := FindId(ids, s[at..colon]);
      if id.Bad? {
        return Bad;
      }
      var start := StartOffset(Contents(devices), id.value);
      var parts := PartsParse(id.value, s, colon + 1, start);
      if parts.Bad? || parts.value == [] {
        return Bad;
      }
      PartsBound(id.value, s, colon + 1, start, []);
      var ok, dev := BuildDevice(id.value, parts.value);
      if !ok {
        return Bad;
      }
      return Good(dev, if CharAt(s, parts.next) == ';' then parts.next + 1 else parts.next);
    }

    ghost predicate Unselected()
      reads this`currentDev, this`mtddevnum, this`mtddevname, this`partition
    {
      currentDev == null && mtddevnum == None && mtddevname == None && partition == None
    }

    lemma UnselectedIs()
      ensures Unselected() <==> currentDev == null && Indexed() && Saved()
      ensures Unselected() && devices == [] ==> Valid()
    {
    }

    /** devices_init: no device, nothing selected. */
    method DevicesInit()
      modifies this
      ensures Valid() && devices == [] && currentDev == null && currentPartnum == old(currentPartnum)
    {
      devices, currentDev := [], null;
      CurrentSave();
    }

    /** One turn of the loop of parse_mtdparts. */
    method ParseNext(ids: seq<MtdId>, text: string, p: nat) returns (ok: bool, next: nat)
      requires p < |text| < U16 && DevicesOk(devices) && DistinctDevices() && Unselected()
      modifies this
      ensures DevicesOk(devices) && DistinctDevices() && Unselected()
      ensures ParseDevices(ids, text, p, old(Contents(devices)))
              == if ok && next <= |text| then ParseDevices(ids, text, next, Contents(devices)) else Bad
      ensures ok ==> p < next <= |text| && devices != []
    {
      hide Indexed, ParseDevice, ParseDevices, DeviceIndex, Contents, DevicesOk, Device.Ordered, Defs, Saved;
      hide Unselected, SameDevice;
      DevicesStep(ids, text, p, Contents(devices));
      UnselectedIs();
      var dev := DeviceParse(ids, text, p);
      UnselectedIs();
      if dev.Bad? || DeviceIndex(Contents(devices), dev.value.id) < |devices| {
        return false, p;
      }
      NotKnown(devices, dev.value);
      DevicesOkSnoc(devices, dev.value);
      ContentsSnoc(devices, dev.value);
      devices := devices + [dev.value];
      return true, dev.next;
    }

    /** parse_mtdparts: the device list is rebuilt from the text, nothing is selected. */
    method ParseMtdparts(ids: seq<MtdId>, text: string) returns (ok: bool)
      requires |text| < MTDPARTS_MAXLEN
      modifies this
      ensures Unselected() && DevicesOk(devices)
      ensures Contents(devices) == ParseTable(ids, text)
      ensures ok <==> devices != []
    {
      hide Indexed, ParseDevices, Contents, DevicesOk, IdText, Saved;
      NoDevices(ids, text);
      DevicesInit();
      UnselectedIs();
      if !Has(text, 0, "mtdparts=") {
        return false;
      }
      var p := 9;
      while p < |text|
        invariant p <= |text| && DevicesOk(devices) && DistinctDevices() && Unselected()
        invariant p > 9 ==> devices != []
        invariant ParseDevices(ids, text, p, Contents(devices)) == ParseDevices(ids, text, 9, [])
        decreases |text| - p
      {
        ok, p := ParseNext(ids, text, p);
        if !ok {
          devices := [];
          return;
        }
      }
      DevicesDone(ids, text, p, Contents(devices));
      ok := devices != [];
    }

    /** device_find */
    method DeviceFind(nor: bool, num: nat) returns (k: nat)
      ensures k == FindDevice(devices, nor, num)
    {
      k := 0;
      while k < |devices| && !IsDevice(devices[k].id, nor, num)
        invariant k <= |devices|
        invariant forall i :: 0 <= i < k ==> !IsDevice(devices[i].id, nor, num)
      {
        k := k + 1;
      }
      FirstDevice(devices, nor, num, k);
    }

    /** find_dev_and_part: the partition that an identifier names. */
    method FindDevAndPart(text: string) returns (place: Option<(nat, nat)>)
      requires DevicesOk(devices)
      ensures place == PlaceOf(devices, text)
    {
      hide ParsePartId;
      var id := ParsePartId(text);
      if id.None? {
        return None;
      }
      var k := DeviceFind(id.value.nor, id.value.num);
      if k == |devices| || devices[k].Entry(id.value.part) == null {
        return None;
      }
      return Some((k, id.value.part));
    }

    /** chpart: selects the partition that an identifier names. */
    method ChangePart(text: string) returns (ok: bool)
      requires Valid()
      modifies this`currentDev, this`currentPartnum, this`partition, this`mtddevnum, this`mtddevname
      ensures Valid() && ok == PlaceOf(devices, text).Some?
      ensures Selected() == if ok then var (k, n) := PlaceOf(devices, text).value; devices[k].parts[n]
                            else old(Selected())
    {
      hide Indexed, ParsePartId, IdText, PlaceOf;
      var place := FindDevAndPart(text);
      ok := place.Some?;
      if ok {
        currentDev := devices[place.value.0];
        currentPartnum := place.value.1;
        CurrentSave();
      }
    }

    /** The saved identifier names the selected partition. */
    lemma SelectedPlace()
      requires Valid() && devices != []
      ensures partition.Some? && PlaceOf(devices, partition.value).Some?
      ensures var (k, n) := PlaceOf(devices, partition.value).value; Selected() == devices[k].parts[n]
    {
      hide IdText, Indexed, PlaceOf;
      var k :| 0 <= k < |devices| && devices[k] == currentDev;
      SavedPlace(devices, k, currentPartnum);
    }

    /** The first partition of the first device becomes the current one. */
    method SelectFirst()
      requires DevicesOk(devices) && devices != []
      modifies this`currentDev, this`currentPartnum, this`partition, this`mtddevnum, this`mtddevname
      ensures Valid() && currentDev == devices[0] && currentPartnum == 0 && Selected() == devices[0].parts[0]
    {
      hide Indexed, IdText;
      currentDev := devices[0];
      currentPartnum := 0;
      CurrentSave();
    }

    /** The end of mtdparts_init: the variable "partition" selects, if the table has what it names. */
    method Reselect(saved: string)
      requires Valid() && devices != [] && |saved| < PARTITION_MAXLEN
      modifies this`currentDev, this`currentPartnum, this`partition, this`mtddevnum, this`mtddevname
      ensures Valid()
      ensures var place := PlaceOf(devices, saved);
              Selected() == if place.Some? then devices[place.value.0].parts[place.value.1] else old(Selected())
    {
      hide Indexed, ParsePartId, IdText, PlaceOf;
      if saved != "" && Some(saved) != partition {
        var found := ChangePart(saved);
      } else {
        SelectedPlace();
        NoPlace(devices);
      }
    }

    /** The part of mtdparts_init that follows a changed mtdparts variable: the table is built anew, and the
        partition that was saved is selected again if the table has it, the first partition otherwise. */
    method Init(ids: seq<MtdId>, text: string, saved: string) returns (ok: bool)
      requires |text| < MTDPARTS_MAXLEN && |saved| < PARTITION_MAXLEN
      modifies this
      ensures Contents(devices) == ParseTable(ids, text)
      ensures Valid() && (ok <==> devices != [])
      ensures ok ==>
                var place := PlaceOf(devices, saved);
                Selected() == if place.Some? then devices[place.value.0].parts[place.value.1] else devices[0].parts[0]
    {
      hide Indexed, Saved, DevicesOk, ParseTable, Contents, ParsePartId, IdText, PlaceOf;
      ok := ParseMtdparts(ids, text);
      if !ok {
        UnselectedIs();
        return;
      }
      SelectFirst();
      Reselect(saved);
    }

    /** What a definition text means for the table. */
    function Definition(ids: seq<MtdId>, text: string): Parsed<DeviceDef>
      reads this`devices, devices
    {
      ParseDevice(ids, Contents(devices), text, 0)
    }

    lemma AllDistinct()
      requires Valid()
      ensures DistinctDevices() && DevicesOk(devices)
    {
    }

    /** Whether the k-th device takes a parsed definition. */
    ghost predicate Takes(k: nat, def: Part)
      reads this`devices, devices
    {
      k < |devices| ==>
        var part := FillSize(devices[k].id, def);
        Acceptable(devices[k].id, part) && !Rejected(Offsets(Defs(devices[k].parts)), part.offset)
    }

    /** device_find and what follows it in "mtdparts add": a parsed device is added to the table,
        or its first partition to the device that is there already. */
    method Merge(dev: Device) returns (ok: bool, k: nat, ghost part: PartInfo?)
      requires Valid() && dev !in devices && dev.parts != [] && dev.Ordered()
      requires forall i :: 0 <= i < |devices| ==> devices[i].numParts < U16 - 1
      modifies this, devices
      ensures Valid() && k == DeviceIndex(old(Contents(devices)), dev.id)
      ensures ok <==> old(Takes(k, dev.parts[0].def))
      ensures ok && k == |old(devices)| ==> devices == old(devices) + [dev]
      ensures k < |old(devices)| || !ok ==> devices == old(devices)
      ensures ok && k < |devices| == |old(devices)| ==>
                && part != null && fresh(part) && part.def == FillSize(devices[k].id, dev.parts[0].def)
                && devices[k].parts == Inserted(old(devices[k].parts), part)
      ensures forall i :: 0 <= i < |old(devices)| && !(ok && i == k) ==> devices[i].parts == old(devices[i].parts)
      ensures ok && old(devices) == [] ==> Selected() == dev.parts[0]
      ensures old(devices) != [] && old(currentPartnum) < U8 - 1 ==> Selected() == old(Selected())
    {
      hide Indexed, Contents, Acceptable, Rejected, Offsets, Defs, Inserted, DeviceIndex, FillSize, Sorted, Distinct;
      hide Table.Valid, DevicesOk, Device.Ordered, IdText;
      AllDistinct();
      part := null;
      k := DeviceFind(dev.id.geometry.Nor?, dev.id.num);
      IndexIs(devices, dev.id, k);
      if k == |devices| {
        DeviceAdd(dev);
        ok := true;
      } else {
        ok, part := PartAdd(devices[k], dev.parts[0].def);
      }
    }

    /** "mtdparts add" with an already composed definition. It succeeds exactly if the text is a
        definition whose device is new, or takes its first partition; then the table has that device
        or partition more, and otherwise every list stays as it was. */
    method AddDefinition(ids: seq<MtdId>, text: string)
      returns (ok: bool, ghost def: Parsed<DeviceDef>, ghost k: nat, ghost part: PartInfo?)
      requires Valid() && |text| < 64
      requires forall i :: 0 <= i < |devices| ==> devices[i].numParts < U16 - 1
      modifies this, devices
      ensures k <= |old(devices)| <= |devices| && def == old(Definition(ids, text))
      ensures def.Good? ==> def.value.parts != [] && k == DeviceIndex(old(Contents(devices)), def.value.id)
      ensures ok <==> def.Good? && old(Takes(k, def.value.parts[0]))
      ensures k < |old(devices)| || !ok ==> devices == old(devices)
      ensures ok && k == |old(devices)| ==>
                |devices| == k + 1 && devices[..k] == old(devices) && devices[k].Def() == def.value
      ensures ok && k < |old(devices)| ==>
                && part != null && fresh(part) && part.def == FillSize(devices[k].id, def.value.parts[0])
                && devices[k].parts == Inserted(old(devices[k].parts), part)
      ensures forall i :: 0 <= i < |old(devices)| && !(ok && i == k) ==> devices[i].parts == old(devices[i].parts)
      // a partition without an offset starts behind the last one that was there
      ensures ok && k < |old(devices)| ==> GoesBehind(old(Contents(devices)), text, def, k, part.def.offset)
      ensures Valid()
      ensures ok && old(devices) == [] ==> Selected() == devices[0].parts[0]
      ensures old(devices) != [] && old(currentPartnum) < U8 - 1 ==> Selected() == old(Selected())
    {
      hide Indexed, ParseDevice, Contents, Takes, Inserted, DeviceIndex, FillSize, Sorted, Distinct, SameDevice;
      hide DevicesOk, Device.Ordered, Defs, Table.Valid, GoesBehind;
      DefinedPlace(ids, Contents(devices), text);
      ok, def, k, part := false, Definition(ids, text), 0, null;
      AllDistinct();
      var parsed := DeviceParse(ids, text, 0);
      if parsed.Good? {
        ok, k, part := Merge(parsed.value);
      }
    }
  }
}
