/** Two tables in which the current partition number moves away from the selected partition. */
module MtdSelectionLost {
  import opened MtdGrammar
  import opened MtdPartId
  import opened MtdSort
  import opened MtdTable

  const NAND0 := MtdId(0, 0x1000_0000, "nand0", Nand(0x1000))

  /** A table with one device, whose first partition is selected. */
  method OneDevice(parts: seq<PartInfo>) returns (t: Table, dev: Device)
    requires 0 < |parts| < U16 && Sorted(parts) && Distinct(parts)
    ensures fresh(t) && fresh(dev) && t.Valid()
    ensures dev.id == NAND0 && dev.parts == parts && t.devices == [dev]
    ensures t.currentDev == dev && t.currentPartnum == 0 && t.Selected() == parts[0]
  {
    hide Sorted, Distinct, Table.Indexed;
    t := new Table();
    dev := new Device(NAND0);
    dev.parts, dev.numParts := parts, |parts|;
    t.DeviceAdd(dev);
  }

  /** Deleting the later one of two partitions with the same offset: number 255 denotes nothing. */
  method LaterTwinDeleted() returns (t: Table, dev: Device, first: PartInfo)
    ensures fresh(t) && fresh(dev) && dev.parts == [first] && t.devices == [dev] && t.currentDev == dev
    ensures t.currentPartnum == 255 && t.Selected() == null
  {
    first := new PartInfo(Part(0x1000, 0x1000, "a", false, false));
    var twin := new PartInfo(Part(0x1000, 0x1000, "b", false, false));
    t, dev := OneDevice([first, twin]);
    hide Table.Valid, Inserted;
    t.PartDel(dev, 1);
    assert dev.parts == [first];
  }

  /** 256 partitions of 4 KB each, from 4 KB on. */
  method Row() returns (parts: seq<PartInfo>)
    ensures (forall x <- parts :: fresh(x)) && |parts| == 256 && Sorted(parts) && Distinct(parts)
    ensures forall i :: 0 <= i < 256 ==> parts[i].def == Part(0x1000, (i + 1) * 0x1000, "p", false, false)
  {
    parts := [];
    while |parts| < 256
      invariant |parts| <= 256 && Distinct(parts) && forall x <- parts :: fresh(x)
      invariant forall i :: 0 <= i < |parts| ==> parts[i].def == Part(0x1000, (i + 1) * 0x1000, "p", false, false)
    {
      var part := new PartInfo(Part(0x1000, (|parts| + 1) * 0x1000, "p", false, false));
      parts := parts + [part];
    }
  }

  lemma FitsInFront(parts: seq<PartInfo>)
    requires parts != [] && parts[0].def.offset > 0
    ensures var part := Part(0x1000, 0, "first", false, false);
            FillSize(NAND0, part) == part && Acceptable(NAND0, part) && !Rejected(Offsets(Defs(parts)), 0)
  {
    assert Offsets(Defs(parts))[0] == parts[0].def.offset;
  }

  lemma WrapsAround(parts: seq<PartInfo>, part: PartInfo)
    requires |parts| == 256 && part.def.offset == 0 && parts[255].def.offset > 0
    requires Sorted(parts) && Distinct(parts) && part !in parts
    ensures NumberAfterInsert(parts, part, 255) == 0
    ensures Inserted(parts, part)[0] == part && Inserted(parts, part)[256] == parts[255] != part
  {
    var k := InsertedAt(parts, part);
    assert parts[0].def.offset >= part.def.offset;
  }

  /** A partition in front of the selected number 255: the new one is selected in its place. */
  method NumberWraps() returns (t: Table, dev: Device, last: PartInfo, first: PartInfo)
    ensures fresh(t) && fresh(dev) && t.devices == [dev] && t.currentDev == dev
    ensures |dev.parts| == 257 && dev.parts[256] == last != first
    ensures t.currentPartnum == 0 && t.Selected() == first
  {
    hide Sorted, Distinct, Table.Indexed, Inserted, NumberAfterInsert, IdText, PlaceOf;
    var parts := Row();
    t, dev := OneDevice(parts);
    SavedPlace(t.devices, 0, 255);
    var selected := t.ChangePart(IdText(dev.Named(255)));
    last := parts[255];
    FitsInFront(parts);
    var ok;
    ok, first := t.PartAdd(dev, Part(0x1000, 0, "first", false, false));
    WrapsAround(parts, first);
  }
}
