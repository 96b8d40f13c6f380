/** The commands of cmd_jffs2.c between the table and the variable that stores it: mtdparts_init,
    "mtdparts add", "mtdparts del", "mtdparts delall" and chpart. */
module MtdCommands {
  import opened CString
  import opened MtdEdit
  import opened MtdGrammar
  import MtdParser
  import opened MtdReach
  import opened MtdRoundTrip
  import opened MtdTable
  import opened Options

  lemma ContentsAre(devices: seq<Device>, devs: seq<DeviceDef>)
    requires |devices| == |devs| && forall i :: 0 <= i < |devs| ==> devices[i].Def() == devs[i]
    ensures Contents(devices) == devs
  {
    hide Device.Def;
  }

  /** Insertion and deletion on the list of objects are those on the list of their values. */
  lemma InsertedDefs(parts: seq<PartInfo>, part: PartInfo)
    ensures Defs(Inserted(parts, part)) == Put(Defs(parts), part.def) && |Put(Defs(parts), part.def)| == |parts| + 1
  {
    var k := InsertPos(Offsets(Defs(parts)), part.def.offset);
    assert Defs(parts[..k] + [part] + parts[k..]) == Defs(parts)[..k] + [part.def] + Defs(parts)[k..];
  }

  lemma RemovedDefs(parts: seq<PartInfo>, d: nat)
    requires d < |parts|
    ensures Defs(Removed(parts, d)) == Defs(parts)[..d] + Defs(parts)[d + 1..]
  {
  }

  lemma {:induction false} WithoutOne(devices: seq<Device>, k: nat)
    requires k < |devices| && forall i :: 0 <= i < k ==> devices[i] != devices[k]
    ensures Without(devices, devices[k]) == devices[..k] + devices[k + 1..]
  {
    if k > 0 {
      WithoutOne(devices[1..], k - 1);
    }
  }

  lemma NoneIsGood(ids: seq<MtdId>)
    ensures GoodDevices(ids, [])
  {
  }

  lemma PrefixThere(devs: seq<DeviceDef>)
    ensures TableText(devs) == "" <==> devs == []
  {
  }

  /** Whether generate_mtdparts finds room for the text; the nine characters of the prefix are not charged. */
  predicate Fits(devs: seq<DeviceDef>) {
    devs == [] || |TableText(devs)| - 9 < MTDPARTS_MAXLEN
  }

  /** What generate_mtdparts_save leaves in the variable. */
  function Stored(devs: seq<DeviceDef>): Option<string> {
    if devs != [] && Fits(devs) then Some(TableText(devs)) else None
  }

  class Commands {
    const ids: seq<MtdId>
    const table: Table
    var mtdparts: Option<string>
    var lastParts: string

    constructor (ids: seq<MtdId>, mtdparts: Option<string>)
      requires DistinctNames(ids)
      ensures Valid() && fresh(table)
      ensures this.ids == ids && this.mtdparts == mtdparts && lastParts == "" && Devs() == []
    {
      hide DistinctNames;
      this.ids, this.mtdparts, lastParts := ids, mtdparts, "";
      table := new Table();
    }

    function Devs(): seq<DeviceDef>
      reads table`devices, table.devices
    {
      Contents(table.devices)
    }

    /** A text that the table was read from, or that it was written to. */
    ghost predicate Denotes(text: string)
      reads table`devices, table.devices
    {
      ParseTable(ids, text) == Devs() || TableText(Devs()) == text
    }

    ghost predicate Valid()
      reads this, table, table.devices, table.currentDev
    {
      && table.Valid() && DistinctNames(ids) && GoodDevices(ids, Devs())
      && (lastParts != "" ==> Denotes(lastParts) && Devs() != [])
    }

    /** devices_init */
    method DevicesInit()
      requires Valid()
      modifies this`lastParts, table
      ensures Valid() && lastParts == "" && Devs() == []
    {
      hide Table.Valid, GoodDevices, DistinctNames;
      NoneIsGood(ids);
      lastParts := "";
      table.DevicesInit();
    }

    /** The part of mtdparts_init for a text that differs from the last one. */
    method Reread(parts: string, saved: string) returns (ok: bool)
      requires Valid() && |parts| < MTDPARTS_MAXLEN && |saved| < PARTITION_MAXLEN
      modifies this`lastParts, table
      ensures Valid() && Devs() == ParseTable(ids, parts)
      ensures (ok <==> Devs() != []) && lastParts == if ok then parts else ""
      ensures ok ==>
                var place := PlaceOf(table.devices, saved);
                table.Selected() == if place.Some? then table.devices[place.value.0].parts[place.value.1]
                                    else table.devices[0].parts[0]
    {
      hide Table.Valid, GoodDevices, ParseTable, TableText, PlaceOf, DistinctNames, Contents;
      ok := table.Init(ids, parts, saved);
      lastParts := if ok then parts else "";
      ParsedIsGood(ids, parts);
    }

    /** mtdparts_init, with the value of the variable "partition". */
    method Init(saved: string) returns (ok: bool)
      requires Valid() && |saved| < PARTITION_MAXLEN
      modifies this`lastParts, table
      ensures Valid()
      // without the variable, a table that was stored in it is dropped
      ensures mtdparts.None? ==> ok && lastParts == "" && (old(lastParts) == "" ==> unchanged(table))
                                 && (old(lastParts) != "" ==> Devs() == [])
      ensures mtdparts.Some? && |mtdparts.value| >= MTDPARTS_MAXLEN ==>
                !ok && unchanged(table) && lastParts == old(lastParts)
      // a text that differs from the last one is read
      ensures mtdparts.Some? && |mtdparts.value| < MTDPARTS_MAXLEN ==>
                var reread := old(lastParts) == "" || mtdparts.value != old(lastParts);
                var place := PlaceOf(table.devices, saved);
                && (reread ==> Devs() == ParseTable(ids, mtdparts.value))
                && (!reread ==> table.devices == old(table.devices))
                && (ok <==> Devs() != [])
                && lastParts == (if ok then mtdparts.value else "")
                && (ok ==> table.Selected() == if place.Some? then table.devices[place.value.0].parts[place.value.1]
                                               else if reread then table.devices[0].parts[0]
                                               else old(table.Selected()))
    {
      hide Table.Valid, GoodDevices, ParseTable, TableText, PlaceOf, DistinctNames;
      if mtdparts.None? {
        if lastParts != "" {
          DevicesInit();
        }
        return true;
      }
      var parts := mtdparts.value;
      if |parts| >= MTDPARTS_MAXLEN {
        return false;
      }
      if lastParts == "" || lastParts != parts {
        ok := Reread(parts, saved);
      } else {
        ok := true;
        table.Reselect(saved);
      }
    }

    /** generate_mtdparts_save */
    method Save() returns (ok: bool)
      modifies this`mtdparts, this`lastParts
      ensures mtdparts == Stored(Devs()) && lastParts == (if mtdparts.Some? then mtdparts.value else "")
      ensures ok <==> Fits(Devs())
      ensures mtdparts.Some? <==> Devs() != [] && |TableText(Devs())| < MTDPARTS_MAXLEN + 9
      ensures mtdparts.Some? ==> mtdparts.value == TableText(Devs())
      ensures table.Valid() && DistinctNames(ids) && GoodDevices(ids, Devs()) ==> Valid()
    {
      hide Table.Valid, GoodDevices, ParseTable, TableText, Contents, DistinctNames;
      var text;
      ok, text := MtdParser.GenerateMtdparts(Devs(), MTDPARTS_MAXLEN);
      PrefixThere(Devs());
      if ok && text != "" {
        mtdparts, lastParts := Some(text), text;
      } else {
        mtdparts, lastParts := None, "";
      }
    }

    /** The definition taken into the table. */
    method Link(text: string) returns (ok: bool)
      requires table.Valid() && |text| < 64
      requires forall i :: 0 <= i < |table.devices| ==> table.devices[i].numParts < U16 - 1
      modifies table, table.devices
      ensures table.Valid() && Devs() == Added(ids, old(Devs()), text) && (ok <==> Devs() != old(Devs()))
      ensures old(Devs()) != [] && old(table.currentPartnum) < U8 - 1 ==> table.Selected() == old(table.Selected())
    {
      hide Table.Valid, ParseDevice, Inserted, Defs, Acceptable, Rejected, Offsets, FillSize, DeviceIndex;
      hide Put, Contents;
      ghost var devs, devices := Devs(), table.devices;
      ghost var def, k, part;
      ok, def, k, part := table.AddDefinition(ids, text);
      forall i | 0 <= i < |devs| && !(ok && i == k) ensures table.devices[i].Def() == devs[i] {
        assert table.devices[i].parts == old(devices[i].parts);
      }
      if ok && k < |devs| {
        InsertedDefs(old(table.devices[k].parts), part);
        ContentsAre(table.devices, Grown(devs, k, def.value.parts[0]));
      } else if ok {
        ContentsAre(table.devices, devs + [def.value]);
      } else {
        ContentsAre(table.devices, devs);
      }
    }

    /** "mtdparts add" behind mtdparts_init, with the composed definition. */
    method Add(text: string) returns (ok: bool)
      requires Valid() && |text| < 64
      requires forall i :: 0 <= i < |table.devices| ==> table.devices[i].numParts < U16 - 1
      modifies this`mtdparts, this`lastParts, table, table.devices
      ensures Valid() && Devs() == Edited(ids, old(Devs()), Edit.Add(text))
      ensures Devs() == old(Devs()) ==> !ok && mtdparts == old(mtdparts) && lastParts == old(lastParts)
      ensures Devs() != old(Devs()) ==> mtdparts == Stored(Devs()) && (ok <==> Fits(Devs()))
      ensures old(Devs()) != [] && old(table.currentPartnum) < U8 - 1 ==> table.Selected() == old(table.Selected())
    {
      hide Table.Valid, GoodDevices, ParseTable, TableText, DistinctNames, Stored, Fits, Added;
      AddedIsGood(ids, Devs(), text);
      ok := Link(text);
      if ok {
        ok := Save();
      }
    }

    /** part_del on the table, in terms of the values. */
    method Cut(k: nat, d: nat)
      requires table.Valid() && k < |table.devices| && d < |table.devices[k].parts|
      modifies table, table.devices[k]
      ensures Devs() == Shrunk(old(Devs()), k, d)
      ensures old(LosesSelection(k, d)) || table.Valid()
    {
      hide Table.Valid, Removed, Contents;
      ghost var devs, devices := Devs(), table.devices;
      var dev := table.devices[k];
      table.AllDistinct();
      WithoutOne(devices, k);
      RemovedDefs(dev.parts, d);
      table.PartDel(dev, d);
      if |devs[k].parts| == 1 {
        ContentsAre(table.devices, devs[..k] + devs[k + 1..]);
      } else {
        ContentsAre(table.devices, devs[k := devs[k].(parts := devs[k].parts[..d] + devs[k].parts[d + 1..])]);
      }
    }

    /** A later partition of the current device with the offset of the selected one. */
    ghost predicate LosesSelection(k: nat, d: nat)
      requires table.Valid() && k < |table.devices| && d < |table.devices[k].parts|
      reads table, table.devices, table.currentDev
    {
      && table.currentDev == table.devices[k] && d > table.currentPartnum
      && table.devices[k].parts[d].def.offset == table.Selected().def.offset
    }

    /** delete_partition behind mtdparts_init. */
    method Del(text: string) returns (ok: bool)
      requires Valid()
      modifies this`mtdparts, this`lastParts, table, table.devices
      ensures var place := old(PlaceOf(table.devices, text));
              if place.None? then !ok && unchanged(this, table) && unchanged(table.devices)
              else
                var (k, d) := place.value;
                && Devs() == Edited(ids, old(Devs()), Edit.Del(k, d))
                && mtdparts == Stored(Devs()) && (ok <==> Fits(Devs()))
                && (old(LosesSelection(k, d)) || Valid())
    {
      hide Table.Valid, GoodDevices, ParseTable, TableText, DistinctNames, Stored, Fits, PlaceOf, Shrunk;
      hide Contents, Denotes, DevicesOk;
      table.AllDistinct();
      var place := table.FindDevAndPart(text);
      if place.None? {
        return false;
      }
      var (k, d) := place.value;
      ShrunkIsGood(ids, Devs(), k, d);
      Cut(k, d);
      ok := Save();
    }

    /** "mtdparts delall" */
    method DelAll(saved: string)
      requires Valid() && |saved| < PARTITION_MAXLEN
      modifies this`mtdparts, this`lastParts, table
      ensures Valid() && Devs() == [] && mtdparts == None && lastParts == ""
    {
      hide Table.Valid, GoodDevices, ParseTable, TableText, PlaceOf, DistinctNames;
      var ok := Init(saved);
      mtdparts := None;
      DevicesInit();
    }

    /** chpart */
    method ChangePart(saved: string, text: string) returns (ok: bool)
      requires Valid() && |saved| < PARTITION_MAXLEN
      modifies this`lastParts, table
      ensures Valid()
      ensures var place := PlaceOf(table.devices, text);
              && (ok <==> place.Some? && (mtdparts.None? || |mtdparts.value| < MTDPARTS_MAXLEN))
              && (ok ==> table.Selected() == table.devices[place.value.0].parts[place.value.1])
    {
      hide Table.Valid, GoodDevices, PlaceOf, DistinctNames, Denotes, Contents;
      ok := Init(saved);
      if ok {
        ok := table.ChangePart(text);
      }
    }
  }
}
