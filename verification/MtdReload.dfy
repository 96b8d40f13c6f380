/** The next start: the table and the selection come back from the variables that the commands left. */
module MtdReload {
  import opened CString
  import opened MtdCommands
  import opened MtdGrammar
  import opened MtdPartId
  import opened MtdReach
  import opened MtdRoundTrip
  import opened MtdSort
  import opened MtdTable
  import opened Options

  /** A device of the table that was read back. */
  lemma DeviceAgain(devs: seq<DeviceDef>, devices: seq<Device>, k: nat, n: nat)
    requires k < |devs| && n < |devs[k].parts| && Contents(devices) == RereadTable(devs)
    ensures |devices| == |devs| && devices[k].id == devs[k].id && n < |devices[k].parts|
    ensures devices[k].parts[n].def == Reread(devs[k].parts, n)
  {
    hide Reread;
    assert Contents(devices)[k] == devices[k].Def() && RereadTable(devs)[k] == RereadDevice(devs[k]);
    assert Defs(devices[k].parts) == RereadAll(devs[k].parts);
  }

  lemma StrictIsDifferent(devs: seq<DeviceDef>)
    requires AllStrict(devs)
    ensures AllDifferent(devs)
  {
    hide Reread;
    forall i | 0 <= i < |devs| ensures Different(RereadAll(devs[i].parts)) {
      var parts := RereadAll(devs[i].parts);
      assert StrictlyAscending(devs[i].parts);
      assert forall j :: 0 <= j < |parts| ==> parts[j].offset == devs[i].parts[j].offset;
    }
  }

  lemma NoneTurned(devs: seq<DeviceDef>)
    ensures TableTurned(devs) == [] <==> devs == []
  {
  }

  /** What is saved of the selection. */
  lemma SavedIs(t: Table, k: nat)
    requires t.Valid() && k < |t.devices| && t.devices[k] == t.currentDev
    ensures var n := t.currentPartnum;
            && n < |t.devices[k].parts| && t.Selected() == t.devices[k].parts[n]
            && t.partition == Some(IdText(t.devices[k].Named(n))) && |t.partition.value| < PARTITION_MAXLEN
  {
    hide IdText;
    IdTextFits(t.devices[k].Named(t.currentPartnum));
  }

  /** In the table that was read back, the saved identifier names the partition in the same place. */
  lemma PlaceAgain(before: seq<Device>, now: seq<Device>, k: nat, n: nat)
    requires k < |before| && n < |before[k].parts| && n < U8
    requires DevicesOk(now) && Contents(now) == RereadTable(Contents(before))
    ensures k < |now| && n < |now[k].parts| && PlaceOf(now, IdText(before[k].Named(n))) == Some((k, n))
    ensures var was, read := before[k].parts[n].def, now[k].parts[n].def;
            read == was.(name := read.name) && (!was.autoName ==> read == was)
  {
    hide IdText, PlaceOf, Contents, Reread, RereadTable, DevicesOk;
    assert Contents(before)[k] == before[k].Def();
    DeviceAgain(Contents(before), now, k, n);
    SavedPlace(now, k, n);
  }

  /** The text that was saved is refused at the next start if it is too long for the copy that is kept of it,
      or if a size in it is illegible. Otherwise every device comes back with its runs of equal offsets turned
      around; when all offsets differ, with all partitions in place, and the selected partition is the same one. */
  method Restart(c: Commands, ghost k: nat) returns (d: Commands, ok: bool)
    requires c.Valid() && c.mtdparts == Some(TableText(c.Devs()))
    requires k < |c.table.devices| && c.table.devices[k] == c.table.currentDev
    ensures fresh(d) && d.Valid()
    ensures ok <==> |TableText(c.Devs())| < MTDPARTS_MAXLEN && AllRereadable(c.Devs(), 0)
    ensures d.Devs() == if ok then TableTurned(c.Devs()) else []
    ensures ok && AllDifferent(c.Devs()) ==> (d.Devs() == RereadTable(c.Devs()) <==> AllStrict(c.Devs()))
    ensures ok && AllStrict(c.Devs()) ==>
              && k < |d.table.devices| && c.table.currentPartnum < |d.table.devices[k].parts|
              && d.table.Selected() == d.table.devices[k].parts[c.table.currentPartnum]
              && var before, now := c.table.Selected().def, d.table.Selected().def;
                 now == before.(name := now.name) && (!before.autoName ==> now == before)
  {
    hide AllStrict, AllRereadable, TableText, ParseTable, RereadTable, TableTurned, AllDifferent, Contents, IdText,
         PlaceOf, DistinctNames, GoodDevices, Table.Valid, Reread;
    ghost var devs := c.Devs();
    SavedIs(c.table, k);
    GoodReloads(c.ids, devs);
    NoneTurned(devs);
    d := new Commands(c.ids, c.mtdparts);
    ok := d.Init(c.table.partition.value);
    if ok && AllStrict(devs) {
      StrictIsDifferent(devs);
      d.table.AllDistinct();
      PlaceAgain(c.table.devices, d.table.devices, k, c.table.currentPartnum);
    }
  }

  /** One partition of 4 KB with a long name on a device called "n". */
  function LongTable(name: string): seq<DeviceDef> {
    [DeviceDef(MtdId(0, 0x1000, "n", Nand(0x1000)), [Part(0x1000, 0, name, false, false)])]
  }

  lemma LongPart(name: string)
    ensures PartText([Part(0x1000, 0, name, false, false)], 0) == "4k" + "" + ("(" + name + ")") + ""
  {
    assert MemsizeFormat(0x1000) == "4k" by { assert Dec(4) == "4"; }
  }

  /** A table that is saved, and refused at the next start. */
  lemma SavedAndRefused(name: string)
    requires 497 <= |name| <= 505
    ensures Stored(LongTable(name)).Some? && |Stored(LongTable(name)).value| >= MTDPARTS_MAXLEN
  {
    var devs := LongTable(name);
    var parts := devs[0].parts;
    assert PartText(parts, 0) == "4k" + "" + ("(" + name + ")") + "" by { LongPart(name); }
    assert PartsText(parts, 1) == "" && DevicesText(devs, 1) == "";
  }
}
