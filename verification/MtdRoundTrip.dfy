/** Printing a partition table and parsing the text gives the table back. */
module MtdRoundTrip {
  import opened CString
  import opened MtdGrammar
  import opened MtdSort

  predicate End(c: char) {
    c == ',' || c == ';' || c == '\0'
  }

  /** Characters that can follow a size or an offset in printed text. */
  predicate Delimiter(c: char) {
    c == '@' || c == '(' || c == 'r' || End(c)
  }

  lemma ShiftBack(v: u32, n: u32)
    requires v == n * 0x400
    ensures Shift10(n) == v
  {
  }

  lemma ScaledBack(v: u32)
    ensures v % SIZE_GB == 0 ==> Scaled(v / SIZE_GB, 'g') == v
    ensures v % SIZE_MB == 0 ==> Scaled(v / SIZE_MB, 'm') == v
    ensures v % SIZE_KB == 0 ==> Scaled(v / SIZE_KB, 'k') == v
  {
    hide Shift10;
    if v % SIZE_KB == 0 {
      ShiftBack(v, v / SIZE_KB);
    }
    if v % SIZE_MB == 0 {
      ShiftBack(SIZE_KB * (v / SIZE_MB), v / SIZE_MB);
      ShiftBack(v, SIZE_KB * (v / SIZE_MB));
    }
    if v % SIZE_GB == 0 {
      ShiftBack(SIZE_KB * (v / SIZE_GB), v / SIZE_GB);
      ShiftBack(SIZE_MB * (v / SIZE_GB), SIZE_KB * (v / SIZE_GB));
      ShiftBack(v, SIZE_MB * (v / SIZE_GB));
    }
  }

  lemma PlainRoundTrip(s: string, p: nat, n: u32)
    requires Has(s, p, Dec(n)) && Delimiter(CharAt(s, p + |Dec(n)|))
    ensures MemsizeParse(s, p) == (n, p + |Dec(n)|)
  {
    hide Strtoul, Dec;
    StrtoulOfDec(s, p, n);
  }

  lemma SuffixedRoundTrip(s: string, p: nat, n: u32, c: char)
    requires c == 'g' || c == 'm' || c == 'k'
    requires Has(s, p, Dec(n) + [c])
    ensures MemsizeParse(s, p) == (Scaled(n, c), p + |Dec(n)| + 1)
  {
    hide Strtoul, Dec, Scaled;
    HasSplit(s, p, Dec(n), [c]);
    HasAt(s, p + |Dec(n)|, [c], 0);
    StrtoulOfDec(s, p, n);
  }

  lemma MemsizeRoundTrip(s: string, p: nat, v: u32)
    requires Has(s, p, MemsizeFormat(v))
    requires Delimiter(CharAt(s, p + |MemsizeFormat(v)|))
    ensures MemsizeParse(s, p) == (v, p + |MemsizeFormat(v)|)
  {
    hide Strtoul, Dec, MemsizeParse, Has, CharAt, Delimiter, Scaled;
    if v % SIZE_GB == 0 {
      SuffixedRoundTrip(s, p, v / SIZE_GB, 'g');
      ScaledBack(v);
    } else if v % SIZE_MB == 0 {
      SuffixedRoundTrip(s, p, v / SIZE_MB, 'm');
      ScaledBack(v);
    } else if v % SIZE_KB == 0 {
      SuffixedRoundTrip(s, p, v / SIZE_KB, 'k');
      ScaledBack(v);
    } else {
      PlainRoundTrip(s, p, v);
    }
  }

  /** What the parser stores for a printed partition; only a generated name can differ. */
  function Reread(parts: seq<Part>, i: nat): (r: Part)
    requires i < |parts|
    ensures r == parts[i].(name := r.name)
    ensures !parts[i].autoName ==> r == parts[i]
  {
    var part := parts[i];
    if part.autoName then
      part.(name := AutoName(part.size, if Gap(parts, i) then part.offset else OFFSET_NOT_SPECIFIED))
    else part
  }

  function RereadAll(parts: seq<Part>): (r: seq<Part>)
    ensures |r| == |parts|
  {
    seq(|parts|, i requires 0 <= i < |parts| => Reread(parts, i))
  }

  /** Partitions as the table holds them. */
  ghost predicate ValidParts(id: MtdId, parts: seq<Part>) {
    && parts != []
    && (forall i :: 0 <= i < |parts| ==>
          FillSize(id, parts[i]) == parts[i] && Acceptable(id, parts[i]))
    && (forall i :: 0 <= i < |parts| && !parts[i].autoName ==> parts[i].name != "" && ')' !in parts[i].name)
  }

  /** Sizes that the parser takes: not too small, and only on a last partition
      the number that stands for "the rest". */
  predicate Legible(parts: seq<Part>, i: nat) {
    forall j :: i <= j < |parts| ==>
      parts[j].size >= MIN_PART_SIZE && (j < |parts| - 1 ==> parts[j].size != SIZE_REMAINING)
  }

  lemma FormatStart(v: u32)
    ensures MemsizeFormat(v) != [] && IsDigit(MemsizeFormat(v)[0], 10)
  {
    DecDigits(v);
    DecDigits(v / SIZE_GB);
    DecDigits(v / SIZE_MB);
    DecDigits(v / SIZE_KB);
  }

  lemma SizeField(s: string, p: nat, v: u32)
    requires Has(s, p, MemsizeFormat(v)) && Delimiter(CharAt(s, p + |MemsizeFormat(v)|))
    ensures ParseSize(s, p) == if v < MIN_PART_SIZE then Bad else Good(v, p + |MemsizeFormat(v)|)
  {
    MemsizeRoundTrip(s, p, v);
    FormatStart(v);
    HasAt(s, p, MemsizeFormat(v), 0);
  }

  lemma OffsetValue(s: string, p: nat, v: u32)
    requires Has(s, p, "@" + MemsizeFormat(v)) && Delimiter(CharAt(s, p + 1 + |MemsizeFormat(v)|))
    ensures ParseOffset(s, p) == (v, p + 1 + |MemsizeFormat(v)|)
  {
    hide MemsizeFormat, MemsizeParse, Delimiter;
    HasSplit(s, p, "@", MemsizeFormat(v));
    HasAt(s, p, "@", 0);
    MemsizeRoundTrip(s, p + 1, v);
  }

  lemma OffsetField(s: string, p: nat, parts: seq<Part>, i: nat)
    requires i < |parts| && Has(s, p, OffsetText(parts, i))
    requires var c := CharAt(s, p + |OffsetText(parts, i)|); Delimiter(c) && c != '@'
    ensures ParseOffset(s, p)
            == (if Gap(parts, i) then parts[i].offset else OFFSET_NOT_SPECIFIED, p + |OffsetText(parts, i)|)
  {
    hide MemsizeFormat, MemsizeParse, Gap, RunningOffset;
    if Gap(parts, i) {
      OffsetValue(s, p, parts[i].offset);
    }
  }

  lemma NameField(s: string, p: nat, part: Part)
    requires !part.autoName ==> part.name != "" && ')' !in part.name
    requires Has(s, p, NameText(part))
    requires var c := CharAt(s, p + |NameText(part)|); c == 'r' || End(c)
    ensures ParseName(s, p) == Good(if part.autoName then "" else part.name, p + |NameText(part)|)
  {
    var name := part.name;
    if !part.autoName {
      HasSplit(s, p, "(" + name, ")");
      HasSplit(s, p, "(", name);
      HasAt(s, p, "(", 0);
      HasAt(s, p + 1 + |name|, ")", 0);
      FindIs(s, p + 1, p + 1 + |name|, ')');
    }
  }

  lemma RoField(s: string, p: nat, part: Part)
    requires Has(s, p, RoText(part)) && End(CharAt(s, p + |RoText(part)|))
    ensures ParseRo(s, p) == (part.ro, p + |RoText(part)|)
  {
    if Has(s, p, "ro") {
      HasAt(s, p, "ro", 0);
    }
  }

  /** What an optional field starts with. */
  lemma FieldStarts(parts: seq<Part>, i: nat)
    requires i < |parts|
    ensures OffsetText(parts, i) != [] ==> OffsetText(parts, i)[0] == '@'
    ensures NameText(parts[i]) != [] ==> NameText(parts[i])[0] == '('
    ensures RoText(parts[i]) != [] ==> RoText(parts[i])[0] == 'r'
  {
  }

  /** First character of an optional field, or of what follows it. */
  lemma FieldStart(s: string, p: nat, t: string, c: char)
    requires Has(s, p, t) && (t != [] ==> t[0] == c)
    ensures CharAt(s, p) == if t == [] then CharAt(s, p + |t|) else c
  {
    if t != [] {
      HasAt(s, p, t, 0);
    }
  }

  ghost predicate PartAt(s: string, p: nat, parts: seq<Part>, i: nat) {
    && i < |parts| && Has(s, p, PartText(parts, i))
    && (!parts[i].autoName ==> parts[i].name != "" && ')' !in parts[i].name)
    && var q := p + |PartText(parts, i)|;
       && End(CharAt(s, q))
       && (CharAt(s, q) == '\0' ==> q == |s|)
  }

  /** Each field stands where the previous one ends. */
  lemma FieldsAt(s: string, p: nat, parts: seq<Part>, i: nat)
    requires PartAt(s, p, parts, i)
    ensures var part := parts[i];
            var p1 := p + |MemsizeFormat(part.size)|;
            var p2 := p1 + |OffsetText(parts, i)|;
            var p3 := p2 + |NameText(part)|;
            && Has(s, p, MemsizeFormat(part.size)) && Has(s, p1, OffsetText(parts, i))
            && Has(s, p2, NameText(part)) && Has(s, p3, RoText(part))
            && p3 + |RoText(part)| == p + |PartText(parts, i)| <= |s|
  {
    hide MemsizeFormat, Gap, OffsetText, NameText, RoText;
    var t1, t2, t3, t4 := MemsizeFormat(parts[i].size), OffsetText(parts, i), NameText(parts[i]), RoText(parts[i]);
    HasSplit(s, p, t1, t2 + (t3 + t4));
    HasSplit(s, p + |t1|, t2, t3 + t4);
    HasSplit(s, p + |t1| + |t2|, t3, t4);
  }

  lemma FieldsRoundTrip(s: string, p: nat, parts: seq<Part>, i: nat)
    requires PartAt(s, p, parts, i)
    ensures var part := parts[i];
            var p1 := p + |MemsizeFormat(part.size)|;
            var p2 := p1 + |OffsetText(parts, i)|;
            var p3 := p2 + |NameText(part)|;
            && p3 + |RoText(part)| == p + |PartText(parts, i)| <= |s|
            && ParseSize(s, p) == (if part.size < MIN_PART_SIZE then Bad else Good(part.size, p1))
            && ParseOffset(s, p1) == (if Gap(parts, i) then part.offset else OFFSET_NOT_SPECIFIED, p2)
            && ParseName(s, p2) == Good(if part.autoName then "" else part.name, p3)
            && ParseRo(s, p3) == (part.ro, p3 + |RoText(part)|)
  {
    hide MemsizeFormat, ParseSize, ParseOffset, ParseName, ParseRo, Has, OffsetText, NameText, RoText, CharAt;
    FieldsAt(s, p, parts, i);
    FieldStarts(parts, i);
    var part := parts[i];
    var t1, t2, t3, t4 := MemsizeFormat(part.size), OffsetText(parts, i), NameText(part), RoText(part);
    var p1 := p + |t1|;
    var p2 := p1 + |t2|;
    var p3 := p2 + |t3|;
    FieldStart(s, p3, t4, 'r');
    FieldStart(s, p2, t3, '(');
    FieldStart(s, p1, t2, '@');
    SizeField(s, p, part.size);
    OffsetField(s, p1, parts, i);
    NameField(s, p2, part);
    RoField(s, p3, part);
  }

  lemma {:induction false} PartRoundTrip(s: string, p: nat, parts: seq<Part>, i: nat)
    requires PartAt(s, p, parts, i)
    ensures var q := p + |PartText(parts, i)|;
            var comma := CharAt(s, q) == ',';
            p <= |s| && ParsePart(s, p) ==
            if parts[i].size < MIN_PART_SIZE || (comma && parts[i].size == SIZE_REMAINING) then Bad
            else Good(Reread(parts, i).(offset := if Gap(parts, i) then parts[i].offset else OFFSET_NOT_SPECIFIED),
                      if comma then q + 1 else q)
  {
    hide MemsizeFormat, ParseSize, ParseOffset, ParseName, ParseRo, Gap, OffsetText, NameText, RoText, AutoName;
    FieldsRoundTrip(s, p, parts, i);
  }

  // ---- lists of partitions

  /** The text of the partitions from the i-th on, followed by the end of the device. */
  ghost predicate PartsAt(id: MtdId, s: string, p: nat, parts: seq<Part>, i: nat) {
    && i <= |parts| && ValidParts(id, parts) && Has(s, p, PartsText(parts, i))
    && var q := p + |PartsText(parts, i)|;
       && (q == |s| || s[q] == ';')
  }

  lemma SeparatorAt(s: string, p: nat, i: nat, n: nat, c: char)
    requires Has(s, p, Separator(i, n, c))
    ensures Separator(i, n, c) != [] ==> CharAt(s, p) == c
  {
    if i + 1 < n {
      HasAt(s, p, [c], 0);
    }
  }

  lemma PartsTextSplit(s: string, p: nat, parts: seq<Part>, i: nat)
    requires i < |parts| && Has(s, p, PartsText(parts, i))
    ensures var q := p + |PartText(parts, i)|;
            var sep := Separator(i, |parts|, ',');
            && Has(s, p, PartText(parts, i)) && Has(s, q, sep) && Has(s, q + |sep|, PartsText(parts, i + 1))
            && q + |sep| + |PartsText(parts, i + 1)| == p + |PartsText(parts, i)| <= |s|
            && (sep != [] ==> CharAt(s, q) == ',')
  {
    hide PartText, Separator;
    var sep := Separator(i, |parts|, ',');
    HasSplit(s, p, PartText(parts, i), sep + PartsText(parts, i + 1));
    HasSplit(s, p + |PartText(parts, i)|, sep, PartsText(parts, i + 1));
    SeparatorAt(s, p + |PartText(parts, i)|, i, |parts|, ',');
  }

  lemma NoParts(parts: seq<Part>)
    ensures PartsText(parts, |parts|) == ""
  {
  }

  lemma PartsSplit(id: MtdId, s: string, p: nat, parts: seq<Part>, i: nat)
    requires PartsAt(id, s, p, parts, i) && i < |parts|
    ensures PartAt(s, p, parts, i)
    ensures var q := p + |PartText(parts, i)|;
            if i + 1 < |parts| then
              CharAt(s, q) == ',' && PartsAt(id, s, q + 1, parts, i + 1)
              && q + 1 + |PartsText(parts, i + 1)| == p + |PartsText(parts, i)|
            else CharAt(s, q) != ',' && PartsAt(id, s, q, parts, i + 1) && q == p + |PartsText(parts, i)|
  {
    hide PartText, PartsText, Acceptable, FillSize, Has;
    PartsTextSplit(s, p, parts, i);
    assert i + 1 == |parts| ==> PartsText(parts, i + 1) == "" by { NoParts(parts); }
  }

  lemma {:induction false} PlaceReread(id: MtdId, parts: seq<Part>, i: nat)
    requires ValidParts(id, parts) && i < |parts|
    ensures var read := Reread(parts, i).(offset := if Gap(parts, i) then parts[i].offset else OFFSET_NOT_SPECIFIED);
            Place(id, read, RunningOffset(parts, i)) == Reread(parts, i)
    ensures Acceptable(id, Reread(parts, i))
  {
    hide AutoName, OnSectorStart;
  }

  lemma PartStart(s: string, p: nat, parts: seq<Part>, i: nat)
    requires PartAt(s, p, parts, i)
    ensures p < |s| && s[p] != ';'
  {
    hide MemsizeFormat, OffsetText, NameText, RoText;
    FormatStart(parts[i].size);
    HasAt(s, p, PartText(parts, i), 0);
  }

  lemma LegibleStep(parts: seq<Part>, i: nat)
    requires i < |parts|
    ensures Legible(parts, i)
            <==> parts[i].size >= MIN_PART_SIZE && !(i + 1 < |parts| && parts[i].size == SIZE_REMAINING)
                 && Legible(parts, i + 1)
  {
  }

  lemma RereadSnoc(parts: seq<Part>, i: nat)
    requires i < |parts|
    ensures RereadAll(parts)[..i + 1] == RereadAll(parts)[..i] + [Reread(parts, i)]
  {
    hide Reread;
  }

  lemma PartAtBound(s: string, p: nat, parts: seq<Part>, i: nat)
    requires PartAt(s, p, parts, i)
    ensures p + |PartText(parts, i)| <= |s|
  {
  }

  /** One turn of the loop over the definitions of a device. */
  lemma {:induction false} PartsStep(id: MtdId, s: string, p: nat, parts: seq<Part>, i: nat, acc: seq<Part>)
    requires PartsAt(id, s, p, parts, i) && i < |parts|
    ensures var comma := i + 1 < |parts|;
            var q := p + |PartText(parts, i)| + if comma then 1 else 0;
            p <= |s| && q <= |s| && ParseParts(id, s, p, RunningOffset(parts, i), acc)
            == if parts[i].size < MIN_PART_SIZE || (comma && parts[i].size == SIZE_REMAINING) then Bad
               else ParseParts(id, s, q, RunningOffset(parts, i + 1), acc + [Reread(parts, i)])
  {
    hide PartText, PartsText, ParsePart, Acceptable, Place, AutoName, Has, ValidParts;
    PartsSplit(id, s, p, parts, i);
    PartRoundTrip(s, p, parts, i);
    PartStart(s, p, parts, i);
    PlaceReread(id, parts, i);
    PartAtBound(s, p, parts, i);
  }

  /** The loop ends behind the last definition. */
  lemma PartsEnd(id: MtdId, s: string, p: nat, parts: seq<Part>)
    requires PartsAt(id, s, p, parts, |parts|)
    ensures p <= |s|
    ensures ParseParts(id, s, p, RunningOffset(parts, |parts|), RereadAll(parts)) == Good(RereadAll(parts), p)
    ensures PartsText(parts, |parts|) == "" && Legible(parts, |parts|)
  {
  }

  lemma {:induction false} PartsRoundTrip(id: MtdId, s: string, p: nat, parts: seq<Part>, i: nat)
    requires PartsAt(id, s, p, parts, i)
    ensures p <= |s|
    ensures ParseParts(id, s, p, RunningOffset(parts, i), RereadAll(parts)[..i])
            == if Legible(parts, i) then Good(RereadAll(parts), p + |PartsText(parts, i)|) else Bad
    decreases |parts| - i
  {
    hide ParseParts, PartsText, PartText, Reread, RereadAll, ValidParts, RunningOffset, Has, CharAt, Legible;
    if i == |parts| {
      assert RereadAll(parts)[..i] == RereadAll(parts);
      PartsEnd(id, s, p, parts);
    } else {
      LegibleStep(parts, i);
      PartsSplit(id, s, p, parts, i);
      PartsStep(id, s, p, parts, i, RereadAll(parts)[..i]);
      RereadSnoc(parts, i);
      NoParts(parts);
      var q := p + |PartText(parts, i)|;
      PartsRoundTrip(id, s, if i + 1 < |parts| then q + 1 else q, parts, i + 1);
    }
  }

  // ---- devices

  function RereadDevice(dev: DeviceDef): DeviceDef {
    dev.(parts := RereadAll(dev.parts))
  }

  function RereadTable(devs: seq<DeviceDef>): (r: seq<DeviceDef>)
    ensures |r| == |devs|
  {
    seq(|devs|, i requires 0 <= i < |devs| => RereadDevice(devs[i]))
  }

  /** The device as it is stored again: the parser sorts the definitions that it reads. */
  function Reload(dev: DeviceDef): DeviceDef {
    match SortParts(RereadAll(dev.parts))
    case Good(parts, _) => dev.(parts := parts)
    case Bad => dev
  }

  function ReloadTable(devs: seq<DeviceDef>): (r: seq<DeviceDef>)
    ensures |r| == |devs|
    ensures forall i :: 0 <= i < |r| ==> r[i].id == devs[i].id
  {
    seq(|devs|, i requires 0 <= i < |devs| => Reload(devs[i]))
  }

  ghost predicate ValidDevice(ids: seq<MtdId>, dev: DeviceDef) {
    && dev.id in ids && ':' !in dev.id.name && ValidParts(dev.id, dev.parts)
  }

  ghost predicate DistinctNames(ids: seq<MtdId>) {
    forall i, j :: 0 <= i < j < |ids| ==> ids[i].name != ids[j].name
  }

  ghost predicate ValidTable(ids: seq<MtdId>, devs: seq<DeviceDef>) {
    && DistinctNames(ids)
    && (forall i :: 0 <= i < |devs| ==> ValidDevice(ids, devs[i]))
    && (forall i, j :: 0 <= i < j < |devs| ==> !SameDevice(devs[i].id, devs[j].id))
  }

  predicate Rereadable(dev: DeviceDef) {
    Legible(dev.parts, 0)
  }

  predicate Reloadable(dev: DeviceDef) {
    Rereadable(dev) && SortParts(RereadAll(dev.parts)).Good?
  }

  lemma {:induction false} FindIdIs(ids: seq<MtdId>, id: MtdId)
    requires DistinctNames(ids) && id in ids
    ensures FindId(ids, id.name) == Good(id, 0)
  {
    var k :| 0 <= k < |ids| && ids[k] == id;
    if k > 0 {
      assert ids[1..][k - 1] == id;
      FindIdIs(ids[1..], id);
    }
  }

  lemma {:induction false} DeviceIndexIs(devs: seq<DeviceDef>, id: MtdId)
    requires forall i :: 0 <= i < |devs| ==> !SameDevice(devs[i].id, id)
    ensures DeviceIndex(devs, id) == |devs|
  {
    if devs != [] {
      DeviceIndexIs(devs[1..], id);
    }
  }

  /** The text of the devices from the i-th on, up to the end of the string. */
  ghost predicate DevicesAt(ids: seq<MtdId>, s: string, p: nat, devs: seq<DeviceDef>, i: nat) {
    && i <= |devs| && ValidTable(ids, devs)
    && Has(s, p, DevicesText(devs, i)) && p + |DevicesText(devs, i)| == |s|
  }

  lemma DeviceTextSplit(s: string, p: nat, name: string, list: string, sep: string, rest: string)
    requires Has(s, p, name + (":" + (list + (sep + rest))))
    ensures var colon := p + |name|;
            var q := colon + 1 + |list|;
            && colon < |s| && s[p..colon] == name && s[colon] == ':'
            && q <= |s| && Has(s, colon + 1, list) && Has(s, q, sep) && Has(s, q + |sep|, rest)
            && q + |sep| + |rest| == p + |name + (":" + (list + (sep + rest)))|
  {
    var colon := p + |name|;
    HasSplit(s, p, name, ":" + (list + (sep + rest)));
    HasSplit(s, colon, ":", list + (sep + rest));
    HasAt(s, colon, ":", 0);
    HasSplit(s, colon + 1, list, sep + rest);
    HasSplit(s, colon + 1 + |list|, sep, rest);
  }

  lemma ValidAt(ids: seq<MtdId>, devs: seq<DeviceDef>, i: nat)
    requires ValidTable(ids, devs) && i < |devs|
    ensures ValidDevice(ids, devs[i]) && DistinctNames(ids)
  {
  }

  lemma DevicesTextSplit(s: string, p: nat, devs: seq<DeviceDef>, i: nat)
    requires i < |devs| && Has(s, p, DevicesText(devs, i))
    ensures var colon := p + |devs[i].id.name|;
            var q := colon + 1 + |PartsText(devs[i].parts, 0)|;
            && colon < |s| && s[p..colon] == devs[i].id.name && s[colon] == ':'
            && Has(s, colon + 1, PartsText(devs[i].parts, 0)) && q <= |s|
            && if i + 1 < |devs| then CharAt(s, q) == ';' && Has(s, q + 1, DevicesText(devs, i + 1))
                                      && q + 1 + |DevicesText(devs, i + 1)| == p + |DevicesText(devs, i)|
               else q == p + |DevicesText(devs, i)|
  {
    hide PartsText, Has;
    var sep := Separator(i, |devs|, ';');
    DeviceTextSplit(s, p, devs[i].id.name, PartsText(devs[i].parts, 0), sep, DevicesText(devs, i + 1));
    SeparatorAt(s, p + |devs[i].id.name| + 1 + |PartsText(devs[i].parts, 0)|, i, |devs|, ';');
  }

  lemma DevicesSplit(ids: seq<MtdId>, s: string, p: nat, devs: seq<DeviceDef>, i: nat)
    requires DevicesAt(ids, s, p, devs, i) && i < |devs|
    ensures var colon := p + |devs[i].id.name|;
            var q := colon + 1 + |PartsText(devs[i].parts, 0)|;
            && colon < |s| && s[p..colon] == devs[i].id.name && s[colon] == ':'
            && PartsAt(devs[i].id, s, colon + 1, devs[i].parts, 0)
            && if i + 1 < |devs| then CharAt(s, q) == ';' && DevicesAt(ids, s, q + 1, devs, i + 1)
               else q == |s|
  {
    hide PartsText, ValidParts, Has, ValidTable, DevicesText;
    DevicesTextSplit(s, p, devs, i);
    ValidAt(ids, devs, i);
  }

  /** The devices read so far do not clash with the next one. */
  lemma NoClash(ids: seq<MtdId>, devs: seq<DeviceDef>, i: nat)
    requires ValidTable(ids, devs) && i < |devs|
    ensures DeviceIndex(ReloadTable(devs)[..i], devs[i].id) == i
  {
    hide Reload;
    DeviceIndexIs(ReloadTable(devs)[..i], devs[i].id);
  }

  lemma {:induction false} DeviceParts(dev: DeviceDef, s: string, p: nat)
    requires PartsAt(dev.id, s, p, dev.parts, 0)
    ensures p <= |s|
    ensures ParseParts(dev.id, s, p, 0, [])
            == if Rereadable(dev) then Good(RereadAll(dev.parts), p + |PartsText(dev.parts, 0)|) else Bad
  {
    hide PartsText, ParseParts;
    PartsRoundTrip(dev.id, s, p, dev.parts, 0);
    assert RereadAll(dev.parts)[..0] == [];
  }

  lemma {:induction false} DeviceRoundTrip(ids: seq<MtdId>, s: string, p: nat, devs: seq<DeviceDef>, i: nat,
                                          before: seq<DeviceDef>)
    requires DevicesAt(ids, s, p, devs, i) && i < |devs|
    requires DeviceIndex(before, devs[i].id) == |before|
    ensures p < |s|
    ensures var q := p + |devs[i].id.name| + 1 + |PartsText(devs[i].parts, 0)|;
            ParseDevice(ids, before, s, p)
            == if Reloadable(devs[i]) then Good(Reload(devs[i]), if i + 1 < |devs| then q + 1 else q) else Bad
  {
    hide PartsText, ParseParts, DevicesText, PartsAt, Rereadable, ValidTable, DistinctNames, RunningOffset, Acceptable;
    hide FindId, SortParts, RereadAll, Has, Find, DeviceIndex;
    DevicesSplit(ids, s, p, devs, i);
    var dev := devs[i];
    ValidAt(ids, devs, i);
    FindIs(s, p, p + |dev.id.name|, ':');
    FindIdIs(ids, dev.id);
    DeviceParts(dev, s, p + |dev.id.name| + 1);
  }

  ghost predicate AllReloadable(devs: seq<DeviceDef>, i: nat) {
    forall j :: i <= j < |devs| ==> Reloadable(devs[j])
  }

  lemma {:induction false} DevicesRoundTrip(ids: seq<MtdId>, s: string, p: nat, devs: seq<DeviceDef>, i: nat)
    requires DevicesAt(ids, s, p, devs, i)
    ensures p <= |s|
    ensures ParseDevices(ids, s, p, ReloadTable(devs)[..i])
            == if AllReloadable(devs, i) then Good(ReloadTable(devs), |s|) else Bad
    decreases |devs| - i
  {
    hide ParseDevice, PartsText, DeviceIndex, PartsAt, ValidTable, Has, Reloadable, Reload;
    if i == |devs| {
      assert ReloadTable(devs)[..i] == ReloadTable(devs);
    } else {
      var before := ReloadTable(devs)[..i];
      NoClash(ids, devs, i);
      DeviceRoundTrip(ids, s, p, devs, i, before);
      DevicesSplit(ids, s, p, devs, i);
      assert ReloadTable(devs)[..i + 1] == before + [Reload(devs[i])];
      var q := p + |devs[i].id.name| + 1 + |PartsText(devs[i].parts, 0)|;
      if i + 1 < |devs| {
        DevicesRoundTrip(ids, s, q + 1, devs, i + 1);
      } else {
        assert ReloadTable(devs)[..i + 1] == ReloadTable(devs);
      }
    }
  }

  /** What generate_mtdparts writes, parse_mtdparts reads back and sorts again, or nothing when
      a size is illegible or two definitions of a device start at zero. */
  lemma {:induction false} ReloadOfTable(ids: seq<MtdId>, devs: seq<DeviceDef>)
    requires ValidTable(ids, devs)
    ensures ParseTable(ids, TableText(devs)) == if AllReloadable(devs, 0) then ReloadTable(devs) else []
  {
    hide DevicesText, ParseDevices, Reload, Reloadable, ValidTable;
    if devs != [] {
      var s := TableText(devs);
      HasSplit(s, 0, "mtdparts=", DevicesText(devs, 0));
      DevicesRoundTrip(ids, s, 9, devs, 0);
      assert ReloadTable(devs)[..0] == [];
    }
  }

  ghost predicate AllRereadable(devs: seq<DeviceDef>, i: nat) {
    forall j :: i <= j < |devs| ==> Rereadable(devs[j])
  }

  ghost predicate AllStrict(devs: seq<DeviceDef>) {
    forall i :: 0 <= i < |devs| ==> StrictlyAscending(devs[i].parts)
  }

  lemma StrictIsKept(dev: DeviceDef)
    requires StrictlyAscending(dev.parts)
    ensures (Reloadable(dev) <==> Rereadable(dev)) && Reload(dev) == RereadDevice(dev)
  {
    hide Legible, SortParts;
    SortKeeps(RereadAll(dev.parts));
  }

  /** The central law: what generate_mtdparts writes, parse_mtdparts reads back,
      with every omitted offset restored and only generated names renamed. It
      holds exactly if no partition is smaller than the parser's minimum and none
      of SIZE_REMAINING bytes stands in front of another one; otherwise nothing
      is read. */
  lemma {:induction false} TableRoundTrip(ids: seq<MtdId>, devs: seq<DeviceDef>)
    requires ValidTable(ids, devs) && AllStrict(devs)
    ensures AllRereadable(devs, 0) <==> ParseTable(ids, TableText(devs)) == RereadTable(devs)
    ensures !AllRereadable(devs, 0) ==> ParseTable(ids, TableText(devs)) == []
  {
    hide ParseTable, TableText, Reload, Reloadable, Rereadable, RereadDevice, ValidTable, StrictlyAscending;
    ReloadOfTable(ids, devs);
    forall i | 0 <= i < |devs|
      ensures (Reloadable(devs[i]) <==> Rereadable(devs[i])) && Reload(devs[i]) == RereadDevice(devs[i])
    {
      StrictIsKept(devs[i]);
    }
    assert AllReloadable(devs, 0) == AllRereadable(devs, 0);
    assert ReloadTable(devs) == RereadTable(devs);
  }
}
