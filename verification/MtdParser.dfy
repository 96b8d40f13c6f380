/** The parsing and printing routines of cmd_jffs2.c, step by step: memsize_parse, part_parse with its fields,
    part_validate with the search of part_validate_nor, the definition loop of device_parse, and
    generate_mtdparts. Each method is proved to compute a function of MtdGrammar.
  */
module MtdParser {
  import opened CString
  import opened MtdGrammar

  method MemsizeParseAt(ptr: string, at: nat) returns (ret: u32, retptr: nat)
    requires at <= |ptr|
    ensures (ret, retptr) == MemsizeParse(ptr, at)
  {
    hide Strtoul, Shift10;
    ret, retptr := SimpleStrtoul(ptr, at, 0);
    var suffix := CharAt(ptr, retptr);
    if suffix in "Gg" {
      ret := Shift10(ret);
    }
    if suffix in "GgMm" {
      ret := Shift10(ret);
    }
    if suffix in "GgMmKk" {
      ret := Shift10(ret);
      retptr := retptr + 1;
    }
  }

  method SizeParse(s: string, at: nat) returns (r: Parsed<u32>)
    requires at <= |s|
    ensures r == ParseSize(s, at)
  {
    hide MemsizeParse;
    if CharAt(s, at) == '-' {
      return Good(SIZE_REMAINING, at + 1);
    }
    var size, p := MemsizeParseAt(s, at);
    return if size < MIN_PART_SIZE then Bad else Good(size, p);
  }

  method OffsetParse(s: string, at: nat) returns (offset: u32, p: nat)
    requires at <= |s|
    ensures (offset, p) == ParseOffset(s, at)
  {
    hide MemsizeParse;
    offset, p := OFFSET_NOT_SPECIFIED, at;
    if CharAt(s, p) == '@' {
      p := p + 1;
      offset, p := MemsizeParseAt(s, p);
    }
  }

  method NameParse(s: string, at: nat) returns (r: Parsed<string>)
    requires at <= |s|
    ensures r == ParseName(s, at)
  {
    if CharAt(s, at) != '(' {
      return Good("", at);
    }
    var close := Find(s, at + 1, ')');
    if close == |s| || close == at + 1 {
      return Bad;
    }
    return Good(s[at + 1..close], close + 1);
  }

  method PartParse(partdef: string, at: nat) returns (r: Parsed<Part>)
    requires at <= |partdef|
    ensures r == ParsePart(partdef, at)
  {
    hide ParseSize, ParseOffset, ParseName, Has, AutoName;
    var size := SizeParse(partdef, at);
    if size.Bad? {
      return Bad;
    }
    var offset, p := OffsetParse(partdef, size.next);
    var name := NameParse(partdef, p);
    if name.Bad? {
      return Bad;
    }
    p := name.next;
    var ro := false;
    if Has(partdef, p, "ro") {
      ro := true;
      p := p + 2;
    }
    assert ParseRo(partdef, name.next) == (ro, p);
    hide ParseRo;
    if CharAt(partdef, p) == ',' {
      if size.value == SIZE_REMAINING {
        return Bad;
      }
      p := p + 1;
    } else if !(CharAt(partdef, p) == ';' || p == |partdef|) {
      return Bad;
    }
    var part := if name.value != "" then Part(size.value, offset, name.value, false, ro)
                else Part(size.value, offset, AutoName(size.value, offset), true, ro);
    return Good(part, p);
  }

  /** part_validate, with the table look-ups of part_validate_nor written as loops. */
  method PartValidate(id: MtdId, part: Part) returns (ok: bool, filled: Part)
    ensures filled == FillSize(id, part) && filled.offset == part.offset
    ensures ok <==> Acceptable(id, filled)
  {
    filled := part;
    if part.size == SIZE_REMAINING {
      filled := part.(size := (id.size - part.offset) % U32);
    }
    var end := Plus(filled.offset, filled.size);
    if filled.offset > id.size || end <= filled.offset || end > id.size {
      return false, filled;
    }
    match id.geometry
    case Nand(eraseSize) =>
      return filled.offset % eraseSize == 0 && filled.size % eraseSize == 0, filled;
    case Nor(starts, flashSize) =>
      var startOk := SectorStartsAt(id.geometry, filled.offset);
      if !startOk {
        return false, filled;
      }
      var endOk := SectorStartsAt(id.geometry, end);
      return endOk || flashSize == end, filled;
  }

  method SectorStartsAt(g: Geometry, x: u32) returns (found: bool)
    requires g.Nor?
    ensures found <==> OnSectorStart(g, x)
  {
    for i := 0 to |g.starts|
      invariant forall j :: 0 <= j < i ==> (g.starts[j] - g.starts[0]) % U32 != x
    {
      if (g.starts[i] - g.starts[0]) % U32 == x {
        return true;
      }
    }
    return false;
  }

  /** The definition loop of device_parse. */
  method PartsParse(id: MtdId, s: string, at: nat, start: u32) returns (r: Parsed<seq<Part>>)
    requires at <= |s|
    ensures r == ParseParts(id, s, at, start, [])
  {
    hide ParsePart, Acceptable, FillSize;
    var p, offset, parts := at, start, [];
    while p < |s| && s[p] != ';'
      invariant p <= |s|
      invariant ParseParts(id, s, p, offset, parts) == ParseParts(id, s, at, start, [])
      decreases |s| - p
    {
      var def := PartParse(s, p);
      if def.Bad? {
        return Bad;
      }
      var part := def.value;
      if part.offset == OFFSET_NOT_SPECIFIED {
        part := part.(offset := offset);
      } else {
        offset := part.offset;
      }
      var ok, filled := PartValidate(id, part);
      if !ok {
        return Bad;
      }
      offset := Plus(offset, filled.size);
      parts := parts + [filled];
      p := def.next;
    }
    return Good(parts, p);
  }

  /** One guarded copy of generate_mtdparts: text longer than the room that is left ends the job. */
  method Put(text: string, room: nat, t: string) returns (ok: bool, newText: string, left: nat)
    ensures ok <==> |t| <= room
    ensures ok ==> newText == text + t && left == room - |t|
  {
    ok := |t| <= room;
    newText, left := text, room;
    if ok {
      newText, left := text + t, room - |t|;
    }
  }

  /** A field that is copied only when it is wanted. */
  method PutField(wanted: bool, text: string, room: nat, t: string) returns (ok: bool, newText: string, left: nat)
    ensures var field := if wanted then t else "";
            && (ok <==> |field| <= room)
            && (ok ==> newText == text + field && left == room - |field|)
  {
    ok, newText, left := true, text, room;
    if wanted {
      ok, newText, left := Put(text, room, t);
    }
  }

  lemma PartTextSteps(text: string, a: string, b: string, c: string, d: string)
    ensures text + (a + (b + (c + d))) == text + a + b + c + d
  {
  }

  method PutPart(parts: seq<Part>, i: nat, text0: string, room0: nat) returns (ok: bool, text: string, room: nat)
    requires i < |parts|
    ensures ok <==> |PartText(parts, i)| <= room0
    ensures ok ==> text == text0 + PartText(parts, i) && room == room0 - |PartText(parts, i)|
  {
    var part := parts[i];
    ghost var a, b, c, d := MemsizeFormat(part.size), OffsetText(parts, i), NameText(part), RoText(part);
    PartTextSteps(text0, a, b, c, d);
    ok, text, room := Put(text0, room0, MemsizeFormat(part.size));
    if ok {
      var running := if i == 0 then 0 else Plus(parts[i - 1].offset, parts[i - 1].size);
      ok, text, room := PutField(part.offset != running, text, room, "@" + MemsizeFormat(part.offset));
    }
    if ok {
      ok, text, room := PutField(!part.autoName, text, room, "(" + part.name + ")");
    }
    if ok {
      ok, text, room := PutField(part.ro, text, room, "ro");
    }
  }

  method PutParts(parts: seq<Part>, text0: string, room0: nat) returns (ok: bool, text: string, room: nat)
    ensures ok <==> |PartsText(parts, 0)| <= room0
    ensures ok ==> text == text0 + PartsText(parts, 0) && room == room0 - |PartsText(parts, 0)|
  {
    hide PartText;
    text, room := text0, room0;
    for i := 0 to |parts|
      invariant text + PartsText(parts, i) == text0 + PartsText(parts, 0)
      invariant room - |PartsText(parts, i)| == room0 - |PartsText(parts, 0)|
    {
      ghost var rest := PartsText(parts, i + 1);
      assert text + (PartText(parts, i) + (Separator(i, |parts|, ',') + rest))
          == text + PartText(parts, i) + Separator(i, |parts|, ',') + rest;
      ok, text, room := PutPart(parts, i, text, room);
      if !ok {
        return;
      }
      if i + 1 < |parts| {
        ok, text, room := Put(text, room, ",");
        if !ok {
          return;
        }
      }
    }
    ok := true;
    assert text == text0 + PartsText(parts, 0);
  }

  lemma TableTextLength(devs: seq<DeviceDef>)
    requires devs != []
    ensures TableText(devs) == "mtdparts=" + DevicesText(devs, 0)
    ensures DevicesText(devs, |devs|) == ""
  {
  }

  lemma DeviceTextSteps(buf: string, name: string, list: string, sep: string, rest: string)
    ensures buf + (name + (":" + (list + (sep + rest)))) == buf + (name + ":") + list + sep + rest
  {
  }

  /** The string is produced if and only if everything behind "mtdparts=" fits
      into buflen - 1 characters: the nine characters of the prefix are not charged. */
  method GenerateMtdparts(devs: seq<DeviceDef>, buflen: nat) returns (ok: bool, buf: string)
    requires buflen > 0
    ensures ok <==> devs == [] || |TableText(devs)| - 9 <= buflen - 1
    ensures ok ==> buf == TableText(devs)
  {
    if devs == [] {
      return true, "";
    }
    var room: nat := buflen - 1;
    buf := "mtdparts=";
    hide PartsText, TableText;
    for i := 0 to |devs|
      invariant buf + DevicesText(devs, i) == "mtdparts=" + DevicesText(devs, 0)
      invariant room - |DevicesText(devs, i)| == buflen - 1 - |DevicesText(devs, 0)|
    {
      ghost var list, sep, rest := PartsText(devs[i].parts, 0), Separator(i, |devs|, ';'), DevicesText(devs, i + 1);
      DeviceTextSteps(buf, devs[i].id.name, list, sep, rest);
      ok, buf, room := Put(buf, room, devs[i].id.name + ":");
      if !ok {
        TableTextLength(devs);
        return;
      }
      ok, buf, room := PutParts(devs[i].parts, buf, room);
      if !ok {
        TableTextLength(devs);
        return;
      }
      if i + 1 < |devs| {
        ok, buf, room := Put(buf, room, ";");
        if !ok {
          TableTextLength(devs);
          return;
        }
      }
    }
    TableTextLength(devs);
    ok := true;
  }
}
