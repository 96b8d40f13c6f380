/** The mtdparts language of cmd_jffs2.c: what its parser accepts and its printer writes.

    Sizes and offsets are 32-bit; sums wrap. A position is an index into the
    text, and every parser returns the position behind what it read.
  */
module MtdGrammar {
  import opened CString

  const SIZE_REMAINING: u32 := 0xFFFF_FFFF
  const OFFSET_NOT_SPECIFIED: u32 := 0xFFFF_FFFF
  const MIN_PART_SIZE: u32 := 4096

  const SIZE_KB: u32 := 0x400
  const SIZE_MB: u32 := 0x10_0000
  const SIZE_GB: u32 := 0x4000_0000

  type u8 = x: nat | x < 0x100

  type posU32 = x: u32 | x > 0 witness 1

  /** Where partitions of a device may start and end. */
  datatype Geometry =
    | Nor(starts: seq<u32>, flashSize: u32)
    | Nand(eraseSize: posU32)

  /** An entry of the mtdids list; the device type is that of the geometry. */
  datatype MtdId = MtdId(num: u8, size: u32, name: string, geometry: Geometry)

  datatype Part = Part(size: u32, offset: u32, name: string, autoName: bool, ro: bool)

  datatype DeviceDef = DeviceDef(id: MtdId, parts: seq<Part>)

  datatype Parsed<+T> = Good(value: T, next: nat) | Bad

  predicate SameDevice(a: MtdId, b: MtdId) {
    a.geometry.Nor? == b.geometry.Nor? && a.num == b.num
  }

  function Plus(a: u32, b: u32): u32 {
    (a + b) % U32
  }

  // ---- sizes

  predicate IsSuffix(c: char) {
    c in "gGmMkK"
  }

  function Shift10(n: u32): u32 {
    n * 1024 % U32
  }

  /** The shifts that a suffix causes, each in 32 bits. */
  function Scaled(n: u32, c: char): u32 {
    if c in "gG" then Shift10(Shift10(Shift10(n)))
    else if c in "mM" then Shift10(Shift10(n))
    else if c in "kK" then Shift10(n)
    else n
  }

  function MemsizeParse(s: string, p: nat): (r: (u32, nat))
    requires p <= |s|
    ensures p <= r.1 <= |s|
    ensures r.1 == p ==> r.0 == 0
  {
    var (n, q) := Strtoul(s, p, 0);
    (Scaled(n, CharAt(s, q)), if IsSuffix(CharAt(s, q)) then q + 1 else q)
  }

  function MemsizeFormat(size: u32): string {
    if size % SIZE_GB == 0 then Dec(size / SIZE_GB) + "g"
    else if size % SIZE_MB == 0 then Dec(size / SIZE_MB) + "m"
    else if size % SIZE_KB == 0 then Dec(size / SIZE_KB) + "k"
    else Dec(size)
  }

  // ---- validation

  predicate OnSectorStart(g: Geometry, x: u32)
    requires g.Nor?
  {
    exists i :: 0 <= i < |g.starts| && (g.starts[i] - g.starts[0]) % U32 == x
  }

  predicate AlignmentOk(g: Geometry, part: Part) {
    match g
    case Nor(_, flashSize) =>
      var end := Plus(part.offset, part.size);
      OnSectorStart(g, part.offset) && (OnSectorStart(g, end) || flashSize == end)
    case Nand(eraseSize) =>
      part.offset % eraseSize == 0 && part.size % eraseSize == 0
  }

  /** part_validate: the partition with its size filled in, when it is acceptable. */
  function FillSize(id: MtdId, part: Part): (r: Part)
    ensures r.offset == part.offset
  {
    if part.size == SIZE_REMAINING then part.(size := (id.size - part.offset) % U32) else part
  }

  predicate Acceptable(id: MtdId, part: Part) {
    && part.offset <= id.size
    && part.offset < Plus(part.offset, part.size) <= id.size
    && AlignmentOk(id.geometry, part)
  }

  // ---- one partition

  function Hex8(n: u32): string {
    seq(8, i requires 0 <= i < 8 => DigitChar((n / Pow16(7 - i)) % 16))
  }

  function Pow16(k: nat): (r: nat)
    ensures r > 0
  {
    if k == 0 then 1 else 16 * Pow16(k - 1)
  }

  function AutoName(size: u32, offset: u32): string {
    "0x" + Hex8(size) + "@0x" + Hex8(offset)
  }

  function ParseSize(s: string, p: nat): (r: Parsed<u32>)
    requires p <= |s|
    ensures r.Good? ==> p < r.next <= |s|
  {
    if CharAt(s, p) == '-' then Good(SIZE_REMAINING, p + 1)
    else
      var (size, q) := MemsizeParse(s, p);
      if size < MIN_PART_SIZE then Bad else Good(size, q)
  }

  function ParseOffset(s: string, p: nat): (r: (u32, nat))
    requires p <= |s|
    ensures p <= r.1 <= |s|
  {
    if CharAt(s, p) == '@' then MemsizeParse(s, p + 1) else (OFFSET_NOT_SPECIFIED, p)
  }

  /** The user's name in parentheses; an empty result means that there is none. */
  function ParseName(s: string, p: nat): (r: Parsed<string>)
    requires p <= |s|
    ensures r.Good? ==> p <= r.next <= |s|
  {
    if CharAt(s, p) != '(' then Good("", p)
    else
      var q := Find(s, p + 1, ')');
      if q == |s| || q == p + 1 then Bad else Good(s[p + 1..q], q + 1)
  }

  function ParseRo(s: string, p: nat): (r: (bool, nat))
    requires p <= |s|
    ensures p <= r.1 <= |s|
  {
    if Has(s, p, "ro") then (true, p + 2) else (false, p)
  }

  /** The end of a definition: behind a ',', or on the ';' or NUL. */
  function ParseEnd(s: string, p: nat, size: u32): (r: Parsed<()>)
    requires p <= |s|
    ensures r.Good? ==> p <= r.next <= |s|
  {
    if CharAt(s, p) == ',' then (if size == SIZE_REMAINING then Bad else Good((), p + 1))
    else if CharAt(s, p) == ';' || p == |s| then Good((), p)
    else Bad
  }

  function ParsePart(s: string, p: nat): (r: Parsed<Part>)
    requires p <= |s|
    ensures r.Good? ==> p < r.next <= |s|
  {
    match ParseSize(s, p)
    case Bad => Bad
    case Good(size, p1) =>
      var (offset, p2) := ParseOffset(s, p1);
      match ParseName(s, p2)
      case Bad => Bad
      case Good(name, p3) =>
        var (ro, p4) := ParseRo(s, p3);
        match ParseEnd(s, p4, size)
        case Bad => Bad
        case Good(_, p5) =>
          Good(if name == "" then Part(size, offset, AutoName(size, offset), true, ro)
               else Part(size, offset, name, false, ro), p5)
  }

  // ---- one device

  /** A definition without an offset starts where the previous one ended. */
  function Place(id: MtdId, part: Part, offset: u32): Part {
    FillSize(id, if part.offset == OFFSET_NOT_SPECIFIED then part.(offset := offset) else part)
  }

  function ParseParts(id: MtdId, s: string, p: nat, offset: u32, acc: seq<Part>): (r: Parsed<seq<Part>>)
    requires p <= |s|
    ensures r.Good? ==> p <= r.next <= |s| && (r.next < |s| ==> s[r.next] == ';')
    decreases |s| - p
  {
    if p == |s| || s[p] == ';' then Good(acc, p)
    else
      match ParsePart(s, p)
      case Bad => Bad
      case Good(def, next) =>
        var part := Place(id, def, offset);
        if !Acceptable(id, part) then Bad
        else ParseParts(id, s, next, Plus(part.offset, part.size), acc + [part])
  }

  function Offsets(parts: seq<Part>): (r: seq<u32>)
    ensures |r| == |parts|
  {
    seq(|parts|, i requires 0 <= i < |parts| => parts[i].offset)
  }

  /** The place of a new offset in an ascending list: in front of the first offset that is not smaller. */
  function InsertPos(offsets: seq<u32>, x: u32): (k: nat)
    ensures k <= |offsets|
    ensures forall i :: 0 <= i < k ==> offsets[i] < x
    ensures k < |offsets| ==> x <= offsets[k]
  {
    if offsets == [] || x <= offsets[0] then 0 else 1 + InsertPos(offsets[1..], x)
  }

  /** Only one partition may start at offset zero. */
  predicate Rejected(offsets: seq<u32>, x: u32) {
    x == 0 && |offsets| > 0 && offsets[0] == 0
  }

  function SortParts(parts: seq<Part>): (r: Parsed<seq<Part>>)
    ensures r.Good? ==> |r.value| == |parts|
  {
    if parts == [] then Good([], 0)
    else
      var init := SortParts(parts[..|parts| - 1]);
      var part := parts[|parts| - 1];
      if init.Bad? || Rejected(Offsets(init.value), part.offset) then Bad
      else
        var k := InsertPos(Offsets(init.value), part.offset);
        Good(init.value[..k] + [part] + init.value[k..], 0)
  }

  function FindId(ids: seq<MtdId>, name: string): Parsed<MtdId> {
    if ids == [] then Bad
    else if ids[0].name == name then Good(ids[0], 0)
    else FindId(ids[1..], name)
  }

  /** Index of the table entry for a device, the table's length when it has none. */
  function DeviceIndex(devs: seq<DeviceDef>, id: MtdId): (k: nat)
    ensures k <= |devs|
    ensures forall i :: 0 <= i < k ==> !SameDevice(devs[i].id, id)
    ensures k < |devs| ==> SameDevice(devs[k].id, id)
  {
    if devs == [] || SameDevice(devs[0].id, id) then 0 else 1 + DeviceIndex(devs[1..], id)
  }

  /** Where a definition list for this device starts counting. */
  function StartOffset(devs: seq<DeviceDef>, id: MtdId): u32 {
    var k := DeviceIndex(devs, id);
    if k == |devs| || devs[k].parts == [] then 0
    else
      var last := devs[k].parts[|devs[k].parts| - 1];
      Plus(last.offset, last.size)
  }

  function ParseDevice(ids: seq<MtdId>, devs: seq<DeviceDef>, s: string, p: nat): (r: Parsed<DeviceDef>)
    requires p <= |s|
    ensures r.Good? ==> p < r.next <= |s| && r.value.parts != []
  {
    var colon := Find(s, p, ':');
    if colon == |s| then Bad
    else
      match FindId(ids, s[p..colon])
      case Bad => Bad
      case Good(id, _) =>
        match ParseParts(id, s, colon + 1, StartOffset(devs, id), [])
        case Bad => Bad
        case Good(parts, end) =>
          var sorted := SortParts(parts);
          if parts == [] || sorted.Bad? then Bad
          else Good(DeviceDef(id, sorted.value), if CharAt(s, end) == ';' then end + 1 else end)
  }

  function ParseDevices(ids: seq<MtdId>, s: string, p: nat, devs: seq<DeviceDef>): (r: Parsed<seq<DeviceDef>>)
    requires p <= |s|
    decreases |s| - p
  {
    if p == |s| then Good(devs, p)
    else
      match ParseDevice(ids, devs, s, p)
      case Bad => Bad
      case Good(dev, next) =>
        if DeviceIndex(devs, dev.id) < |devs| then Bad
        else ParseDevices(ids, s, next, devs + [dev])
  }

  /** The devices that parse_mtdparts builds from the text; none when it reports an error. */
  function ParseTable(ids: seq<MtdId>, text: string): seq<DeviceDef> {
    if !Has(text, 0, "mtdparts=") then []
    else
      match ParseDevices(ids, text, 9, [])
      case Bad => []
      case Good(devs, _) => devs
  }

  // ---- printing

  /** An offset is written only where it is not the end of the previous partition. */
  predicate Gap(parts: seq<Part>, i: nat)
    requires i < |parts|
  {
    parts[i].offset != RunningOffset(parts, i)
  }

  function RunningOffset(parts: seq<Part>, i: nat): u32
    requires i <= |parts|
  {
    if i == 0 then 0 else Plus(parts[i - 1].offset, parts[i - 1].size)
  }

  function OffsetText(parts: seq<Part>, i: nat): string
    requires i < |parts|
  {
    if Gap(parts, i) then "@" + MemsizeFormat(parts[i].offset) else ""
  }

  function NameText(part: Part): string {
    if part.autoName then "" else "(" + part.name + ")"
  }

  function RoText(part: Part): string {
    if part.ro then "ro" else ""
  }

  function PartText(parts: seq<Part>, i: nat): string
    requires i < |parts|
  {
    MemsizeFormat(parts[i].size) + (OffsetText(parts, i) + (NameText(parts[i]) + RoText(parts[i])))
  }

  /** What separates the i-th of n list elements from the next one. */
  function Separator(i: nat, n: nat, c: char): string {
    if i + 1 < n then [c] else ""
  }

  /** The definitions from the i-th on, separated by commas. */
  function PartsText(parts: seq<Part>, i: nat): string
    requires i <= |parts|
    decreases |parts| - i
  {
    if i == |parts| then ""
    else PartText(parts, i) + (Separator(i, |parts|, ',') + PartsText(parts, i + 1))
  }

  function DevicesText(devs: seq<DeviceDef>, i: nat): string
    requires i <= |devs|
    decreases |devs| - i
  {
    if i == |devs| then ""
    else devs[i].id.name
         + (":" + (PartsText(devs[i].parts, 0) + (Separator(i, |devs|, ';') + DevicesText(devs, i + 1))))
  }

  function TableText(devs: seq<DeviceDef>): string {
    if devs == [] then "" else "mtdparts=" + DevicesText(devs, 0)
  }
}
