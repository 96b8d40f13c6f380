/** The second reader of partition lists: ath_nand_get_cal_offset in cmd_mii.c, compared
    with the parser of MtdGrammar. Its offsets have 64 bits and do not wrap here. */
module MtdCal {
  import opened CString
  import opened MtdGrammar

  const NAND_PART := "ath-nand"
  const INVALID := -1

  /** strstr: the first position at or behind p, |s| when there is none. */
  function Search(s: string, p: nat, t: string): (q: nat)
    requires p <= |s| && t != ""
    ensures p <= q <= |s| && (q < |s| ==> Has(s, q, t))
    ensures forall i :: p <= i < q ==> !Has(s, i, t)
    decreases |s| - p
  {
    if p == |s| || Has(s, p, t) then p else Search(s, p + 1, t)
  }

  /** A size with its suffix, without overflow. */
  function Wide(n: nat, c: char): nat {
    if c in "gG" then n * 1024 * 1024 * 1024
    else if c in "mM" then n * 1024 * 1024
    else if c in "kK" then n * 1024
    else n
  }

  /** The loop, with mtdparts on the ':' or ',' at position m. */
  function CalFrom(s: string, m: nat, end: nat, off: nat, prefix: string): int
    requires m <= end <= |s|
    decreases |s| - m
  {
    if m == end then INVALID
    else
      var (n, q) := Strtoul(s, m + 1, 0);
      if Has(s, q + 2, prefix) then off
      else
        var c := Find(s, q, ',');
        if c == |s| || c >= end then INVALID else CalFrom(s, c, end, off + Wide(n, CharAt(s, q)), prefix)
  }

  function CalOffset(ba: string, prefix: string): int {
    var k := Search(ba, 0, NAND_PART);
    var m := if k == |ba| then |ba| else Find(ba, k, ':');
    if m == |ba| then INVALID else CalFrom(ba, m, Find(ba, m, ' '), 0, prefix)
  }

  method Strstr(s: string, start: nat, t: string) returns (p: nat)
    requires start <= |s| && t != ""
    ensures p == Search(s, start, t)
  {
    p := start;
    while p < |s| && !(p + |t| <= |s| && s[p..p + |t|] == t)
      invariant start <= p <= |s| && Search(s, p, t) == Search(s, start, t)
    {
      p := p + 1;
    }
  }

  method AthNandGetCalOffset(ba: string, prefix: string) returns (r: int)
    ensures r == CalOffset(ba, prefix)
  {
    hide Strtoul, Wide, Search, Has;
    var k := Strstr(ba, 0, NAND_PART);
    if k == |ba| {
      return INVALID;
    }
    var mtdparts: nat := Find(ba, k, ':');
    if mtdparts == |ba| {
      return INVALID;
    }
    var end, off: nat := Find(ba, mtdparts, ' '), 0;
    while mtdparts < end
      invariant mtdparts <= end <= |ba|
      invariant CalFrom(ba, mtdparts, end, off, prefix) == CalOffset(ba, prefix)
      decreases end - mtdparts
    {
      var size, q := SimpleStrtoul(ba, mtdparts + 1, 0);
      if Has(ba, q + 2, prefix) {
        return off;
      }
      off := off + Wide(size, CharAt(ba, q));
      var c := Find(ba, q, ',');
      if c == |ba| || c >= end {
        return INVALID;
      }
      mtdparts := c;
    }
    return INVALID;
  }

  // ---- agreement with the partition parser

  /** A list of suffixed sizes with names: no '@', no ',' inside a name. */
  predicate Simple(s: string, p: nat)
    requires p <= |s|
    decreases |s| - p
  {
    p < |s| &&
    var (n, q) := Strtoul(s, p, 0);
    IsSuffix(CharAt(s, q)) && CharAt(s, q + 1) == '(' &&
    var r := Find(s, q + 2, ')');
    r < |s| && ',' !in s[q + 2..r] &&
    var c := Find(s, r, ',');
    c == |s| || Simple(s, c + 1)
  }

  /** Number of the first name that starts with the prefix, |parts| when there is none. */
  function FirstNamed(parts: seq<Part>, prefix: string): (i: nat)
    ensures i <= |parts|
    ensures i < |parts| ==> prefix <= parts[i].name
    ensures forall j :: 0 <= j < i ==> !(prefix <= parts[j].name)
  {
    if parts == [] || prefix <= parts[0].name then 0 else 1 + FirstNamed(parts[1..], prefix)
  }

  /** None of the first i sizes overflows 32 bits. */
  predicate Fit(s: string, p: nat, i: nat)
    requires p <= |s|
    decreases i
  {
    i == 0 ||
    var (n, q) := Strtoul(s, p, 0);
    var c := Find(s, q, ',');
    Wide(n, CharAt(s, q)) < U32 && (c == |s| || Fit(s, c + 1, i - 1))
  }

  lemma SimpleStart(s: string, p: nat)
    requires p <= |s| && Simple(s, p)
    ensures var (n, q) := Strtoul(s, p, 0);
            && p < |s| && q + 2 <= |s| && IsSuffix(CharAt(s, q)) && CharAt(s, q + 1) == '('
            && Find(s, q + 2, ')') < |s| && ',' !in s[q + 2..Find(s, q + 2, ')')]
            && var c := Find(s, Find(s, q + 2, ')'), ','); c == |s| || Simple(s, c + 1)
  {
    hide Strtoul, IsSuffix, Find;
  }

  lemma NotMinus(s: string, p: nat)
    requires p <= |s| && IsSuffix(CharAt(s, Strtoul(s, p, 0).1))
    ensures CharAt(s, p) != '-'
  {
    hide Value;
  }

  /** The fields of one entry, as the partition parser reads them. */
  lemma EntryFields(s: string, p: nat)
    requires p <= |s| && Simple(s, p)
    ensures var (n, q) := Strtoul(s, p, 0);
            var r := Find(s, q + 2, ')');
            && q + 2 <= r < |s|
            && ParseSize(s, p) ==
                  (if Scaled(n, CharAt(s, q)) < MIN_PART_SIZE then Bad else Good(Scaled(n, CharAt(s, q)), q + 1))
            && ParseOffset(s, q + 1) == (OFFSET_NOT_SPECIFIED, q + 1)
            && ParseName(s, q + 1) == (if r == q + 2 then Bad else Good(s[q + 2..r], r + 1))
  {
    hide Scaled, Simple;
    SimpleStart(s, p);
    NotMinus(s, p);
    var (n, q) := Strtoul(s, p, 0);
    hide Strtoul;
  }

  lemma PartFrom(s: string, p: nat, p1: nat)
    requires p <= p1 <= |s| && ParseOffset(s, p1) == (OFFSET_NOT_SPECIFIED, p1)
    requires ParseSize(s, p).Bad? || ParseSize(s, p).next == p1
    ensures ParseSize(s, p).Bad? || ParseName(s, p1).Bad? ==> ParsePart(s, p).Bad?
    ensures ParseSize(s, p).Good? && ParseName(s, p1).Good? && ParseName(s, p1).value != "" ==>
              var size, name := ParseSize(s, p).value, ParseName(s, p1).value;
              var ro := ParseRo(s, ParseName(s, p1).next);
              ParsePart(s, p) == match ParseEnd(s, ro.1, size)
                                 case Bad => Bad
                                 case Good(_, next) => Good(Part(size, OFFSET_NOT_SPECIFIED, name, false, ro.0), next)
  {
    hide ParseSize, ParseOffset, ParseName, ParseRo, ParseEnd;
  }

  /** What the partition parser makes of an entry: number n up to q, name up to r. */
  lemma {:induction false} EntryPart(s: string, p: nat, n: u32, q: nat, r: nat)
    requires p <= q && q + 2 <= r < |s| && (n, q) == Strtoul(s, p, 0) && r == Find(s, q + 2, ')')
    requires Simple(s, p) && ParsePart(s, p).Good?
    ensures var size, ro := Scaled(n, CharAt(s, q)), ParseRo(s, r + 1);
            && q + 2 < r && ParseEnd(s, ro.1, size).Good?
            && ParsePart(s, p)
               == Good(Part(size, OFFSET_NOT_SPECIFIED, s[q + 2..r], false, ro.0), ParseEnd(s, ro.1, size).next)
  {
    hide Strtoul, Simple, Scaled, ParsePart, ParseSize, ParseOffset, ParseName, ParseRo, ParseEnd, Find;
    EntryFields(s, p);
    PartFrom(s, p, q + 1);
  }

  lemma RoIs(s: string, p: nat)
    requires p <= |s|
    ensures var e := ParseRo(s, p).1; e == p || (e == p + 2 && s[p] == 'r' && s[p + 1] == 'o')
  {
    if Has(s, p, "ro") {
      HasAt(s, p, "ro", 0);
      HasAt(s, p, "ro", 1);
    }
  }

  lemma CommaAt(s: string, q: nat, r: nat, end: nat)
    requires q + 2 <= r < end <= |s| && IsSuffix(s[q]) && s[q + 1] == '(' && ',' !in s[q + 2..r] && s[r] == ')'
    requires end == r + 1 || (end == r + 3 && s[r + 1] == 'r' && s[r + 2] == 'o')
    requires CharAt(s, end) == ',' || end == |s|
    ensures Find(s, q, ',') == Find(s, r, ',') == end
  {
    assert forall i :: q <= i < end ==> s[i] != ',' by {
      forall i | q + 2 <= i < r ensures s[i] != ',' {
        assert s[i] == s[q + 2..r][i - q - 2];
      }
    }
    if end < |s| && s[end] == ',' {
      FindIs(s, q, end, ',');
      FindIs(s, r, end, ',');
    }
  }

  /** The end of an entry: both readers find the same comma. */
  lemma {:induction false} EntryEnd(s: string, p: nat)
    requires p <= |s| && Simple(s, p) && ';' !in s[p..] && ParsePart(s, p).Good?
    ensures var q := Strtoul(s, p, 0).1;
            var c := Find(s, q, ',');
            && c == Find(s, Find(s, q + 2, ')'), ',')
            && ParsePart(s, p).next == if c == |s| then |s| else c + 1
  {
    hide Strtoul, Simple, Scaled, ParsePart, Find;
    SimpleStart(s, p);
    var (n, q) := Strtoul(s, p, 0);
    var r := Find(s, q + 2, ')');
    EntryPart(s, p, n, q, r);
    var end := ParseRo(s, r + 1).1;
    RoIs(s, r + 1);
    hide ParseRo;
    assert end < |s| ==> s[end] in s[p..];
    CommaAt(s, q, r, end);
  }

  lemma ScaledIsWide(n: u32, c: char)
    requires IsSuffix(c)
    ensures Wide(n, c) < U32 ==> Scaled(n, c) == Wide(n, c)
    ensures Scaled(n, c) != SIZE_REMAINING
  {
  }

  lemma HasParenthesis(s: string, p: nat, r: nat, t: string)
    requires Has(s, p, t) && p <= r < p + |t| && s[r] == ')'
    ensures ')' in t
  {
    assert t[r - p] == s[p..p + |t|][r - p];
  }

  /** The name has the prefix exactly if the text behind the parenthesis has it. */
  lemma PrefixOfName(s: string, p: nat, r: nat, prefix: string)
    requires p <= r < |s| && s[r] == ')' && ')' !in prefix
    ensures Has(s, p, prefix) <==> prefix <= s[p..r]
  {
    if Has(s, p, prefix) && r - p < |prefix| {
      HasParenthesis(s, p, r, prefix);
    } else if Has(s, p, prefix) {
      assert s[p..r][..|prefix|] == s[p..p + |prefix|];
    }
    if prefix <= s[p..r] {
      assert s[p..p + |prefix|] == s[p..r][..|prefix|];
    }
  }

  /** One turn of the loop. */
  lemma CalStep(s: string, m: nat, end: nat, off: nat, prefix: string)
    requires m < end <= |s|
    ensures var (n, q) := Strtoul(s, m + 1, 0);
            var c := Find(s, q, ',');
            CalFrom(s, m, end, off, prefix)
            == (if Has(s, q + 2, prefix) then off else if c == |s| || c >= end then INVALID
                else CalFrom(s, c, end, off + Wide(n, CharAt(s, q)), prefix))
  {
    hide Strtoul, Find, Wide, Has;
  }

  /** A character that is missing behind p is missing behind every later position. */
  lemma Behind(s: string, p: nat, c: nat, x: char)
    requires p <= c <= |s| && x !in s[p..]
    ensures c < |s| ==> x !in s[c + 1..]
  {
    if c < |s| {
      assert s[c + 1..] == s[p..][c + 1 - p..];
    }
  }

  /** One partition of a simple list: its place, its name, and the loop of the other reader. */
  lemma {:induction false} EntryStep(id: MtdId, s: string, m: nat, offset: u32, acc: seq<Part>,
                                     off: nat, prefix: string)
    requires m < |s| && Simple(s, m + 1) && ';' !in s[m + 1..] && ')' !in prefix
    requires ParseParts(id, s, m + 1, offset, acc).Good?
    ensures var (n, q) := Strtoul(s, m + 1, 0);
            var c, size, wide := Find(s, q, ','), Scaled(n, CharAt(s, q)), Wide(n, CharAt(s, q));
            && ParsePart(s, m + 1).Good?
            && var part := Place(id, ParsePart(s, m + 1).value, offset);
            && part.offset == offset && part.size == size && Plus(offset, size) == offset + size
            && ParseParts(id, s, m + 1, offset, acc)
               == ParseParts(id, s, if c == |s| then |s| else c + 1, offset + size, acc + [part])
            && CalFrom(s, m, |s|, off, prefix)
               == (if prefix <= part.name then off else if c == |s| then INVALID
                   else CalFrom(s, c, |s|, off + wide, prefix))
            && (c < |s| ==> Simple(s, c + 1) && ';' !in s[c + 1..])
  {
    hide Strtoul, Simple, Scaled, Wide, ParsePart, Find, AlignmentOk, ParseEnd, ParseRo, CalFrom, Has;
    hide IsSuffix, CharAt, ParseSize, ParseName, ParseOffset;
    CalStep(s, m, |s|, off, prefix);
    var p := m + 1;
    SimpleStart(s, p);
    assert s[p] in s[p..];
    var (n, q) := Strtoul(s, p, 0);
    var r := Find(s, q + 2, ')');
    EntryPart(s, p, n, q, r);
    EntryEnd(s, p);
    Behind(s, p, Find(s, q, ','), ';');
    ScaledIsWide(n, CharAt(s, q));
    PrefixOfName(s, q + 2, r, prefix);
  }

  lemma TailOf(parts: seq<Part>, acc: seq<Part>, part: Part)
    requires |acc| < |parts| && parts[..|acc| + 1] == acc + [part]
    ensures parts[..|acc|] == acc && parts[|acc|] == part
    ensures parts[|acc|..] != [] && parts[|acc|..][0] == part && parts[|acc|..][1..] == parts[|acc| + 1..]
  {
    assert parts[..|acc|] == parts[..|acc| + 1][..|acc|];
    assert parts[|acc|] == parts[..|acc| + 1][|acc|];
  }

  lemma NoMore(id: MtdId, s: string, offset: u32, acc: seq<Part>)
    ensures ParseParts(id, s, |s|, offset, acc) == Good(acc, |s|)
  {
  }

  lemma FirstOf(parts: seq<Part>, prefix: string)
    requires parts != []
    ensures FirstNamed(parts, prefix) == if prefix <= parts[0].name then 0 else 1 + FirstNamed(parts[1..], prefix)
    ensures FirstNamed([], prefix) == 0
  {
  }

  lemma FitStep(s: string, p: nat, i: nat)
    requires p <= |s|
    ensures var (n, q) := Strtoul(s, p, 0);
            var c := Find(s, q, ',');
            Fit(s, p, i) <==> i == 0 || (Wide(n, CharAt(s, q)) < U32 && (c == |s| || Fit(s, c + 1, i - 1)))
  {
    hide Strtoul, Find, Wide;
  }

  /** The offset that belongs to the first partition with the prefix. */
  ghost predicate Answers(s: string, p: nat, parts: seq<Part>, prefix: string, same: bool, off: nat, found: int)
    requires p <= |s|
  {
    var i := FirstNamed(parts, prefix);
    && (i == |parts| ==> found == INVALID)
    && (i < |parts| ==>
          && found >= off
          && (same && Fit(s, p, i) ==> found == parts[i].offset)
          && (!Fit(s, p, i) ==> found >= U32))
  }

  lemma AnswersLast(s: string, p: nat, part: Part, prefix: string, same: bool, off: nat, found: int)
    requires p <= |s| && (same ==> off == part.offset) && found == if prefix <= part.name then off else INVALID
    ensures Answers(s, p, [part], prefix, same, off, found)
  {
    FirstOf([part], prefix);
  }

  /** One partition in front. */
  lemma AnswersMore(s: string, p: nat, parts: seq<Part>, prefix: string, same: bool, off: nat, size: u32, found: int)
    requires p <= |s| && parts != [] && (same ==> off == parts[0].offset)
    requires var (n, q) := Strtoul(s, p, 0);
             var c, wide := Find(s, q, ','), Wide(n, CharAt(s, q));
             && c < |s| && (wide < U32 ==> size == wide)
             && (prefix <= parts[0].name ==> found == off)
             && (!(prefix <= parts[0].name) ==>
                   Answers(s, c + 1, parts[1..], prefix, off + wide == parts[0].offset + size, off + wide, found))
    ensures Answers(s, p, parts, prefix, same, off, found)
  {
    hide Strtoul, Find, Wide, CharAt, FirstNamed, Fit;
    FirstOf(parts, prefix);
    FitStep(s, p, FirstNamed(parts, prefix));
  }

  /** On a list of suffixed sizes with names and without '@', the offset found is that of the
      first partition with the prefix, exactly if no size in front of it overflows 32 bits. */
  lemma {:induction false} CalAgrees(id: MtdId, s: string, m: nat, offset: u32, acc: seq<Part>,
                                     off: nat, prefix: string)
    requires m < |s| && Simple(s, m + 1) && ';' !in s[m + 1..] && ')' !in prefix
    requires ParseParts(id, s, m + 1, offset, acc).Good?
    ensures var parts := ParseParts(id, s, m + 1, offset, acc).value;
            && |acc| < |parts| && parts[..|acc|] == acc
            && Answers(s, m + 1, parts[|acc|..], prefix, off == offset, off, CalFrom(s, m, |s|, off, prefix))
    decreases |s| - m
  {
    hide Strtoul, Simple, Scaled, Wide, ParsePart, Place, Find, CalFrom, ParseParts, FirstNamed, Fit, Acceptable;
    hide Has, IsSuffix, CharAt, Plus, Answers;
    EntryStep(id, s, m, offset, acc, off, prefix);
    var (n, q) := Strtoul(s, m + 1, 0);
    var c, size, wide := Find(s, q, ','), Scaled(n, CharAt(s, q)), Wide(n, CharAt(s, q));
    var part, found := Place(id, ParsePart(s, m + 1).value, offset), CalFrom(s, m, |s|, off, prefix);
    SimpleStart(s, m + 1);
    ScaledIsWide(n, CharAt(s, q));
    if c == |s| {
      NoMore(id, s, offset + size, acc + [part]);
      assert (acc + [part])[|acc|..] == [part];
      AnswersLast(s, m + 1, part, prefix, off == offset, off, found);
    } else {
      CalAgrees(id, s, c, offset + size, acc + [part], off + wide, prefix);
      var parts := ParseParts(id, s, m + 1, offset, acc).value;
      TailOf(parts, acc, part);
      AnswersMore(s, m + 1, parts[|acc|..], prefix, off == offset, off, size, found);
    }
  }

  // ---- what stands behind the list

  /** A text that ends with its string or in front of a blank. */
  predicate Ends(s: string, e: nat) {
    e == |s| || (e < |s| && s[e] == ' ')
  }

  lemma Slice(s: string, e: nat, a: nat, b: nat)
    requires a <= b <= e <= |s|
    ensures s[..e][a..b] == s[a..b]
  {
  }

  /** Numbers are read without looking beyond the blank. */
  lemma NumberBefore(s: string, e: nat, p: nat)
    requires Ends(s, e) && p <= e
    ensures Strtoul(s, p, 0) == Strtoul(s[..e], p, 0)
  {
    hide Value;
    var (radix, first) := Radix(s, p, 0);
    assert Radix(s[..e], p, 0) == (radix, first);
    var end := DigitsEnd(s[..e], first, radix);
    DigitsEndIs(s, first, end, radix);
    Slice(s, e, first, end);
  }

  /** A character is found in front of the blank, or not before it. */
  lemma FoundBefore(s: string, e: nat, p: nat, x: char)
    requires p <= e <= |s|
    ensures var c := Find(s[..e], p, x); if c < e then Find(s, p, x) == c else Find(s, p, x) >= e
  {
    var c := Find(s[..e], p, x);
    Slice(s, e, p, c);
    if c < e {
      FindIs(s, p, c, x);
    }
  }

  /** A name in front of the blank has the prefix in either text. */
  lemma PrefixBefore(s: string, e: nat, p: nat, r: nat, prefix: string)
    requires p <= r < e <= |s| && s[r] == ')' && ')' !in prefix
    ensures Has(s, p, prefix) <==> Has(s[..e], p, prefix)
  {
    hide Has;
    PrefixOfName(s, p, r, prefix);
    PrefixOfName(s[..e], p, r, prefix);
    Slice(s, e, p, r);
  }

  /** The comma behind the number is the one behind the name. */
  lemma SameComma(s: string, p: nat)
    requires p <= |s| && Simple(s, p)
    ensures var q := Strtoul(s, p, 0).1;
            q + 2 <= |s| && Find(s, q, ',') == Find(s, Find(s, q + 2, ')'), ',')
  {
    hide Strtoul, Simple, Find;
    SimpleStart(s, p);
    var q := Strtoul(s, p, 0).1;
    var r := Find(s, q + 2, ')');
    var c := Find(s, r, ',');
    assert s[q..c] == [s[q], s[q + 1]] + s[q + 2..r] + s[r..c];
    FindIs(s, q, c, ',');
  }

  /** One entry in front of the blank is the same in either text. */
  lemma EntryBefore(s: string, p: nat, e: nat, prefix: string)
    requires p <= e && Ends(s, e) && Simple(s[..e], p) && ')' !in prefix
    ensures var q, c := Strtoul(s, p, 0).1, Find(s[..e], Strtoul(s[..e], p, 0).1, ',');
            && Strtoul(s, p, 0) == Strtoul(s[..e], p, 0) && p <= q < e && CharAt(s, q) == CharAt(s[..e], q)
            && (Has(s, q + 2, prefix) <==> Has(s[..e], q + 2, prefix))
            && (if c < e then Find(s, q, ',') == c && Simple(s[..e], c + 1) else Find(s, q, ',') >= e)
  {
    hide Strtoul, Simple, Find, Has, IsSuffix;
    var t := s[..e];
    SimpleStart(t, p);
    NumberBefore(s, e, p);
    var q := Strtoul(t, p, 0).1;
    PrefixBefore(s, e, q + 2, Find(t, q + 2, ')'), prefix);
    FoundBefore(s, e, q, ',');
    SameComma(t, p);
  }

  /** The loop does not look behind the end of the list. */
  lemma {:induction false} CalBefore(s: string, m: nat, e: nat, off: nat, prefix: string)
    requires m < e && Ends(s, e) && Simple(s[..e], m + 1) && ')' !in prefix
    ensures CalFrom(s, m, e, off, prefix) == CalFrom(s[..e], m, e, off, prefix)
    decreases e - m
  {
    hide Strtoul, Simple, Find, Wide, Has, CalFrom, CharAt;
    EntryBefore(s, m + 1, e, prefix);
    CalStep(s, m, e, off, prefix);
    CalStep(s[..e], m, e, off, prefix);
    var (n, q) := Strtoul(s, m + 1, 0);
    var c := Find(s[..e], q, ',');
    if c < e {
      CalBefore(s, c, e, off + Wide(n, CharAt(s, q)), prefix);
    }
  }

  /** The calibration offset and the partition list of the same arguments, behind the colon at m
      and up to the next blank: the offset is that of the first partition with the prefix, exactly
      if no size in front of it overflows; without such a partition there is none. */
  lemma {:induction false} CalOffsetAgrees(id: MtdId, ba: string, m: nat, prefix: string)
    requires Search(ba, 0, NAND_PART) < |ba| && m == Find(ba, Search(ba, 0, NAND_PART), ':') < |ba|
    requires var list := ba[..Find(ba, m, ' ')];
             && ';' !in list[m + 1..] && ')' !in prefix
             && Simple(list, m + 1) && ParseParts(id, list, m + 1, 0, []).Good?
    ensures var list := ba[..Find(ba, m, ' ')];
            var parts := ParseParts(id, list, m + 1, 0, []).value;
            var i := FirstNamed(parts, prefix);
            && (i == |parts| ==> CalOffset(ba, prefix) == INVALID)
            && (i < |parts| ==> (CalOffset(ba, prefix) == parts[i].offset <==> Fit(list, m + 1, i)))
  {
    hide Search, Find, Simple, ParseParts, CalFrom, FirstNamed, Fit;
    var e := Find(ba, m, ' ');
    var list := ba[..e];
    CalBefore(ba, m, e, 0, prefix);
    CalAgrees(id, list, m, 0, [], 0, prefix);
    var parts := ParseParts(id, list, m + 1, 0, []).value;
    assert parts[0..] == parts;
  }

  // ---- a size that overflows

  const HUGE := MtdId(0, 0x8000_0000, "ath-nand", Nand(0x1000))

  /** "5g(a)" stands at p, in front of a comma or the end. */
  ghost predicate UnitAt(s: string, p: nat, n: nat, unit: char, c: char)
    requires n < 10
  {
    && p + 5 <= |s| && s[p] == DigitChar(n) && s[p + 1] == unit && (unit == 'g' || unit == 'k')
    && s[p + 2] == '(' && s[p + 3] == c && s[p + 4] == ')' && c != ')'
    && (p + 5 < |s| ==> s[p + 5] == ',')
  }

  lemma UnitRead(s: string, p: nat, n: nat, unit: char, c: char)
    requires n < 10 && UnitAt(s, p, n, unit, c) && 0x1000 <= Scaled(n, unit) < SIZE_REMAINING
    ensures Strtoul(s, p, 0) == (n, p + 1)
    ensures ParsePart(s, p) == Good(Part(Scaled(n, unit), OFFSET_NOT_SPECIFIED, [c], false, false),
                                    if p + 5 < |s| then p + 6 else p + 5)
  {
    hide Strtoul, Scaled;
    OneDigit(s, p, n);
    assert s[p] != '-';
    assert s[p + 3..p + 4] == [c];
    FindIs(s, p + 3, p + 4, ')');
    assert !Has(s, p + 5, "ro") by {
      if Has(s, p + 5, "ro") {
        HasAt(s, p + 5, "ro", 0);
      }
    }
  }

  lemma HugeSizes()
    ensures Scaled(5, 'g') == 0x4000_0000 && Scaled(4, 'k') == 0x1000
  {
    assert 5 * 1024 % U32 == 0x1400 && 0x1400 * 1024 % U32 == 0x50_0000 && 0x50_0000 * 1024 % U32 == 0x4000_0000;
  }

  lemma HugeParts(ba: string)
    requires ba == "ath-nand:5g(a),4k(c)"
    ensures UnitAt(ba, 9, 5, 'g', 'a') && UnitAt(ba, 15, 4, 'k', 'c')
    ensures Strtoul(ba, 9, 0) == (5, 10) && Strtoul(ba, 15, 0) == (4, 16)
    ensures ParsePart(ba, 9) == Good(Part(0x4000_0000, OFFSET_NOT_SPECIFIED, "a", false, false), 15)
    ensures ParsePart(ba, 15) == Good(Part(0x1000, OFFSET_NOT_SPECIFIED, "c", false, false), 20)
  {
    hide Strtoul, ParsePart, Scaled;
    HugeSizes();
    UnitRead(ba, 9, 5, 'g', 'a');
    UnitRead(ba, 15, 4, 'k', 'c');
  }

  lemma HugeList(ba: string)
    requires |ba| == 20 && ba[9] != ';' && ba[15] != ';'
    requires ParsePart(ba, 9) == Good(Part(0x4000_0000, OFFSET_NOT_SPECIFIED, "a", false, false), 15)
    requires ParsePart(ba, 15) == Good(Part(0x1000, OFFSET_NOT_SPECIFIED, "c", false, false), 20)
    ensures ParseParts(HUGE, ba, 9, 0, [])
            == Good([Part(0x4000_0000, 0, "a", false, false), Part(0x1000, 0x4000_0000, "c", false, false)], 20)
  {
    hide ParsePart;
    var a, c := Part(0x4000_0000, 0, "a", false, false), Part(0x1000, 0x4000_0000, "c", false, false);
    assert Acceptable(HUGE, a) && Acceptable(HUGE, c);
    assert [] + [a] == [a] && [a] + [c] == [a, c];
    assert ParseParts(HUGE, ba, 20, 0x4000_1000, [a, c]) == Good([a, c], 20);
    assert ParseParts(HUGE, ba, 15, 0x4000_0000, [a]) == Good([a, c], 20);
  }

  lemma HugeOffset(ba: string)
    requires |ba| == 20 && UnitAt(ba, 9, 5, 'g', 'a') && UnitAt(ba, 15, 4, 'k', 'c') && ba[10..14] == "g(a)"
    requires Strtoul(ba, 9, 0) == (5, 10) && Strtoul(ba, 15, 0) == (4, 16)
    ensures CalFrom(ba, 8, 20, 0, "c") == 0x1_4000_0000
  {
    hide Strtoul, Find, CalFrom;
    CalStep(ba, 8, 20, 0, "c");
    CalStep(ba, 14, 20, 0x1_4000_0000, "c");
    FindIs(ba, 10, 14, ',');
    assert ba[12..13] == "a" && ba[18..19] == "c";
  }

  lemma NoBlank(s: string, p: nat)
    requires p <= |s| && ' ' !in s
    ensures Find(s, p, ' ') == |s|
  {
  }

  lemma HugeStart(ba: string)
    requires ba == "ath-nand:5g(a),4k(c)"
    ensures CalOffset(ba, "c") == CalFrom(ba, 8, 20, 0, "c")
  {
    hide CalFrom, Find;
    assert ba[0..8] == NAND_PART && Search(ba, 0, NAND_PART) == 0;
    FindIs(ba, 0, 8, ':');
    NoBlank(ba, 8);
  }

  /** A size of five gigabytes is one gigabyte for the partition parser: the second partition starts at one
      gigabyte there, and at five gigabytes for the other reader. */
  lemma {:induction false} SizeOverflows()
    ensures var ba := "ath-nand:5g(a),4k(c)";
            var parts := ParseParts(HUGE, ba, 9, 0, []);
            && parts.Good? && |parts.value| == 2 && parts.value[1].name == "c" && parts.value[1].offset == 0x4000_0000
            && CalOffset(ba, "c") == 0x1_4000_0000
  {
    hide ParseParts, CalFrom, ParsePart, Strtoul, UnitAt, CalOffset;
    var ba := "ath-nand:5g(a),4k(c)";
    HugeParts(ba);
    HugeList(ba);
    HugeOffset(ba);
    HugeStart(ba);
  }
}
