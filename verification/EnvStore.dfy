/** The environment array of cmd_nvedit.c, edited in place.

    `bs` names the bindings that the array holds; the methods show that each
    edit leaves an array that holds what Environment.Apply says.
  */
module EnvStore {
  import opened CString
  import opened Environment
  import opened Options

  lemma TextAt(s: string, p: nat, b: Binding, j: nat)
    requires Has(s, p, Text(b)) && j <= |b.name| && IsName(b.name)
    ensures p + j < |s| && s[p + j] != '\0'
    ensures s[p + j] == if j == |b.name| then '=' else b.name[j]
    ensures s[p + j] == '=' <==> j == |b.name|
  {
    HasAt(s, p, Text(b), j);
  }

  lemma KeyIs(s: string, j: nat)
    requires j <= |s| && '=' !in s[..j] && (j < |s| ==> s[j] == '=')
    ensures Key(s) == s[..j]
  {
    if j < |s| {
      FindIs(s, 0, j, '=');
    } else {
      KeyOfName(s);
    }
  }

  /** A first difference inside the name, or behind its end, makes another key. */
  lemma KeyDiffers(s: string, name: string, j: nat)
    requires j <= |name| && j <= |s| && s[..j] == name[..j] && '=' !in name
    requires if j == |name| then j < |s| && s[j] != '=' else j == |s| || s[j] != name[j]
    ensures Key(s) != name
  {
    var e := Find(s, 0, '=');
  }

  /** envmatch on the k-th entry. */
  method EnvMatch(env: array<char>, s1: string, i2: nat, ghost bs: seq<Binding>, ghost k: nat) returns (r: int)
    requires Holds(env[..], bs) && WellFormed(bs) && k < |bs| && i2 == Start(bs, k)
    requires '\0' !in s1
    ensures if bs[k].name == Key(s1) then r == i2 + |bs[k].name| + 1 else r == -1
  {
    hide Entries, Image, Holds;
    ghost var t, name := Text(bs[k]), bs[k].name;
    EntryThere(env[..], bs, k);
    var j := 0;
    while CharAt(s1, j) == env[i2 + j]
      invariant j <= |name| && j <= |s1| && s1[..j] == name[..j]
      decreases |name| - j
    {
      TextAt(env[..], i2, bs[k], j);
      if s1[j] == '=' {
        KeyIs(s1, j);
        return i2 + j + 1;
      }
      assert s1[..j + 1] == s1[..j] + [s1[j]] && name[..j + 1] == name[..j] + [name[j]];
      j := j + 1;
    }
    TextAt(env[..], i2, bs[k], j);
    if CharAt(s1, j) == '\0' && env[i2 + j] == '=' {
      KeyIs(s1, j);
      return i2 + j + 1;
    }
    KeyDiffers(s1, name, j);
    return -1;
  }

  lemma StartZero(bs: seq<Binding>)
    ensures Start(bs, 0) == 0
  {
  }

  lemma {:induction false} IndexIs(bs: seq<Binding>, key: string, k: nat)
    requires k <= |bs| && (forall i :: 0 <= i < k ==> bs[i].name != key) && (k < |bs| ==> bs[k].name == key)
    ensures Index(bs, key) == k
  {
    var i := Index(bs, key);
  }

  /** The search loop: the first entry whose name matches. */
  method FindVar(env: array<char>, name: string, ghost bs: seq<Binding>)
    returns (oldval: int, pos: nat, nxt: nat)
    requires Holds(env[..], bs) && WellFormed(bs) && '\0' !in name
    ensures var k := Index(bs, Key(name));
            && pos == Start(bs, k)
            && (k == |bs| ==> oldval == -1)
            && (k < |bs| ==> oldval == pos + |Key(name)| + 1 && nxt == pos + |Text(bs[k])|)
  {
    hide Entries, Image, Holds;
    oldval, pos, nxt := -1, 0, 0;
    ghost var k := 0;
    EndThere(env[..], bs);
    StartZero(bs);
    while env[pos] != '\0'
      invariant k <= |bs| && pos == Start(bs, k) < env.Length && oldval == -1
      invariant k < |bs| || env[pos] == '\0'
      invariant forall i :: 0 <= i < k ==> bs[i].name != Key(name)
      decreases |bs| - k
    {
      nxt := EndOfEntry(env, pos, bs, k);
      oldval := EnvMatch(env, name, pos, bs, k);
      if oldval >= 0 {
        IndexIs(bs, Key(name), k);
        return;
      }
      EntryThere(env[..], bs, k);
      pos := nxt + 1;
      k := k + 1;
    }
    if k < |bs| {
      EntryThere(env[..], bs, k);
      HasAt(env[..], pos, Text(bs[k]), 0);
      TextChars(bs[k], 0);
    }
    IndexIs(bs, Key(name), k);
  }

  /** Scans to the NUL that ends the k-th entry. */
  method EndOfEntry(env: array<char>, pos: nat, ghost bs: seq<Binding>, ghost k: nat) returns (nxt: nat)
    requires Holds(env[..], bs) && WellFormed(bs) && k < |bs| && pos == Start(bs, k)
    ensures nxt == pos + |Text(bs[k])| && nxt + 1 < env.Length
  {
    hide Entries, Image, Holds;
    EntryThere(env[..], bs, k);
    forall j | pos <= j < pos + |Text(bs[k])| ensures env[j] != '\0' {
      HasAt(env[..], pos, Text(bs[k]), j - pos);
      TextChars(bs[k], j - pos);
    }
    nxt := pos;
    while env[nxt] != '\0'
      invariant pos <= nxt <= pos + |Text(bs[k])|
      decreases env.Length - nxt
    {
      nxt := nxt + 1;
    }
  }

  /** getenv: the position of the value. */
  method GetEnv(env: array<char>, name: string, ghost bs: seq<Binding>) returns (val: int)
    requires Holds(env[..], bs) && WellFormed(bs) && '\0' !in name
    ensures val < 0 <==> Lookup(bs, name) == None
    ensures val >= 0 ==> var v := Lookup(bs, name).value;
                         Has(env[..], val, v) && CharAt(env[..], val + |v|) == '\0' && '\0' !in v
  {
    hide Entries, Image, Holds;
    var pos, nxt;
    val, pos, nxt := FindVar(env, name, bs);
    ghost var k := Index(bs, Key(name));
    if k < |bs| {
      EntryThere(env[..], bs, k);
      HasSplit(env[..], pos, bs[k].name + "=", bs[k].value);
    }
  }

  // ---- deleting

  /** What the array looks like when the characters [from..end) have moved to a lower place. */
  ghost predicate Shifted(was: string, now: string, to: nat, from: nat, end: nat) {
    && |now| == |was| && to <= from <= end < |was|
    && now[..to] == was[..to] && now[to..to + (end - from)] == was[from..end] && now[to + (end - from)] == '\0'
  }

  /** Character by character. */
  lemma ShiftedIs(was: string, now: string, to: nat, from: nat, end: nat)
    requires |now| == |was| && to <= from <= end < |was| && now[to + (end - from)] == '\0'
    requires forall j :: 0 <= j < to ==> now[j] == was[j]
    requires forall j :: to <= j < to + (end - from) ==> now[j] == was[j + (from - to)]
    ensures Shifted(was, now, to, from, end)
  {
    forall i | 0 <= i < end - from ensures now[to..to + (end - from)][i] == was[from..end][i] {
      assert now[to + i] == was[to + i + (from - to)];
    }
  }

  lemma PrefixJoin(s: string, a: string, b: string)
    requires |a| + |b| < |s| && s[..|a|] == a && s[|a|..|a| + |b|] == b
    ensures s[..|a| + |b|] == a + b
  {
  }

  /** Entries with the end mark behind them. */
  lemma ImageFrom(s: string, bs: seq<Binding>)
    requires |Entries(bs)| < |s| && s[..|Entries(bs)|] == Entries(bs) && s[|Entries(bs)|] == '\0'
    requires bs == [] ==> |s| >= 2 && s[1] == '\0'
    ensures Holds(s, bs)
  {
    if bs == [] {
      assert s[..2] == "\0\0";
    } else {
      assert s[..|Entries(bs)| + 1] == Entries(bs) + "\0";
    }
  }

  lemma ShiftedHolds(was: string, now: string, bs: seq<Binding>, k: nat)
    requires Holds(was, bs) && k < |bs|
    requires Shifted(was, now, Start(bs, k), Start(bs, k + 1), Start(bs, |bs|))
    requires |bs| == 1 ==> now[1] == '\0'
    ensures Holds(now, Remove(bs, k))
  {
    hide Text, Entries, Holds;
    EntryThere(was, bs, k);
    EndThere(was, bs);
    var r := Remove(bs, k);
    EntriesConcat(bs[..k], bs[k + 1..]);
    var before, after := Entries(bs[..k]), Entries(bs[k + 1..]);
    PrefixJoin(now, before, after);
    ImageFrom(now, r);
  }

  lemma RestWellFormed(bs: seq<Binding>, k: nat)
    requires WellFormed(bs) && k < |bs|
    ensures WellFormed(bs[k + 1..])
  {
    hide IsName;
  }

  /** A double NUL behind the k-th entry stands only at the end of the last one. */
  lemma DoubleNul(s: string, bs: seq<Binding>, k: nat, j: nat)
    requires Holds(s, bs) && WellFormed(bs) && k + 1 < |bs|
    requires Start(bs, k + 1) <= j < Start(bs, |bs|) < |s|
    ensures s[j] == '\0' && CharAt(s, j + 1) == '\0' <==> j == Start(bs, |bs|) - 1
  {
    hide Text, Entries, WellFormed;
    EntryThere(s, bs, k);
    EndThere(s, bs);
    var rest := bs[k + 1..];
    var from := Start(bs, k + 1);
    assert s[from..Start(bs, |bs|)] == Entries(rest);
    if j < Start(bs, |bs|) - 1 {
      RestWellFormed(bs, k);
      SingleNuls(rest, j - from);
      assert s[j] == Entries(rest)[j - from] && s[j + 1] == Entries(rest)[j + 1 - from];
    }
  }

  /** The compacting loop: it stops behind the first double NUL. */
  method ShiftDown(env: array<char>, pos: nat, from: nat, ghost end: nat)
    requires pos < from < end < env.Length
    requires forall j :: from <= j < end ==> (env[j] == '\0' && env[j + 1] == '\0' <==> j == end - 1)
    modifies env
    ensures Shifted(old(env[..]), env[..], pos, from, end)
    ensures forall j :: end <= j < env.Length ==> env[j] == old(env[j])
  {
    hide Shifted;
    ghost var was, gap := env[..], from - pos;
    var p, nxt := pos, from;
    while true
      invariant pos <= p && nxt == p + gap && nxt < end
      invariant forall j :: 0 <= j < env.Length && !(pos <= j < p) ==> env[j] == was[j]
      invariant forall j :: pos <= j < p ==> env[j] == was[j + gap]
      decreases end - nxt
    {
      assert was[nxt] == '\0' && was[nxt + 1] == '\0' <==> nxt == end - 1;
      env[p] := env[nxt];
      nxt := nxt + 1;
      if env[p] == '\0' && env[nxt] == '\0' {
        break;
      }
      p := p + 1;
    }
    p := p + 1;
    env[p] := '\0';
    ShiftedIs(was, env[..], pos, from, end);
  }

  lemma AfterEntry(bs: seq<Binding>, k: nat)
    requires k + 1 < |bs|
    ensures Start(bs, k + 1) < Start(bs, |bs|)
  {
    EntriesAround(bs, k + 1);
    StartEnd(bs);
  }

  /** Behind an entry stands the end mark or the next entry. */
  lemma FollowingChar(s: string, bs: seq<Binding>, k: nat)
    requires Holds(s, bs) && WellFormed(bs) && k < |bs|
    ensures Start(bs, k + 1) < |s| && (s[Start(bs, k + 1)] == '\0' <==> k + 1 == |bs|)
  {
    hide Entries, Holds;
    EntryThere(s, bs, k);
    if k + 1 == |bs| {
      EndThere(s, bs);
    } else {
      EntryThere(s, bs, k + 1);
      HasAt(s, Start(bs, k + 1), Text(bs[k + 1]), 0);
      TextChars(bs[k + 1], 0);
    }
  }

  /** Deletes the k-th entry; nxt is the NUL behind it. */
  method DeleteVar(env: array<char>, pos0: nat, nxt: nat, ghost bs: seq<Binding>, ghost k: nat)
    requires Holds(env[..], bs) && WellFormed(bs) && k < |bs|
    requires pos0 == Start(bs, k) && nxt == pos0 + |Text(bs[k])|
    modifies env
    ensures Holds(env[..], Remove(bs, k))
    ensures forall j :: Start(bs, |bs|) <= j < env.Length ==> env[j] == old(env[j])
  {
    hide Text, Entries, WellFormed, Holds;
    ghost var was := env[..];
    EntryThere(was, bs, k);
    EndThere(was, bs);
    FollowingChar(was, bs, k);
    StartZero(bs);
    if env[nxt + 1] == '\0' {
      var pos := pos0;
      if pos > 0 {
        pos := pos - 1;
      } else {
        env[pos] := '\0';
      }
      pos := pos + 1;
      env[pos] := '\0';
    } else {
      ghost var end := Start(bs, |bs|);
      AfterEntry(bs, k);
      forall j | nxt + 1 <= j < end
        ensures env[j] == '\0' && env[j + 1] == '\0' <==> j == end - 1
      {
        DoubleNul(was, bs, k, j);
      }
      ShiftDown(env, pos0, nxt + 1, end);
    }
    ShiftedHolds(was, env[..], bs, k);
  }

  // ---- appending

  /** The first double NUL of a non-empty environment. */
  lemma FirstDoubleNul(s: string, bs: seq<Binding>, j: nat)
    requires Holds(s, bs) && WellFormed(bs) && j < Start(bs, |bs|) < |s|
    ensures s[j] == '\0' && CharAt(s, j + 1) == '\0' <==> j == Start(bs, |bs|) - 1
  {
    hide Text, WellFormed;
    StartEnd(bs);
    EndThere(s, bs);
    if j < Start(bs, |bs|) - 1 {
      SingleNuls(bs, j);
      assert s[j] == Image(bs)[j] && s[j + 1] == Image(bs)[j + 1];
    }
  }

  /** The position where a new entry goes. */
  method FindEnd(env: array<char>, ghost bs: seq<Binding>) returns (pos: nat)
    requires Holds(env[..], bs) && WellFormed(bs)
    ensures pos == Start(bs, |bs|) < env.Length
  {
    hide Entries, Image, Holds, WellFormed;
    ghost var s, end := env[..], Start(bs, |bs|);
    EndThere(s, bs);
    StartZero(bs);
    pos := 0;
    if end > 0 {
      FirstDoubleNul(s, bs, 0);
    }
    while env[pos] != '\0' || env[pos + 1] != '\0'
      invariant pos < env.Length - 1 && (end > 0 ==> pos < end) && (end == 0 ==> pos == 0)
      invariant pos < end ==> (s[pos] == '\0' && s[pos + 1] == '\0' <==> pos == end - 1)
      decreases end - pos
    {
      pos := pos + 1;
      FirstDoubleNul(s, bs, pos);
    }
    if pos > 0 {
      pos := pos + 1;
    }
  }

  /** A text with its NUL stands at pos, everything else is as before. */
  ghost predicate Written(was: string, now: string, pos: nat, t: string) {
    pos + |t| < |was| && now == was[..pos] + t + "\0" + was[pos + |t| + 1..]
  }

  lemma WrittenMore(was: string, mid: string, now: string, pos: nat, t: string, c: char, u: string)
    requires Written(was, mid, pos, t) && pos + |t| + 1 + |u| < |was|
    requires Written(mid[pos + |t| := c], now, pos + |t| + 1, u)
    ensures Written(was, now, pos, t + [c] + u)
  {
    var p := pos + |t|;
    assert |mid| == |was|;
    assert mid[p := c][..p + 1] == was[..pos] + t + [c];
    assert mid[p := c][p + 1 + |u| + 1..] == mid[p + 1 + |u| + 1..] == was[p + 1 + |u| + 1..];
  }

  /** Copies a string with its NUL and returns the position of that NUL. */
  method CopyString(env: array<char>, pos: nat, t: string) returns (end: nat)
    requires pos + |t| < env.Length
    modifies env
    ensures end == pos + |t|
    ensures Written(old(env[..]), env[..], pos, t)
  {
    end := pos;
    while end < pos + |t|
      invariant pos <= end <= pos + |t|
      invariant forall j :: 0 <= j < env.Length && !(pos <= j < end) ==> env[j] == old(env[j])
      invariant forall j :: pos <= j < end ==> env[j] == t[j - pos]
    {
      env[end] := t[end - pos];
      end := end + 1;
    }
    env[end] := '\0';
  }

  lemma NoArgs(name: string, args: seq<string>)
    ensures NewText(name, args[..0]) == name && |name| <= |NewText(name, args)|
  {
  }

  /** One more NUL behind the written text. */
  lemma EndMark(was: string, now: string, pos: nat, t: string)
    requires Written(was, now, pos, t) && pos + |t| + 1 < |was|
    ensures |now| == |was| && Written(was, now[pos + |t| + 1 := '\0'], pos, t + "\0")
  {
    var r := now[pos + |t| + 1 := '\0'];
    assert r[..pos + |t|] == was[..pos] + t;
  }

  lemma ArgsSnoc(args: seq<string>, i: nat)
    requires i < |args|
    ensures ArgsText(args[..i + 1]) == ArgsText(args[..i]) + [if i == 0 then '=' else ' '] + args[i]
  {
    assert args[..i + 1][..i] == args[..i];
  }

  lemma {:induction false} ArgsLength(args: seq<string>, i: nat)
    requires i <= |args|
    ensures |ArgsText(args[..i])| <= |ArgsText(args)|
    decreases |args| - i
  {
    if i < |args| {
      ArgsSnoc(args, i);
      ArgsLength(args, i + 1);
    } else {
      assert args[..i] == args;
    }
  }

  lemma NewTextSnoc(name: string, args: seq<string>, i: nat)
    requires i < |args|
    ensures NewText(name, args[..i + 1]) == NewText(name, args[..i]) + [if i == 0 then '=' else ' '] + args[i]
    ensures |NewText(name, args[..i + 1])| <= |NewText(name, args)|
  {
    ArgsSnoc(args, i);
    ArgsLength(args, i + 1);
  }

  lemma ArgFits(name: string, args: seq<string>, i: nat)
    requires i < |args|
    ensures |NewText(name, args[..i])| + 1 + |args[i]| <= |NewText(name, args)|
  {
    hide NewText;
    NewTextSnoc(name, args, i);
  }

  /** One more argument behind the written ones, which end at p. */
  lemma ArgWritten(was: string, mid: string, now: string, pos: nat, name: string, args: seq<string>, i: nat, p: nat)
    requires i < |args| && p == pos + |NewText(name, args[..i])| && pos + |NewText(name, args)| < |was|
    requires Written(was, mid, pos, NewText(name, args[..i])) && p + 1 + |args[i]| < |mid|
    requires Written(mid[p := if i == 0 then '=' else ' '], now, p + 1, args[i])
    ensures p + 1 + |args[i]| == pos + |NewText(name, args[..i + 1])|
    ensures Written(was, now, pos, NewText(name, args[..i + 1]))
  {
    hide Written, ArgsText, NewText;
    NewTextSnoc(name, args, i);
    WrittenMore(was, mid, now, pos, NewText(name, args[..i]), if i == 0 then '=' else ' ', args[i]);
  }

  /** The append of _do_setenv: exactly |NewText| + 2 characters are written. */
  method AppendVar(env: array<char>, name: string, args: seq<string>, pos: nat)
    requires args != [] && pos + |NewText(name, args)| + 2 <= env.Length
    modifies env
    ensures Written(old(env[..]), env[..], pos, NewText(name, args) + "\0")
  {
    hide Written, ArgsText, NewText;
    ghost var was := env[..];
    NoArgs(name, args);
    var p := CopyString(env, pos, name);
    for i := 0 to |args|
      invariant p == pos + |NewText(name, args[..i])|
      invariant Written(was, env[..], pos, NewText(name, args[..i]))
    {
      ArgFits(name, args, i);
      ghost var mid, at := env[..], p;
      env[p] := if i == 0 then '=' else ' ';
      assert env[..] == mid[p := if i == 0 then '=' else ' '];
      p := CopyString(env, p + 1, args[i]);
      ArgWritten(was, mid, env[..], pos, name, args, i, at);
    }
    assert args[..|args|] == args;
    EndMark(was, env[..], pos, NewText(name, args));
    p := p + 1;
    env[p] := '\0';
  }

  /** The array with a new entry behind the others. */
  lemma AppendedHolds(was: string, now: string, bs: seq<Binding>, b: Binding)
    requires Holds(was, bs) && Written(was, now, Start(bs, |bs|), Text(b) + "\0")
    ensures Holds(now, bs + [b])
  {
    hide Text;
    StartEnd(bs);
    EntriesConcat(bs, [b]);
    EntriesOne(b);
    var n := |Entries(bs)|;
    assert was[..n] == Entries(bs);
    assert Image(bs + [b]) == was[..n] + (Text(b) + "\0") + "\0";
    assert now[..|Image(bs + [b])|] == Image(bs + [b]);
  }

  /** The length that _do_setenv compares with the room: the entry and both NULs. */
  method NeededLength(name: string, args: seq<string>) returns (len: nat)
    ensures len == |NewText(name, args)| + 2
  {
    len := |name| + 2;
    for i := 0 to |args|
      invariant len == |name| + 2 + |ArgsText(args[..i])|
    {
      ArgsSnoc(args, i);
      len := len + |args[i]| + 1;
    }
    assert args[..|args|] == args;
  }

  /** The refusal depends on the stored value alone. */
  lemma RefusedByValue(cfg: Config, a: Binding, b: Binding, name: string, args: seq<string>, accepted: bool)
    requires a.value == b.value
    ensures Refused(cfg, a, name, args, accepted) == Refused(cfg, b, name, args, accepted)
  {
  }

  /** _do_setenv: the array then holds what Environment.Apply says. */
  method DoSetenv(env: array<char>, cfg: Config, name: string, args: seq<string>, accepted: bool,
                  ghost bs: seq<Binding>)
    returns (ok: bool)
    requires Holds(env[..], bs) && WellFormed(bs) && IsText(Command(name, args, accepted))
    modifies env
    ensures var (rc, after) := Apply(cfg, env.Length, bs, Command(name, args, accepted));
            ok == rc && Holds(env[..], after) && WellFormed(after)
  {
    hide Entries, Holds, WellFormed, Written, Refused, Text, NewText;
    ghost var cmd, key, k := Command(name, args, accepted), Key(name), Index(bs, Key(name));
    SetKeepsWellFormed(cfg, env.Length, bs, cmd);
    var oldval, pos, nxt := FindVar(env, name, bs);
    if oldval >= 0 {
      var value := ValueAt(env, oldval, bs, k);
      var refused := Refused(cfg, Binding(name, value), name, args, accepted);
      RefusedByValue(cfg, Binding(name, value), bs[k], name, args, accepted);
      if refused {
        return false;
      }
      DeleteVar(env, pos, nxt, bs, k);
    }
    ghost var rest := Unbound(bs, key);
    UnboundWellFormed(bs, key);
    if args == [] {
      return true;
    }
    pos := FindEnd(env, rest);
    StartEnd(rest);
    var len := NeededLength(name, args);
    if len > env.Length - pos {
      return false;
    }
    ghost var was := env[..];
    AppendVar(env, name, args, pos);
    AppendedHolds(was, env[..], rest, NewBinding(name, args));
    return true;
  }

  /** The value as a C string. */
  method ValueAt(env: array<char>, at: nat, ghost bs: seq<Binding>, ghost k: nat) returns (v: string)
    requires Holds(env[..], bs) && WellFormed(bs) && k < |bs| && at == Start(bs, k) + |bs[k].name| + 1
    ensures v == bs[k].value
  {
    hide Entries, Holds;
    EntryThere(env[..], bs, k);
    HasSplit(env[..], Start(bs, k), bs[k].name + "=", bs[k].value);
    forall j | at <= j < at + |bs[k].value| ensures env[j] != '\0' {
      HasAt(env[..], at, bs[k].value, j - at);
    }
    var end := at;
    while env[end] != '\0'
      invariant at <= end <= at + |bs[k].value|
      decreases env.Length - end
    {
      end := end + 1;
    }
    v := env[at..end];
  }
}
