/** The environment of cmd_nvedit.c as an ordered list of bindings, and its flat encoding. */
module Environment {
  import opened CString
  import opened Options

  datatype Binding = Binding(name: string, value: string)

  function Text(b: Binding): (t: string)
    ensures |t| == |b.name| + 1 + |b.value|
  {
    b.name + "=" + b.value
  }

  predicate IsName(name: string) {
    '=' !in name && '\0' !in name
  }

  /** The bindings that the array can hold: every name once, no stray separators. */
  ghost predicate WellFormed(bs: seq<Binding>) {
    && (forall i :: 0 <= i < |bs| ==> IsName(bs[i].name) && '\0' !in bs[i].value)
    && (forall i, j :: 0 <= i < j < |bs| ==> bs[i].name != bs[j].name)
  }

  // ---- the flat encoding

  /** "name=value" texts, each ended by a NUL. */
  function Entries(bs: seq<Binding>): string {
    if bs == [] then "" else Text(bs[0]) + "\0" + Entries(bs[1..])
  }

  /** The encoding ends with a second NUL; an empty environment is two NULs. */
  function Image(bs: seq<Binding>): string {
    if bs == [] then "\0\0" else Entries(bs) + "\0"
  }

  ghost predicate Holds(s: string, bs: seq<Binding>) {
    Image(bs) <= s
  }

  /** Where the i-th entry starts. */
  ghost function Start(bs: seq<Binding>, i: nat): nat
    requires i <= |bs|
  {
    |Entries(bs[..i])|
  }

  lemma Associative(a: string, b: string, c: string)
    ensures a + (b + c) == a + b + c
  {
  }

  lemma EntriesCons(bs: seq<Binding>)
    requires bs != []
    ensures Entries(bs) == (Text(bs[0]) + "\0") + Entries(bs[1..])
  {
  }

  lemma {:induction false} EntriesConcat(a: seq<Binding>, b: seq<Binding>)
    ensures Entries(a + b) == Entries(a) + Entries(b)
  {
    hide Text;
    if a == [] {
      assert a + b == b && "" + Entries(b) == Entries(b);
    } else {
      hide Entries;
      EntriesConcat(a[1..], b);
      assert (a + b)[0] == a[0] && (a + b)[1..] == a[1..] + b;
      EntriesCons(a + b);
      EntriesCons(a);
      Associative(Text(a[0]) + "\0", Entries(a[1..]), Entries(b));
    }
  }

  lemma EntriesOne(b: Binding)
    ensures Entries([b]) == Text(b) + "\0"
  {
    assert [b][1..] == [];
  }

  /** The entries around the k-th one. */
  lemma EntriesAround(bs: seq<Binding>, k: nat)
    requires k < |bs|
    ensures Entries(bs) == Entries(bs[..k]) + (Text(bs[k]) + "\0") + Entries(bs[k + 1..])
    ensures Start(bs, k + 1) == Start(bs, k) + |Text(bs[k])| + 1
  {
    hide Text, Entries;
    assert bs == bs[..k + 1] + bs[k + 1..];
    assert bs[..k + 1] == bs[..k] + [bs[k]];
    EntriesConcat(bs[..k + 1], bs[k + 1..]);
    EntriesConcat(bs[..k], [bs[k]]);
    EntriesOne(bs[k]);
  }

  lemma StartEnd(bs: seq<Binding>)
    ensures Start(bs, |bs|) == |Entries(bs)|
  {
    assert bs[..|bs|] == bs;
  }

  lemma EntryThere(s: string, bs: seq<Binding>, k: nat)
    requires Holds(s, bs) && k < |bs|
    ensures var p := Start(bs, k);
            var q := p + |Text(bs[k])|;
            && Has(s, p, Text(bs[k])) && q + 1 == Start(bs, k + 1) <= Start(bs, |bs|) < |s| && s[q] == '\0'
            && s[..p] == Entries(bs[..k]) && s[q + 1..Start(bs, |bs|)] == Entries(bs[k + 1..])
  {
    hide Text, Entries;
    EntriesAround(bs, k);
    StartEnd(bs);
    var before, entry, after := Entries(bs[..k]), Text(bs[k]) + "\0", Entries(bs[k + 1..]);
    assert Has(s, 0, before + entry + after + "\0");
    HasSplit(s, 0, before + entry + after, "\0");
    HasSplit(s, 0, before + entry, after);
    HasSplit(s, 0, before, entry);
    HasSplit(s, |before|, Text(bs[k]), "\0");
    HasAt(s, |before| + |Text(bs[k])|, "\0", 0);
  }

  lemma EndThere(s: string, bs: seq<Binding>)
    requires Holds(s, bs)
    ensures Start(bs, |bs|) < |s| && s[Start(bs, |bs|)] == '\0'
    ensures bs == [] ==> |s| >= 2 && s[1] == '\0'
    ensures bs != [] ==> Start(bs, |bs|) >= 2 && s[Start(bs, |bs|) - 1] == '\0'
  {
    hide Text;
    StartEnd(bs);
    assert s[|Image(bs)| - 1] == Image(bs)[|Image(bs)| - 1];
    if bs == [] {
      assert s[0] == Image(bs)[0];
    } else {
      EntryThere(s, bs, |bs| - 1);
    }
  }

  lemma TextChars(b: Binding, j: nat)
    requires IsName(b.name) && '\0' !in b.value && j < |Text(b)|
    ensures Text(b)[j] != '\0'
  {
  }

  /** Inside the entries no NUL follows another one. */
  lemma {:induction false} SingleNuls(bs: seq<Binding>, j: nat)
    requires WellFormed(bs) && j + 1 < |Entries(bs)|
    ensures !(Entries(bs)[j] == '\0' && Entries(bs)[j + 1] == '\0')
  {
    var t := Text(bs[0]);
    var rest := Entries(bs[1..]);
    TextChars(bs[0], 0);
    if j < |t| {
      TextChars(bs[0], j);
    } else if j > |t| {
      SingleNuls(bs[1..], j - |t| - 1);
    } else {
      TextChars(bs[1], 0);
      assert bs[1..][0] == bs[1];
    }
  }

  // ---- the commands on the list

  /** envmatch takes a name up to its first '='. */
  function Key(name: string): string {
    name[..Find(name, 0, '=')]
  }

  function Index(bs: seq<Binding>, key: string): (k: nat)
    ensures k <= |bs|
    ensures forall i :: 0 <= i < k ==> bs[i].name != key
    ensures k < |bs| ==> bs[k].name == key
  {
    if bs == [] || bs[0].name == key then 0 else 1 + Index(bs[1..], key)
  }

  /** What getenv finds. */
  function Lookup(bs: seq<Binding>, name: string): Option<string> {
    Value(bs, Key(name))
  }

  /** What follows the name: "=arg2 arg3 ...". */
  function ArgsText(args: seq<string>): string {
    if args == [] then ""
    else ArgsText(args[..|args| - 1]) + [if |args| == 1 then '=' else ' '] + args[|args| - 1]
  }

  /** The entry that "setenv name args" writes. */
  function NewText(name: string, args: seq<string>): string {
    name + ArgsText(args)
  }

  lemma {:induction false} ArgsStart(args: seq<string>)
    requires args != []
    ensures ArgsText(args) != [] && ArgsText(args)[0] == '='
  {
    if |args| > 1 {
      ArgsStart(args[..|args| - 1]);
    }
  }

  lemma NewTextStart(name: string, args: seq<string>)
    requires args != []
    ensures var t := NewText(name, args);
            Find(t, 0, '=') < |t| && t[..Find(t, 0, '=')] == Key(name)
  {
    var t := NewText(name, args);
    ArgsStart(args);
    var e := Find(name, 0, '=');
    assert t[..e] == name[..e];
    assert t[0..e] == name[0..e];
    FindIs(t, 0, e, '=');
  }

  function NewBinding(name: string, args: seq<string>): (b: Binding)
    requires args != []
    ensures Text(b) == NewText(name, args)
    ensures b.name == Key(name)
  {
    var t := NewText(name, args);
    var e := Find(t, 0, '=');
    NewTextStart(name, args);
    assert t == t[..e] + "=" + t[e + 1..];
    Binding(t[..e], t[e + 1..])
  }

  datatype Config = Config(allowOverwrite: bool, ethaddrOnce: Option<string>)

  /** serial# and ethaddr can be set only once; ethaddr also while it has the configured default. */
  predicate WriteOnce(cfg: Config, name: string, value: string) {
    !cfg.allowOverwrite && (name == "serial#" || (name == "ethaddr" && cfg.ethaddrOnce != Some(value)))
  }

  predicate IsConsole(name: string) {
    name == "stdin" || name == "stdout" || name == "stderr"
  }

  /** The reasons for leaving an existing binding alone. `accepted` is the verdict of
      the console or of the baud rate table about the new value. */
  predicate Refused(cfg: Config, b: Binding, name: string, args: seq<string>, accepted: bool) {
    || WriteOnce(cfg, name, b.value)
    || (IsConsole(name) && (args == [] || !accepted))
    || (name == "baudrate" && !accepted)
  }

  function Remove(bs: seq<Binding>, k: nat): seq<Binding>
    requires k < |bs|
  {
    bs[..k] + bs[k + 1..]
  }

  /** The list without a binding for the key. */
  function Unbound(bs: seq<Binding>, key: string): seq<Binding> {
    var k := Index(bs, key);
    if k < |bs| then Remove(bs, k) else bs
  }

  datatype Command = Command(name: string, args: seq<string>, accepted: bool)

  /** Room for the new entry and both NULs behind the entries that stay. */
  predicate Fits(size: nat, bs: seq<Binding>, cmd: Command) {
    |Entries(bs)| + |NewText(cmd.name, cmd.args)| + 2 <= size
  }

  /** _do_setenv: the return code and the bindings afterwards. */
  function Apply(cfg: Config, size: nat, bs: seq<Binding>, cmd: Command): (bool, seq<Binding>) {
    var key := Key(cmd.name);
    var k := Index(bs, key);
    var rest := Unbound(bs, key);
    if k < |bs| && Refused(cfg, bs[k], cmd.name, cmd.args, cmd.accepted) then (false, bs)
    else if cmd.args == [] then (true, rest)
    else if !Fits(size, rest, cmd) then (false, rest)
    else (true, rest + [NewBinding(cmd.name, cmd.args)])
  }

  predicate IsText(cmd: Command) {
    '\0' !in cmd.name && forall i :: 0 <= i < |cmd.args| ==> '\0' !in cmd.args[i]
  }

  lemma {:induction false} ArgsAreText(args: seq<string>)
    requires forall i :: 0 <= i < |args| ==> '\0' !in args[i]
    ensures '\0' !in ArgsText(args)
  {
    if args != [] {
      ArgsAreText(args[..|args| - 1]);
    }
  }

  lemma NewBindingIsText(cmd: Command)
    requires IsText(cmd) && cmd.args != []
    ensures var b := NewBinding(cmd.name, cmd.args); IsName(b.name) && '\0' !in b.value
  {
    ArgsAreText(cmd.args);
    var b := NewBinding(cmd.name, cmd.args);
    assert forall c :: c in b.value ==> c in Text(b);
  }

  // ---- the ordered map

  /** All bindings for other names, in order. */
  function Others(bs: seq<Binding>, key: string): seq<Binding> {
    if bs == [] then []
    else (if bs[0].name == key then [] else [bs[0]]) + Others(bs[1..], key)
  }

  lemma UnboundLater(bs: seq<Binding>, key: string)
    requires bs != [] && bs[0].name != key
    ensures Unbound(bs, key) == [bs[0]] + Unbound(bs[1..], key)
  {
    var k := Index(bs[1..], key);
    if k < |bs| - 1 {
      assert bs[..k + 1] == [bs[0]] + bs[1..][..k];
    }
  }

  lemma {:induction false} AllOthers(bs: seq<Binding>, key: string)
    requires forall i :: 0 <= i < |bs| ==> bs[i].name != key
    ensures Others(bs, key) == bs && Index(bs, key) == |bs|
  {
    if bs != [] {
      AllOthers(bs[1..], key);
    }
  }

  lemma {:induction false} OthersUnbound(bs: seq<Binding>, key: string)
    requires WellFormed(bs)
    ensures Unbound(bs, key) == Others(bs, key)
  {
    hide IsName;
    if bs != [] {
      if bs[0].name == key {
        AllOthers(bs[1..], key);
      } else {
        OthersUnbound(bs[1..], key);
        UnboundLater(bs, key);
      }
    }
  }

  lemma {:induction false} IndexOthers(bs: seq<Binding>, key: string)
    ensures Index(Others(bs, key), key) == |Others(bs, key)|
    ensures forall i :: 0 <= i < |Others(bs, key)| ==> Others(bs, key)[i] in bs && Others(bs, key)[i].name != key
  {
    if bs != [] {
      IndexOthers(bs[1..], key);
    }
  }

  /** A lookup in the list behind one more binding. */
  lemma {:induction false} IndexSnoc(bs: seq<Binding>, b: Binding, key: string)
    ensures Index(bs + [b], key) == if Index(bs, key) < |bs| then Index(bs, key)
                                    else if b.name == key then |bs| else |bs| + 1
  {
    if bs != [] {
      assert (bs + [b])[1..] == bs[1..] + [b];
      IndexSnoc(bs[1..], b, key);
    } else {
      assert ([b])[1..] == [];
    }
  }

  function Value(bs: seq<Binding>, key: string): Option<string> {
    var k := Index(bs, key);
    if k < |bs| then Some(bs[k].value) else None
  }

  lemma ValueStep(bs: seq<Binding>, key: string)
    ensures Value(bs, key) == if bs == [] then None
                              else if bs[0].name == key then Some(bs[0].value) else Value(bs[1..], key)
  {
  }

  lemma {:induction false} LookupOthers(bs: seq<Binding>, key: string, other: string)
    requires other != key
    ensures Value(Others(bs, key), other) == Value(bs, other)
  {
    hide Value;
    if bs != [] {
      LookupOthers(bs[1..], key, other);
      ValueStep(bs, other);
      if bs[0].name != key {
        ValueStep([bs[0]] + Others(bs[1..], key), other);
        assert ([bs[0]] + Others(bs[1..], key))[1..] == Others(bs[1..], key);
      } else {
        assert Others(bs, key) == Others(bs[1..], key);
      }
    }
  }

  lemma ValueSnoc(bs: seq<Binding>, b: Binding, key: string)
    ensures Value(bs + [b], key) == if Value(bs, key).Some? then Value(bs, key)
                                    else if b.name == key then Some(b.value) else None
  {
    IndexSnoc(bs, b, key);
  }

  lemma NoValueInOthers(bs: seq<Binding>, key: string)
    ensures Value(Others(bs, key), key) == None
  {
    IndexOthers(bs, key);
  }

  lemma {:induction false} OthersSnoc(bs: seq<Binding>, b: Binding, key: string)
    requires b.name == key
    ensures Others(bs + [b], key) == Others(bs, key)
  {
    if bs != [] {
      assert (bs + [b])[1..] == bs[1..] + [b];
      OthersSnoc(bs[1..], b, key);
    } else {
      assert [b][1..] == [];
    }
  }

  /** _do_setenv refines an ordered map: the old binding goes, all others stay
      in their order, the new one comes last. */
  lemma {:induction false} SetKeepsOrder(cfg: Config, size: nat, bs: seq<Binding>, cmd: Command)
    requires WellFormed(bs)
    ensures var (ok, after) := Apply(cfg, size, bs, cmd);
            && Others(after, Key(cmd.name)) == Others(bs, Key(cmd.name))
            && (ok && cmd.args == [] ==> after == Others(bs, Key(cmd.name)))
            && (ok && cmd.args != [] ==> after == Others(bs, Key(cmd.name)) + [NewBinding(cmd.name, cmd.args)])
            && (!ok ==> after == bs || after == Others(bs, Key(cmd.name)))
  {
    hide Refused, Fits, Key;
    var key := Key(cmd.name);
    OthersUnbound(bs, key);
    IndexOthers(bs, key);
    AllOthers(Others(bs, key), key);
    if cmd.args != [] {
      OthersSnoc(Others(bs, key), NewBinding(cmd.name, cmd.args), key);
    }
  }

  /** getenv after setenv: the new value for the name, the old one for every other name. */
  lemma {:induction false} GetAfterSet(cfg: Config, size: nat, bs: seq<Binding>, cmd: Command, name: string)
    requires WellFormed(bs)
    ensures var (ok, after) := Apply(cfg, size, bs, cmd);
            Lookup(after, name)
            == if Key(name) != Key(cmd.name) || after == bs then Lookup(bs, name)
               else if ok && cmd.args != [] then Some(NewBinding(cmd.name, cmd.args).value)
               else None
  {
    hide Refused, Fits, Key, Unbound, Others, Value, Index;
    var key := Key(cmd.name);
    OthersUnbound(bs, key);
    NoValueInOthers(bs, key);
    if Key(name) != key {
      LookupOthers(bs, key, Key(name));
    }
    if cmd.args != [] {
      ValueSnoc(Others(bs, key), NewBinding(cmd.name, cmd.args), Key(name));
    }
  }

  lemma UnboundWellFormed(bs: seq<Binding>, key: string)
    requires WellFormed(bs)
    ensures WellFormed(Unbound(bs, key))
    ensures forall i :: 0 <= i < |Unbound(bs, key)| ==> Unbound(bs, key)[i].name != key
  {
    hide IsName;
    var k := Index(bs, key);
    var r := Unbound(bs, key);
    assert k < |bs| ==> forall i :: 0 <= i < |r| ==> r[i] == bs[if i < k then i else i + 1];
  }

  lemma {:induction false} SetKeepsWellFormed(cfg: Config, size: nat, bs: seq<Binding>, cmd: Command)
    requires WellFormed(bs) && IsText(cmd)
    ensures WellFormed(Apply(cfg, size, bs, cmd).1)
  {
    hide Refused, Fits, Key, IsName;
    var key := Key(cmd.name);
    UnboundWellFormed(bs, key);
    if cmd.args != [] {
      NewBindingIsText(cmd);
    }
  }

  // ---- write-once variables

  /** Names that the configuration protects, with the value they have. */
  predicate Protected(cfg: Config, name: string, value: string) {
    IsName(name) && WriteOnce(cfg, name, value)
  }

  lemma KeyOfName(name: string)
    requires '=' !in name
    ensures Key(name) == name
  {
    var e := Find(name, 0, '=');
  }

  /** No check of the command looks through an '=' in the name. */
  lemma SpelledWithEquals(cfg: Config, b: Binding, cmd: Command)
    requires Key(cmd.name) != cmd.name
    ensures !Refused(cfg, b, cmd.name, cmd.args, cmd.accepted)
  {
    if '=' !in cmd.name {
      KeyOfName(cmd.name);
    }
  }

  /** One command keeps a protected value, except when it spells the name with an
      '=': then it gets past the check, and keeps the value only by writing it again. */
  lemma WriteOnceStep(cfg: Config, size: nat, bs: seq<Binding>, cmd: Command, name: string, value: string)
    requires WellFormed(bs) && Protected(cfg, name, value) && Lookup(bs, name) == Some(value)
    ensures Lookup(Apply(cfg, size, bs, cmd).1, name) == Some(value)
            <==> || Key(cmd.name) != name || cmd.name == name
                 || (cmd.args != [] && Fits(size, Unbound(bs, name), cmd)
                     && NewBinding(cmd.name, cmd.args).value == value)
  {
    hide Fits, Index, Others, Unbound;
    KeyOfName(name);
    if Key(cmd.name) == name && cmd.name != name {
      SpelledWithEquals(cfg, bs[Index(bs, name)], cmd);
      OthersUnbound(bs, name);
      NoValueInOthers(bs, name);
      if cmd.args != [] {
        ValueSnoc(Others(bs, name), NewBinding(cmd.name, cmd.args), name);
      }
    } else {
      GetAfterSet(cfg, size, bs, cmd, name);
    }
  }

  function Run(cfg: Config, size: nat, bs: seq<Binding>, cmds: seq<Command>): seq<Binding> {
    if cmds == [] then bs
    else Apply(cfg, size, Run(cfg, size, bs, cmds[..|cmds| - 1]), cmds[|cmds| - 1]).1
  }

  /** Once bound, a protected variable keeps its value through every run of commands with '='-free names. */
  lemma {:induction false} WriteOnceRun(cfg: Config, size: nat, bs: seq<Binding>, cmds: seq<Command>,
                                       name: string, value: string)
    requires WellFormed(bs) && Protected(cfg, name, value) && Lookup(bs, name) == Some(value)
    requires forall i :: 0 <= i < |cmds| ==> IsText(cmds[i]) && '=' !in cmds[i].name
    ensures WellFormed(Run(cfg, size, bs, cmds))
    ensures Lookup(Run(cfg, size, bs, cmds), name) == Some(value)
  {
    hide Apply, Lookup, WellFormed, Protected, Fits, IsText;
    if cmds != [] {
      var last := cmds[|cmds| - 1];
      WriteOnceRun(cfg, size, bs, cmds[..|cmds| - 1], name, value);
      var before := Run(cfg, size, bs, cmds[..|cmds| - 1]);
      KeyOfName(last.name);
      SetKeepsWellFormed(cfg, size, before, last);
      WriteOnceStep(cfg, size, before, last, name, value);
    }
  }

  /** The run invariant: every reachable list is well formed. */
  lemma {:induction false} RunKeepsWellFormed(cfg: Config, size: nat, bs: seq<Binding>, cmds: seq<Command>)
    requires WellFormed(bs) && forall i :: 0 <= i < |cmds| ==> IsText(cmds[i])
    ensures WellFormed(Run(cfg, size, bs, cmds))
  {
    hide Apply, WellFormed, IsText;
    if cmds != [] {
      RunKeepsWellFormed(cfg, size, bs, cmds[..|cmds| - 1]);
      SetKeepsWellFormed(cfg, size, Run(cfg, size, bs, cmds[..|cmds| - 1]), cmds[|cmds| - 1]);
    }
  }

  lemma EqualsText()
    ensures NewBinding("ethaddr=", ["B"]) == Binding("ethaddr", "=B")
  {
    assert ["B"][..0] == [];
    assert ArgsText(["B"]) == "=B";
    assert NewText("ethaddr=", ["B"]) == "ethaddr==B";
    FindIs("ethaddr==B", 0, 7, '=');
    assert "ethaddr==B"[..7] == "ethaddr" && "ethaddr==B"[8..] == "=B";
  }

  lemma EqualsFits()
    ensures Fits(0x1000, [], Command("ethaddr=", ["B"], true))
  {
    assert ["B"][..0] == [];
    assert ArgsText(["B"]) == "=B";
  }

  lemma AddressIsKept()
    ensures var cfg, bs := Config(false, None), [Binding("ethaddr", "A")];
            && WellFormed(bs) && Protected(cfg, "ethaddr", "A")
            && Lookup(Apply(cfg, 0x1000, bs, Command("ethaddr", ["B"], true)).1, "ethaddr") == Some("A")
  {
    hide Fits;
    KeyOfName("ethaddr");
    assert Index([Binding("ethaddr", "A")], "ethaddr") == 0;
  }

  lemma TypedKey()
    ensures Key("ethaddr=") == "ethaddr"
  {
    FindIs("ethaddr=", 0, 7, '=');
    assert "ethaddr="[..7] == "ethaddr";
  }

  lemma OneUnbound()
    ensures Unbound([Binding("ethaddr", "A")], "ethaddr") == []
  {
    assert Index([Binding("ethaddr", "A")], "ethaddr") == 0;
    assert Remove([Binding("ethaddr", "A")], 0) == [];
  }

  lemma OneFound(value: string)
    ensures Lookup([Binding("ethaddr", value)], "ethaddr") == Some(value)
  {
    KeyOfName("ethaddr");
  }

  /** A protected address is replaced when its name is typed with an '='. */
  lemma EqualsOverwrites()
    ensures var cfg, bs := Config(false, None), [Binding("ethaddr", "A")];
            && WellFormed(bs) && Protected(cfg, "ethaddr", "A")
            && Lookup(Apply(cfg, 0x1000, bs, Command("ethaddr", ["B"], true)).1, "ethaddr") == Some("A")
            && Lookup(Apply(cfg, 0x1000, bs, Command("ethaddr=", ["B"], true)).1, "ethaddr") == Some("=B")
  {
    hide Fits, Refused, Unbound, Index, NewBinding, WellFormed, Protected, Key, Lookup;
    AddressIsKept();
    TypedKey();
    OneUnbound();
    OneFound("=B");
    SpelledWithEquals(Config(false, None), Binding("ethaddr", "A"), Command("ethaddr=", ["B"], true));
    EqualsText();
    EqualsFits();
    assert [] + [Binding("ethaddr", "=B")] == [Binding("ethaddr", "=B")];
  }
}
