/** What setenv does, name by name, and when it refuses. */
module Setenv {
  import opened Environment
  import opened Options

  /** The words of a value with a blank between each two of them. */
  function Joined(args: seq<string>): string
    requires args != []
  {
    if |args| == 1 then args[0] else args[0] + " " + Joined(args[1..])
  }

  lemma {:induction false} JoinedSnoc(args: seq<string>)
    requires |args| > 1
    ensures Joined(args) == Joined(args[..|args| - 1]) + " " + args[|args| - 1]
  {
    var n := |args| - 1;
    if n > 1 {
      JoinedSnoc(args[1..]);
      assert args[1..][..n - 1] == args[..n][1..];
      var a, mid, z := args[0], Joined(args[..n][1..]), args[n];
      assert a + " " + (mid + " " + z) == a + " " + mid + " " + z;
    }
  }

  lemma ArgsOneMore(args: seq<string>)
    requires |args| > 1
    ensures ArgsText(args) == ArgsText(args[..|args| - 1]) + " " + args[|args| - 1]
  {
  }

  lemma {:induction false} ArgsAreJoined(args: seq<string>)
    requires args != []
    ensures ArgsText(args) == "=" + Joined(args)
  {
    var n := |args| - 1;
    if n > 0 {
      hide ArgsText;
      ArgsAreJoined(args[..n]);
      JoinedSnoc(args);
      ArgsOneMore(args);
      assert "=" + Joined(args[..n]) + " " + args[n] == "=" + (Joined(args[..n]) + " " + args[n]);
    } else {
      assert args[..0] == [];
      assert "" + "=" + args[0] == "=" + args[0];
    }
  }

  /** For a name without '=', the entry is that name with the words behind it. */
  lemma NewIsJoined(name: string, args: seq<string>)
    requires args != [] && '=' !in name
    ensures NewBinding(name, args) == Binding(name, Joined(args))
  {
    hide ArgsText;
    ArgsAreJoined(args);
    KeyOfName(name);
    var b := NewBinding(name, args);
    assert Text(b) == name + ("=" + Joined(args));
    assert b.value == Text(b)[|name| + 1..] == Joined(args);
  }

  /** A change of an ordered map whose encoding has a limited size: the old binding goes, the new one comes last. */
  function Change(size: nat, bs: seq<Binding>, name: string, args: seq<string>): (bool, seq<Binding>) {
    var rest := Others(bs, name);
    if args == [] then (true, rest)
    else
      var after := rest + [Binding(name, Joined(args))];
      if |Image(after)| <= size then (true, after) else (false, rest)
  }

  /** There is room exactly if the encoding of the new list fits. */
  lemma FitsIsImage(size: nat, bs: seq<Binding>, cmd: Command)
    requires cmd.args != []
    ensures Fits(size, bs, cmd) <==> |Image(bs + [NewBinding(cmd.name, cmd.args)])| <= size
  {
    hide Text, NewText, Entries;
    var b := NewBinding(cmd.name, cmd.args);
    EntriesConcat(bs, [b]);
    EntriesOne(b);
  }

  /** A command that no check stops. */
  lemma Unstopped(cfg: Config, size: nat, bs: seq<Binding>, cmd: Command)
    requires WellFormed(bs) && '=' !in cmd.name
    requires forall b :: b in bs && b.name == cmd.name ==> !Refused(cfg, b, cmd.name, cmd.args, cmd.accepted)
    ensures Apply(cfg, size, bs, cmd) == Change(size, bs, cmd.name, cmd.args)
  {
    hide Refused, Fits, Image, Joined, Unbound, NewBinding;
    KeyOfName(cmd.name);
    OthersUnbound(bs, cmd.name);
    if cmd.args != [] {
      FitsIsImage(size, Others(bs, cmd.name), cmd);
      NewIsJoined(cmd.name, cmd.args);
    }
  }

  /** The value that a bound name has. */
  lemma BoundValue(bs: seq<Binding>, name: string, b: Binding)
    requires WellFormed(bs) && '=' !in name && b in bs && b.name == name
    ensures Lookup(bs, name) == Some(b.value)
  {
    KeyOfName(name);
    var k := Index(bs, name);
    var i :| 0 <= i < |bs| && bs[i] == b;
    assert k == i;
  }

  /** A command for a bound name goes as the checks of that binding say. */
  lemma CheckedCommand(cfg: Config, size: nat, bs: seq<Binding>, cmd: Command)
    requires WellFormed(bs) && '=' !in cmd.name && Lookup(bs, cmd.name).Some?
    ensures Apply(cfg, size, bs, cmd)
            == if Refused(cfg, Binding(cmd.name, Lookup(bs, cmd.name).value), cmd.name, cmd.args, cmd.accepted)
               then (false, bs) else Change(size, bs, cmd.name, cmd.args)
  {
    hide Refused, Change, Fits, Unbound, WellFormed;
    KeyOfName(cmd.name);
    var k := Index(bs, cmd.name);
    assert bs[k] == Binding(cmd.name, Lookup(bs, cmd.name).value);
    if !Refused(cfg, bs[k], cmd.name, cmd.args, cmd.accepted) {
      forall b | b in bs && b.name == cmd.name ensures !Refused(cfg, b, cmd.name, cmd.args, cmd.accepted) {
        BoundValue(bs, cmd.name, b);
      }
      Unstopped(cfg, size, bs, cmd);
    }
  }

  const CHECKED := {"serial#", "ethaddr", "stdin", "stdout", "stderr", "baudrate"}

  /** Any other name, and a name that is not bound yet, can always be changed, as far as there is room. */
  lemma OrdinaryCommand(cfg: Config, size: nat, bs: seq<Binding>, cmd: Command)
    requires WellFormed(bs) && '=' !in cmd.name && (cmd.name !in CHECKED || Lookup(bs, cmd.name) == None)
    ensures Apply(cfg, size, bs, cmd) == Change(size, bs, cmd.name, cmd.args)
  {
    hide Apply, Change, Lookup, WellFormed;
    forall b | b in bs && b.name == cmd.name ensures !Refused(cfg, b, cmd.name, cmd.args, cmd.accepted) {
      BoundValue(bs, cmd.name, b);
    }
    Unstopped(cfg, size, bs, cmd);
  }

  /** Without the configuration that allows it, a serial number is never changed or deleted. */
  lemma SerialNumber(cfg: Config, size: nat, bs: seq<Binding>, cmd: Command)
    requires WellFormed(bs) && cmd.name == "serial#" && Lookup(bs, cmd.name).Some?
    ensures Apply(cfg, size, bs, cmd)
            == if cfg.allowOverwrite then Change(size, bs, cmd.name, cmd.args) else (false, bs)
  {
    CheckedCommand(cfg, size, bs, cmd);
  }

  /** An Ethernet address can also be changed while it is the configured default. */
  lemma EthernetAddress(cfg: Config, size: nat, bs: seq<Binding>, cmd: Command)
    requires WellFormed(bs) && cmd.name == "ethaddr" && Lookup(bs, cmd.name).Some?
    ensures Apply(cfg, size, bs, cmd)
            == if cfg.allowOverwrite || (cfg.ethaddrOnce.Some? && cfg.ethaddrOnce == Lookup(bs, cmd.name))
               then Change(size, bs, cmd.name, cmd.args) else (false, bs)
  {
    CheckedCommand(cfg, size, bs, cmd);
  }

  /** A console cannot be deleted, and is changed to what the console code accepts. */
  lemma ConsoleName(cfg: Config, size: nat, bs: seq<Binding>, cmd: Command)
    requires WellFormed(bs) && cmd.name in {"stdin", "stdout", "stderr"} && Lookup(bs, cmd.name).Some?
    ensures Apply(cfg, size, bs, cmd)
            == if cmd.args != [] && cmd.accepted then Change(size, bs, cmd.name, cmd.args) else (false, bs)
  {
    CheckedCommand(cfg, size, bs, cmd);
  }

  /** The baud rate is changed to what the table of rates has. */
  lemma BaudRate(cfg: Config, size: nat, bs: seq<Binding>, cmd: Command)
    requires WellFormed(bs) && cmd.name == "baudrate" && Lookup(bs, cmd.name).Some?
    ensures Apply(cfg, size, bs, cmd)
            == if cmd.accepted then Change(size, bs, cmd.name, cmd.args) else (false, bs)
  {
    CheckedCommand(cfg, size, bs, cmd);
  }

  /** A deletion succeeds, and a new value does if the encoding with it fits. For getenv, a change leaves the new
      value, or nothing after a deletion or for lack of room, and the old values of all other names. */
  lemma {:induction false} ChangeIsSeen(size: nat, bs: seq<Binding>, name: string, args: seq<string>, other: string)
    requires WellFormed(bs) && '=' !in name && '=' !in other
    ensures var (ok, after) := Change(size, bs, name, args);
            && (ok <==> args == [] || |Image(Others(bs, name) + [Binding(name, Joined(args))])| <= size)
            && Lookup(after, other)
               == if other != name then Lookup(bs, other) else if ok && args != [] then Some(Joined(args)) else None
  {
    hide Image, Joined, Others, Value;
    KeyOfName(name);
    KeyOfName(other);
    NoValueInOthers(bs, name);
    if other != name {
      LookupOthers(bs, name, other);
    }
    if args != [] {
      ValueSnoc(Others(bs, name), Binding(name, Joined(args)), other);
    }
  }
}
