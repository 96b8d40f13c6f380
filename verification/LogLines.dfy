/** Messages written line by line, with level tags or without them, and the stream that is logged for them. */
module LogLines {
  import opened CString
  import opened LogRing
  import opened Options

  /** A line and the level that it is tagged with, if it is. */
  datatype LogLine = LogLine(level: Option<nat>, text: string) {
    function Level(): nat {
      if level.Some? then level.value else 4
    }

    /** What the caller writes, and what is logged for it. */
    function Written(): string {
      (if level.Some? then TagOf(level.value) else "") + text
    }

    function Logged(): string {
      TagOf(Level()) + text
    }

    /** A line without a tag does not start like one. */
    predicate Legal() {
      && '\n' !in text && Level() < 8
      && (level.None? ==> forall d: nat :: d < 8 ==> !(TagOf(d) <= text))
    }
  }

  function TagOf(level: nat): string {
    if level < 8 then "<" + ["01234567"[level]] + ">" else ""
  }

  /** Whole lines. */
  function AllWritten(lines: seq<LogLine>): string {
    if lines == [] then "" else lines[0].Written() + "\n" + AllWritten(lines[1..])
  }

  function AllLogged(lines: seq<LogLine>): string {
    if lines == [] then "" else lines[0].Logged() + "\n" + AllLogged(lines[1..])
  }

  ghost predicate AllLegal(lines: seq<LogLine>) {
    forall i :: 0 <= i < |lines| ==> lines[i].Legal()
  }

  // ---- one line

  lemma TagIs(s: string, p: nat, d: nat)
    requires d < 8
    ensures Has(s, p, TagOf(d)) <==> CharAt(s, p) == '<' && CharAt(s, p + 1) == "01234567"[d] && CharAt(s, p + 2) == '>'
  {
    var t := TagOf(d);
    if p + 3 <= |s| {
      assert s[p..p + 3] == [s[p], s[p + 1], s[p + 2]];
    }
  }

  /** A tag stands at a position exactly if one of the eight texts does; its digit is the level. */
  lemma TagIsOneOf(s: string, p: nat)
    ensures TagAt(s, p) <==> exists d: nat :: d < 8 && Has(s, p, TagOf(d))
    ensures forall d: nat :: d < 8 && Has(s, p, TagOf(d)) ==> LevelAt(s, p) == d
  {
    hide Has, TagOf;
    forall d: nat | d < 8 && Has(s, p, TagOf(d)) ensures TagAt(s, p) && LevelAt(s, p) == d {
      TagIs(s, p, d);
    }
    if TagAt(s, p) {
      var d: nat := CharAt(s, p + 1) as int - '0' as int;
      assert "01234567"[d] == CharAt(s, p + 1);
      TagIs(s, p, d);
      assert Has(s, p, TagOf(d));
    }
  }

  lemma TagStarts(t: string, d: nat)
    requires d < 8
    ensures TagOf(d) <= t <==> |t| >= 3 && t[0] == '<' && t[1] == "01234567"[d] && t[2] == '>'
  {
    if |t| >= 3 {
      assert t[..3] == [t[0], t[1], t[2]];
    }
  }

  /** A tag does not reach over the end of a line. */
  lemma FrontHas(s: string, p: nat, t: string, d: nat)
    requires d < 8 && Has(s, p, t) && '\n' !in t && (p + |t| == |s| || s[p + |t|] == '\n')
    ensures Has(s, p, TagOf(d)) <==> TagOf(d) <= t
  {
    hide Has, TagOf;
    TagIs(s, p, d);
    TagStarts(t, d);
    assert forall i: nat :: i < |t| ==> CharAt(s, p + i) == t[i] by {
      forall i: nat | i < |t| ensures CharAt(s, p + i) == t[i] {
        HasAt(s, p, t, i);
      }
    }
    assert CharAt(s, p + |t|) in {'\0', '\n'};
    if |t| >= 3 {
      assert CharAt(s, p + 0) == t[0] && CharAt(s, p + 1) == t[1] && CharAt(s, p + 2) == t[2];
    }
  }

  lemma WrittenParts(line: LogLine)
    requires line.Legal()
    ensures var t := line.Written();
            && '\n' !in t && line.Logged() == (if line.level.Some? then "" else "<4>") + t
            && (line.level.Some? ==> line.Level() == line.level.value < 8 && TagOf(line.level.value) <= t)
            && (line.level.None? ==> line.Level() == 4 && forall d: nat :: d < 8 ==> !(TagOf(d) <= t))
  {
    assert "" + line.text == line.text;
  }

  lemma NoTagLevel(s: string, p: nat)
    requires !TagAt(s, p)
    ensures LevelAt(s, p) == 4
  {
  }

  /** A legal line, followed by a newline or the end. */
  lemma LineIsTagged(s: string, p: nat, line: LogLine)
    requires line.Legal() && Has(s, p, line.Written())
    requires p + |line.Written()| == |s| || s[p + |line.Written()|] == '\n'
    ensures DefaultTag(s, p, true) + line.Written() == line.Logged() && LevelAt(s, p) == line.Level()
    ensures '\n' !in s[p..p + |line.Written()|]
  {
    hide TagAt, LevelAt, TagOf, LogLine.Written, LogLine.Logged, LogLine.Legal;
    var t := line.Written();
    WrittenParts(line);
    assert s[p..p + |t|] == t;
    hide Has;
    TagIsOneOf(s, p);
    if line.level.Some? {
      FrontHas(s, p, t, line.level.value);
    } else {
      forall d: nat | d < 8 ensures !Has(s, p, TagOf(d)) {
        FrontHas(s, p, t, d);
      }
      NoTagLevel(s, p);
    }
  }

  // ---- messages

  lemma Parts(s: string, p: nat, t: string, rest: string)
    requires p <= |s| && s[p..] == t + rest
    ensures Has(s, p, t) && s[p + |t|..] == rest
  {
    assert s[p..p + |t|] == s[p..][..|t|];
    assert s[p + |t|..] == s[p..][|t|..];
  }

  lemma Joined(tag: string, t: string, rest: string, logged: string)
    requires tag + t == logged
    ensures tag + (t + "\n") + rest == logged + "\n" + rest
  {
  }

  /** A message that starts at the start of a line: every line is logged with its own tag, or with that of level 4
      if it has none; the level behind it is that of the unfinished line. */
  lemma {:induction false} LinesAreLogged(s: string, p: nat, lines: seq<LogLine>, last: LogLine)
    requires p <= |s| && s[p..] == AllWritten(lines) + last.Written() && AllLegal(lines) && last.Legal()
    ensures Tagged(s, p, true)
            == AllLogged(lines) + if last.Written() == "" then "" else last.Logged()
    ensures LevelAfter(s, p, -1) == if last.Written() == "" then -1 else last.Level()
    decreases |lines|
  {
    hide Tagged, LevelAfter, LevelAt, DefaultTag, LogLine.Written, LogLine.Logged, LogLine.Legal;
    if lines != [] {
      var t := lines[0].Written();
      var r := p + |t|;
      var rest := AllWritten(lines[1..]) + last.Written();
      assert s[p..] == t + ("\n" + rest);
      Parts(s, p, t, "\n" + rest);
      assert s[r] == s[r..][0] == '\n' && s[r + 1..] == s[r..][1..] == rest;
      assert lines[0].Legal();
      LineIsTagged(s, p, lines[0]);
      LineStep(s, p, r, -1);
      LinesAreLogged(s, r + 1, lines[1..], last);
      assert s[p..r + 1] == t + "\n";
      Joined(DefaultTag(s, p, true), t, Tagged(s, r + 1, true), lines[0].Logged());
      assert AllLogged(lines) == lines[0].Logged() + "\n" + AllLogged(lines[1..]);
    } else if last.Written() != "" {
      assert s[p..] == last.Written();
      LineIsTagged(s, p, last);
      LastLine(s, p, -1);
    } else {
      NoText(s, -1);
    }
  }
}
