/** The log buffer of cmd_log.c: a ring with the last 16384 characters of a tagged stream. */
module LogRing {
  import opened CString

  const LEN := 16384
  const BUF_SIZE := 1024
  const DEFAULT_LEVEL := 4

  /** A level tag "<0>" to "<7>" stands at position p. */
  predicate TagAt(s: string, p: nat) {
    CharAt(s, p) == '<' && '0' <= CharAt(s, p + 1) <= '7' && CharAt(s, p + 2) == '>'
  }

  /** The text from p on, with the default tag in front of every line that has none. */
  function Tagged(s: string, p: nat, newline: bool): string
    requires p <= |s|
    decreases |s| - p
  {
    if p == |s| then ""
    else DefaultTag(s, p, newline) + [s[p]] + Tagged(s, p + 1, s[p] == '\n')
  }

  /** Level of a line that starts at p. */
  function LevelAt(s: string, p: nat): (r: nat)
    ensures r < 8
  {
    if TagAt(s, p) then CharAt(s, p + 1) as int - '0' as int else DEFAULT_LEVEL
  }

  /** The tag that is put in front of a text. */
  function DefaultTag(s: string, p: nat, newline: bool): string {
    if newline && !TagAt(s, p) then "<4>" else ""
  }

  /** The level of the unfinished line behind the text from p on; negative at the start of a line. */
  function LevelAfter(s: string, p: nat, level: int): int
    requires p <= |s|
    decreases |s| - p
  {
    if p == |s| then level
    else LevelAfter(s, p + 1, if s[p] == '\n' then -1 else if level < 0 then LevelAt(s, p) else level)
  }

  lemma {:induction false} LevelTellsNewline(s: string, p: nat, level: int)
    requires p <= |s|
    ensures LevelAfter(s, p, level) < 0 <==> FreshAfter(level < 0, s[p..])
    decreases |s| - p
  {
    if p < |s| {
      LevelTellsNewline(s, p + 1, if s[p] == '\n' then -1 else if level < 0 then LevelAt(s, p) else level);
    }
  }

  lemma OneChar(s: string, q: nat, level: int)
    requires q < |s|
    ensures Tagged(s, q, level < 0) == DefaultTag(s, q, level < 0) + [s[q]] + Tagged(s, q + 1, s[q] == '\n')
    ensures LevelAfter(s, q, level)
            == LevelAfter(s, q + 1, if s[q] == '\n' then -1 else if level < 0 then LevelAt(s, q) else level)
  {
  }

  lemma NoTag(s: string, q: nat)
    ensures DefaultTag(s, q, false) == ""
  {
  }

  lemma LineFront(s: string, q: nat, r: nat)
    requires q < r <= |s| && '\n' !in s[q..r]
    ensures s[q] != '\n' && '\n' !in s[q + 1..r]
  {
    assert s[q] == s[q..r][0] && s[q + 1..r] == s[q..r][1..];
  }

  lemma Regrouped(a: string, b: string, c: string, d: string)
    ensures a + b + ("" + c + d) == a + (b + c) + d
    ensures a + b + ("" + c) == a + (b + c)
  {
  }

  /** The text of one line, from q up to its newline at r. */
  lemma {:induction false} LineStep(s: string, q: nat, r: nat, level: int)
    requires q <= r < |s| && '\n' !in s[q..r] && s[r] == '\n'
    ensures Tagged(s, q, level < 0) == DefaultTag(s, q, level < 0) + s[q..r + 1] + Tagged(s, r + 1, true)
    ensures LevelAfter(s, q, level) == LevelAfter(s, r + 1, -1)
    decreases r - q
  {
    hide Tagged, LevelAfter, LevelAt, DefaultTag;
    OneChar(s, q, level);
    if q < r {
      LineFront(s, q, r);
      NoTag(s, q + 1);
      LineStep(s, q + 1, r, if level < 0 then LevelAt(s, q) else level);
      assert s[q..r + 1] == [s[q]] + s[q + 1..r + 1];
      Regrouped(DefaultTag(s, q, level < 0), [s[q]], s[q + 1..r + 1], Tagged(s, r + 1, true));
    } else {
      assert s[q..r + 1] == [s[q]];
    }
  }

  lemma NoText(s: string, level: int)
    ensures Tagged(s, |s|, level < 0) == "" && LevelAfter(s, |s|, level) == level
  {
  }

  /** The text of the last line, when it has no newline. */
  lemma {:induction false} LastLine(s: string, q: nat, level: int)
    requires q < |s| && '\n' !in s[q..]
    ensures Tagged(s, q, level < 0) == DefaultTag(s, q, level < 0) + s[q..]
    ensures LevelAfter(s, q, level) == if level < 0 then LevelAt(s, q) else level
    decreases |s| - q
  {
    hide Tagged, LevelAfter, LevelAt, DefaultTag;
    OneChar(s, q, level);
    LineFront(s, q, |s|);
    assert s[q..] == [s[q]] + s[q + 1..];
    if q + 1 < |s| {
      NoTag(s, q + 1);
      LastLine(s, q + 1, if level < 0 then LevelAt(s, q) else level);
      Regrouped(DefaultTag(s, q, level < 0), [s[q]], s[q + 1..], "");
    } else {
      NoText(s, if level < 0 then LevelAt(s, q) else level);
    }
  }

  /** What one line adds to the stream logged so far, and what is still to come. */
  lemma LogStep(s: string, q: nat, r: nat, lineFeed: bool, level: int, logged: string)
    requires q <= r <= |s| && q < |s| && '\n' !in s[q..r] && lineFeed == (r < |s|) && (lineFeed ==> s[r] == '\n')
    ensures var text := DefaultTag(s, q, level < 0) + s[q..r + if lineFeed then 1 else 0];
            && (lineFeed ==>
                  && logged + Tagged(s, q, level < 0) == logged + text + Tagged(s, r + 1, true)
                  && LevelAfter(s, q, level) == LevelAfter(s, r + 1, -1))
            && (!lineFeed ==>
                  && logged + Tagged(s, q, level < 0) == logged + text
                  && LevelAfter(s, q, level) == if level < 0 then LevelAt(s, q) else level)
  {
    hide Tagged, LevelAfter, LevelAt, DefaultTag;
    if lineFeed {
      var text := DefaultTag(s, q, level < 0) + s[q..r + 1];
      LineStep(s, q, r, level);
      assert logged + (text + Tagged(s, r + 1, true)) == logged + text + Tagged(s, r + 1, true);
    } else {
      assert s[q..r] == s[q..];
      LastLine(s, q, level);
    }
  }

  /** The stream of a message: what is logged before position q, and what is still to come;
      behind the end of an unfinished line nothing is to come. */
  predicate Ahead(s: string, level0: int, q: nat, level: int, logged: string) {
    var whole, final := Tagged(s, 0, level0 < 0), LevelAfter(s, 0, level0);
    if q <= |s| then whole == logged + Tagged(s, q, level < 0) && final == LevelAfter(s, q, level)
    else whole == logged && final == level
  }

  lemma AheadStart(s: string, level: int)
    ensures Ahead(s, level, 0, level, "")
  {
  }

  lemma AheadStep(s: string, level0: int, q: nat, r: nat, lineFeed: bool, level: int, logged: string)
    requires q <= r <= |s| && q < |s| && '\n' !in s[q..r] && lineFeed == (r < |s|) && (lineFeed ==> s[r] == '\n')
    requires Ahead(s, level0, q, level, logged)
    ensures var text := DefaultTag(s, q, level < 0) + s[q..r + if lineFeed then 1 else 0];
            Ahead(s, level0, r + 1, if lineFeed then -1 else if level < 0 then LevelAt(s, q) else level, logged + text)
  {
    hide Tagged, LevelAfter, LevelAt, DefaultTag;
    LogStep(s, q, r, lineFeed, level, logged);
  }

  lemma AheadEnd(s: string, level0: int, q: nat, level: int, logged: string)
    requires q >= |s| && Ahead(s, level0, q, level, logged)
    ensures Tagged(s, 0, level0 < 0) == logged && LevelAfter(s, 0, level0) == level
  {
    NoText(s, level);
    assert logged + "" == logged;
  }

  lemma TagIsPlain(s: string, q: nat, newline: bool)
    ensures '\n' !in DefaultTag(s, q, newline)
  {
  }

  /** Whether the next character starts a line. */
  predicate FreshAfter(newline: bool, s: string) {
    if s == "" then newline else s[|s| - 1] == '\n'
  }

  // ---- what the stream is

  /** Position q of the stream starts a line. */
  predicate LineStart(s: string, q: nat) {
    q < |s| && (q == 0 || s[q - 1] == '\n')
  }

  lemma TagOfDefault(s: string)
    ensures TagAt("<4>" + s, 0)
  {
  }

  lemma TagInFront(s: string)
    requires |s| >= 3 && s[..3] == "<4>"
    ensures TagAt(s, 0)
  {
    assert s[0] == s[..3][0] && s[1] == s[..3][1] && s[2] == s[..3][2];
  }

  lemma ShiftedTag(a: string, b: string, q: nat)
    requires TagAt(b, q)
    ensures TagAt(a + b, |a| + q)
  {
  }

  /** A tag in the text is copied as it is. */
  lemma TagFollows(s: string, p: nat)
    requires p < |s| && TagAt(s, p)
    ensures TagAt(Tagged(s, p, true), 0)
  {
    assert Tagged(s, p + 1, false) == [s[p + 1]] + Tagged(s, p + 2, false);
    assert Tagged(s, p + 2, false) == [s[p + 2]] + Tagged(s, p + 3, false);
  }

  /** Every line of the stream starts with a tag. */
  lemma {:induction false} EveryLineIsTagged(s: string, p: nat, newline: bool, q: nat)
    requires p <= |s| && LineStart(Tagged(s, p, newline), q) && (q == 0 ==> newline)
    ensures TagAt(Tagged(s, p, newline), q)
    decreases |s| - p
  {
    hide TagAt;
    var tag := DefaultTag(s, p, newline);
    var rest := Tagged(s, p + 1, s[p] == '\n');
    var all := tag + [s[p]] + rest;
    TagOfDefault(rest);
    if q == 0 {
      if tag == "" {
        TagFollows(s, p);
      } else {
        TagInFront(tag + [s[p]] + rest);
      }
    } else if q > |tag| {
      assert all[q - 1] == ([s[p]] + rest)[q - 1 - |tag|];
      if q > |tag| + 1 {
        assert rest[q - |tag| - 2] == all[q - 1];
      }
      EveryLineIsTagged(s, p + 1, s[p] == '\n', q - |tag| - 1);
      ShiftedTag(tag + [s[p]], rest, q - |tag| - 1);
    } else {
      assert false;
    }
  }

  // ---- messages in pieces

  /** Whether position q starts a line when the text from p on is logged. */
  predicate StartsLine(s: string, p: nat, newline: bool, q: nat)
    requires p <= q <= |s|
  {
    if q == p then newline else s[q - 1] == '\n'
  }

  /** A cut at k goes through the tag of a line. */
  predicate CutsTag(s: string, p: nat, newline: bool, k: nat)
    requires p <= k <= |s|
  {
    exists q :: p <= q < k < q + 3 && StartsLine(s, p, newline, q) && TagAt(s, q)
  }

  lemma SameTag(s: string, k: nat, i: nat, newline: bool)
    requires k + i <= |s|
    ensures DefaultTag(s[k..], i, newline) == DefaultTag(s, k + i, newline)
  {
  }

  lemma {:induction false} TaggedTail(s: string, k: nat, i: nat, newline: bool)
    requires k + i <= |s|
    ensures Tagged(s[k..], i, newline) == Tagged(s, k + i, newline)
    decreases |s| - k - i
  {
    hide DefaultTag;
    if k + i < |s| {
      SameTag(s, k, i, newline);
      TaggedTail(s, k, i + 1, s[k + i] == '\n');
    }
  }

  /** The first character of a text that is cut at k. */
  lemma CutStep(s: string, p: nat, newline: bool, k: nat)
    requires p < k <= |s|
    ensures CutsTag(s, p, newline, k)
            <==> (newline && TagAt(s, p) && k < p + 3) || CutsTag(s, p + 1, s[p] == '\n', k)
    ensures newline && TagAt(s, p) && k < p + 3 ==> !CutsTag(s, p + 1, s[p] == '\n', k)
    ensures TagAt(s[..k], p) <==> TagAt(s, p) && p + 3 <= k
  {
    if CutsTag(s, p, newline, k) {
      var q :| p <= q < k < q + 3 && StartsLine(s, p, newline, q) && TagAt(s, q);
      if q > p {
        assert StartsLine(s, p + 1, s[p] == '\n', q);
      }
    }
    if CutsTag(s, p + 1, s[p] == '\n', k) {
      var q :| p + 1 <= q < k < q + 3 && StartsLine(s, p + 1, s[p] == '\n', q) && TagAt(s, q);
      assert StartsLine(s, p, newline, q);
    }
    if newline && TagAt(s, p) {
      assert StartsLine(s, p, newline, p);
    }
  }

  /** The tag in front of a line is the same for a text that is cut behind it. */
  lemma FrontTag(s: string, p: nat, newline: bool, k: nat)
    requires p < k <= |s|
    ensures var cut := newline && TagAt(s, p) && k < p + 3;
            DefaultTag(s[..k], p, newline) == (if cut then "<4>" else DefaultTag(s, p, newline))
            && (cut ==> DefaultTag(s, p, newline) == "")
  {
    assert TagAt(s[..k], p) <==> TagAt(s, p) && p + 3 <= k;
  }

  lemma NoCut(s: string, k: nat, newline: bool)
    requires k <= |s|
    ensures !CutsTag(s, k, newline, k)
  {
  }

  /** Where each part of a cut text ends up; a cut tag costs a default tag. */
  lemma {:induction false} CutText(s: string, p: nat, newline: bool, k: nat)
    requires p <= k <= |s|
    ensures var parts := Tagged(s[..k], p, newline) + Tagged(s, k, StartsLine(s, p, newline, k));
            && (!CutsTag(s, p, newline, k) ==> parts == Tagged(s, p, newline))
            && |parts| == |Tagged(s, p, newline)| + if CutsTag(s, p, newline, k) then 3 else 0
    decreases k - p
  {
    hide TagAt, CutsTag, Tagged, DefaultTag;
    if p == k {
      NoCut(s, k, newline);
      NoText(s[..k], if newline then -1 else 0);
      assert "" + Tagged(s, k, newline) == Tagged(s, k, newline);
    } else {
      CutStep(s, p, newline, k);
      CutText(s, p + 1, s[p] == '\n', k);
      OneChar(s, p, if newline then -1 else 0);
      OneChar(s[..k], p, if newline then -1 else 0);
      FrontTag(s, p, newline, k);
      var tag := DefaultTag(s, p, newline);
      var rest := Tagged(s[..k], p + 1, s[p] == '\n');
      var after := Tagged(s, k, StartsLine(s, p, newline, k));
      assert tag + [s[p]] + (rest + after) == tag + [s[p]] + rest + after;
      assert |"<4>" + [s[p]] + rest + after| == 4 + |rest + after|;
    }
  }

  /** A message logged in two pieces gives the same stream exactly if the cut does not
      go through a tag at the start of a line. */
  lemma PiecesGiveTheSame(s: string, newline: bool, k: nat)
    requires k <= |s|
    ensures Tagged(s[..k], 0, newline) + Tagged(s[k..], 0, FreshAfter(newline, s[..k])) == Tagged(s, 0, newline)
            <==> !CutsTag(s, 0, newline, k)
  {
    hide CutsTag, Tagged;
    CutText(s, 0, newline, k);
    TaggedTail(s, k, 0, FreshAfter(newline, s[..k]));
  }

  lemma SameLevel(s: string, k: nat, i: nat)
    requires k + i <= |s|
    ensures LevelAt(s[k..], i) == LevelAt(s, k + i)
  {
  }

  lemma {:induction false} LevelTail(s: string, k: nat, i: nat, level: int)
    requires k + i <= |s|
    ensures LevelAfter(s[k..], i, level) == LevelAfter(s, k + i, level)
    decreases |s| - k - i
  {
    hide LevelAt;
    if k + i < |s| {
      SameLevel(s, k, i);
      LevelTail(s, k, i + 1, if s[k + i] == '\n' then -1 else if level < 0 then LevelAt(s, k + i) else level);
    }
  }

  /** A tag that is not cut gives its level, and a line without one the default level. */
  lemma FrontLevel(s: string, p: nat, k: nat)
    requires p < k <= |s| && !(TagAt(s, p) && k < p + 3)
    ensures LevelAt(s[..k], p) == LevelAt(s, p)
  {
    assert TagAt(s[..k], p) <==> TagAt(s, p);
  }

  /** The level behind a cut that goes through no tag. */
  lemma {:induction false} CutLevel(s: string, p: nat, level: int, k: nat)
    requires p <= k <= |s| && !CutsTag(s, p, level < 0, k)
    ensures LevelAfter(s, k, LevelAfter(s[..k], p, level)) == LevelAfter(s, p, level)
    decreases k - p
  {
    hide TagAt, CutsTag, LevelAt;
    if p < k {
      CutStep(s, p, level < 0, k);
      if level < 0 {
        FrontLevel(s, p, k);
      }
      CutLevel(s, p + 1, if s[p] == '\n' then -1 else if level < 0 then LevelAt(s, p) else level, k);
    }
  }

  /** A message logged in two pieces leaves stream and level as the whole message does, if the cut
      does not go through a tag at the start of a line. */
  lemma {:induction false} PiecesLeaveTheSame(s: string, level: int, k: nat)
    requires k <= |s| && !CutsTag(s, 0, level < 0, k)
    ensures var mid := LevelAfter(s[..k], 0, level);
            && Tagged(s[..k], 0, level < 0) + Tagged(s[k..], 0, mid < 0) == Tagged(s, 0, level < 0)
            && LevelAfter(s[k..], 0, mid) == LevelAfter(s, 0, level)
  {
    hide CutsTag, Tagged, LevelAfter;
    var mid := LevelAfter(s[..k], 0, level);
    LevelTellsNewline(s[..k], 0, level);
    assert s[..k][0..] == s[..k];
    PiecesGiveTheSame(s, level < 0, k);
    LevelTail(s, k, 0, mid);
    CutLevel(s, 0, level, k);
  }
}
