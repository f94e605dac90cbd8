/** `parseMatchesFromBodyText` (web/main.js:7-43): the page text is cut into
    trimmed, non-blank lines; a `Jornada N` header sets the round in effect;
    while a round is in effect every scoreline yields one match. */
module Parser {
  import opened Text
  import opened Names

  /** One parsed result: round, normalised team names and the two scores. */
  datatype Match = Match(jornada: nat, home: string, away: string, hg: nat, ag: nat)

  // ---------------------------------------------------------------- lines

  /** A trimmed piece, kept when it is not blank (`filter(Boolean)` drops `""`). */
  function NonBlank(t: string): Option<string> {
    if t == [] then None else Some(t)
  }

  /** Each piece trimmed, with the blank ones marked absent. */
  function TrimmedPieces(pieces: seq<string>): seq<Option<string>> {
    seq(|pieces|, i requires 0 <= i < |pieces| => NonBlank(Trim(pieces[i])))
  }

  /** Trimmed, non-blank pieces, in order (`.map(l => l.trim()).filter(Boolean)`). */
  function TrimmedNonBlank(pieces: seq<string>): (lines: seq<string>)
    ensures |lines| <= |pieces|
    ensures forall i :: 0 <= i < |lines| ==> lines[i] != [] && !IsSpace(lines[i][0]) && !IsSpace(lines[i][|lines[i]| - 1])
  {
    if pieces == [] then []
    else TrimmedNonBlank(pieces[..|pieces| - 1]) + OptionToSeq(NonBlank(Trim(pieces[|pieces| - 1])))
  }

  /** The lines are exactly the trims of the pieces, in order, with the blank ones
      dropped: the j-th line is the trim of the piece its index in `SomeIndices` names;
      those indices increase strictly, and every piece left out trims to nothing. */
  lemma {:induction false} TrimmedNonBlankKeeps(pieces: seq<string>)
    ensures TrimmedNonBlank(pieces) == Somes(TrimmedPieces(pieces))
    ensures |SomeIndices(TrimmedPieces(pieces))| == |TrimmedNonBlank(pieces)|
    ensures forall j :: 0 <= j < |TrimmedNonBlank(pieces)| ==>
      SomeIndices(TrimmedPieces(pieces))[j] < |pieces|
      && TrimmedNonBlank(pieces)[j] == Trim(pieces[SomeIndices(TrimmedPieces(pieces))[j]])
    ensures forall j, k :: 0 <= j < k < |TrimmedNonBlank(pieces)| ==>
      SomeIndices(TrimmedPieces(pieces))[j] < SomeIndices(TrimmedPieces(pieces))[k]
    ensures forall i :: 0 <= i < |pieces| && i !in SomeIndices(TrimmedPieces(pieces)) ==> Trim(pieces[i]) == []
  {
    var opts, lines := TrimmedPieces(pieces), TrimmedNonBlank(pieces);
    TrimmedNonBlankIsSomes(pieces);
    SomesByIndex(opts);
    var idx := SomeIndices(opts);
    forall j | 0 <= j < |lines| ensures idx[j] < |pieces| && lines[j] == Trim(pieces[idx[j]]) {
      assert opts[idx[j]] == NonBlank(Trim(pieces[idx[j]])) == Some(lines[j]);
    }
    forall i | 0 <= i < |pieces| && i !in idx ensures Trim(pieces[i]) == [] {
      assert opts[i] == NonBlank(Trim(pieces[i])) && opts[i].None?;
    }
  }

  lemma {:induction false} TrimmedNonBlankIsSomes(pieces: seq<string>)
    ensures TrimmedNonBlank(pieces) == Somes(TrimmedPieces(pieces))
  {
    if pieces != [] {
      var opts, prior := TrimmedPieces(pieces), pieces[..|pieces| - 1];
      TrimmedNonBlankIsSomes(prior);
      assert opts[..|opts| - 1] == TrimmedPieces(prior);
    }
  }

  /** The lines the parser looks at (web/main.js:8-11). */
  function Lines(text: string): seq<string> {
    TrimmedNonBlank(SplitOn(text, '\n'))
  }

  // ---------------------------------------------------------------- round header

  const Keyword: string := "jornada"

  /** ASCII case folding, which is all a case-insensitive match of a Latin keyword uses. */
  function Lower(c: char): char {
    if 'A' <= c <= 'Z' then (c as int + 32) as char else c
  }

  predicate StartsWithKeyword(ln: string) {
    |ln| >= |Keyword| && forall k :: 0 <= k < |Keyword| ==> Lower(ln[k]) == Keyword[k]
  }

  /** `ln` matches `/^Jornada\s+(\d+)$/i` with the digits starting at `i`. */
  ghost predicate HeaderAt(ln: string, i: nat) {
    && StartsWithKeyword(ln)
    && |Keyword| < i < |ln|
    && (forall k :: |Keyword| <= k < i ==> IsSpace(ln[k]))
    && (forall k :: i <= k < |ln| ==> IsDigit(ln[k]))
  }

  /** The round number a header line announces, `None` for any other line (web/main.js:14, 20-22). */
  function RoundHeader(ln: string): (r: Option<nat>)
  {
    if !StartsWithKeyword(ln) then None
    else
      var i := RunEnd(ln, |Keyword|, |ln|, IsSpace);
      if i == |Keyword| || i == |ln| || RunEnd(ln, i, |ln|, IsDigit) != |ln| then None
      else
        assert AllDigits(ln[i..]) by {
          assert forall k :: 0 <= k < |ln| - i ==> ln[i..][k] == ln[i + k];
        }
        Some(DigitsValue(ln[i..]))
  }

  /** The header matcher agrees with the pattern: a line is a header exactly when
      it splits as keyword, white space, digits, and the round is the value of
      those digits. */
  lemma RoundHeaderIsPattern(ln: string)
    ensures forall i: nat :: HeaderAt(ln, i) ==> RoundHeader(ln) == Some(DigitsValue(ln[i..]))
    ensures RoundHeader(ln).Some? ==> exists i: nat :: HeaderAt(ln, i) && RoundHeader(ln) == Some(DigitsValue(ln[i..]))
  {
    forall i: nat | HeaderAt(ln, i) ensures RoundHeader(ln) == Some(DigitsValue(ln[i..])) {
      var e := RunEnd(ln, |Keyword|, |ln|, IsSpace);
      assert !IsSpace(ln[i]);
      assert e == i;
      assert RunEnd(ln, i, |ln|, IsDigit) == |ln|;
    }
    if RoundHeader(ln).Some? {
      var e := RunEnd(ln, |Keyword|, |ln|, IsSpace);
      assert HeaderAt(ln, e);
    }
  }

  // ---------------------------------------------------------------- scoreline

  /** The four capture groups of a scoreline, as raw text. */
  datatype ScoreGroups = ScoreGroups(home: string, away: string, homeGoals: string, awayGoals: string)

  /** Capture boundaries of one way `/^(.*?)\s{1,}(.*?)\s+(\d+)-(\d+)$/` can match
      a line: group 1 is `ln[..i1]`, the first white-space run `ln[i1..i2]`,
      group 2 `ln[i2..i3]`, the second run `ln[i3..i4]`, group 3 `ln[i4..i5]`,
      the hyphen `ln[i5]` and group 4 the rest. */
  datatype Split = Split(i1: nat, i2: nat, i3: nat, i4: nat, i5: nat)

  ghost predicate IsScoreSplit(ln: string, sp: Split) {
    && sp.i1 < sp.i2 <= sp.i3 < sp.i4 < sp.i5 < |ln| - 1
    && (forall k :: sp.i1 <= k < sp.i2 ==> IsSpace(ln[k]))
    && (forall k :: sp.i3 <= k < sp.i4 ==> IsSpace(ln[k]))
    && (forall k :: sp.i4 <= k < sp.i5 ==> IsDigit(ln[k]))
    && ln[sp.i5] == '-'
    && (forall k :: sp.i5 < k < |ln| ==> IsDigit(ln[k]))
  }

  /** A backtracking matcher tries `a` no later than `b`: the end of each lazy
      part (groups 1 and 2) is tried shortest first, the end of each greedy part
      (the two white-space runs and group 3) longest first. */
  ghost predicate TriedFirst(a: Split, b: Split) {
    || a.i1 < b.i1
    || (a.i1 == b.i1 && a.i2 > b.i2)
    || (a.i1 == b.i1 && a.i2 == b.i2 && a.i3 < b.i3)
    || (a.i1 == b.i1 && a.i2 == b.i2 && a.i3 == b.i3 && a.i4 > b.i4)
    || (a.i1 == b.i1 && a.i2 == b.i2 && a.i3 == b.i3 && a.i4 == b.i4 && a.i5 >= b.i5)
  }

  function GroupsOf(ln: string, sp: Split): ScoreGroups
    requires IsScoreSplit(ln, sp)
  {
    ScoreGroups(ln[..sp.i1], ln[sp.i2..sp.i3], ln[sp.i4..sp.i5], ln[sp.i5 + 1..])
  }

  /** The trailing `<white space>D1-D2` of a line, D1 being `ln[i4..i5]`. */
  ghost predicate ScoreTail(ln: string, i4: nat, i5: nat) {
    && 0 < i4 < i5 < |ln| - 1
    && IsSpace(ln[i4 - 1])
    && (forall k :: i4 <= k < i5 ==> IsDigit(ln[k]))
    && ln[i5] == '-'
    && (forall k :: i5 < k < |ln| ==> IsDigit(ln[k]))
  }

  /** Where the two scores of a scoreline start: the digit run ending the line,
      the hyphen before it, and the digit run before that, which must follow
      white space. Returns the start of the home score and the hyphen's index. */
  function ScoreStart(ln: string): (r: Option<(nat, nat)>)
    ensures r.Some? ==> ScoreTail(ln, r.value.0, r.value.1)
  {
    var j := RunStart(ln, |ln|, IsDigit);
    if j == |ln| || j == 0 || ln[j - 1] != '-' then None
    else
      var i4 := RunStart(ln, j - 1, IsDigit);
      if i4 == j - 1 || i4 == 0 || !IsSpace(ln[i4 - 1]) then None
      else Some((i4, j - 1))
  }

  /** Groups 1 and 2 in front of the score that starts at `i4`: group 1 up to the
      first white space, the run it starts, then group 2 up to the run before `i4`. */
  function FrontSplit(ln: string, i4: nat, i5: nat): (r: Option<Split>)
    requires ScoreTail(ln, i4, i5)
    ensures r.Some? ==> IsScoreSplit(ln, r.value) && r.value.i4 == i4 && r.value.i5 == i5
    ensures r.Some? ==> forall k :: 0 <= k < r.value.i1 ==> !IsSpace(ln[k])
  {
    var i1 := RunEnd(ln, 0, i4, NotSpace);
    var e1 := RunEnd(ln, i1, i4, IsSpace);
    if e1 < i4 then
      assert !IsSpace(ln[e1]);
      Some(Split(i1, e1, RunStart(ln, i4, IsSpace), i4, i5))
    else if i1 + 2 <= i4 then Some(Split(i1, i4 - 1, i4 - 1, i4, i5))
    else None
  }

  /** Where the scoreline matcher (web/main.js:15, 30-31) cuts a line, found
      without a regular expression: both scores are the digit runs around the last
      hyphen, group 1 ends at the first white space, and group 2 lies between the
      run that white space starts and the run before the home score. What it finds
      fits the pattern, and its group 1 holds no white space. */
  function FindSplit(ln: string): (r: Option<Split>)
    ensures r.Some? ==> IsScoreSplit(ln, r.value)
    ensures r.Some? ==> forall k :: 0 <= k < r.value.i1 ==> !IsSpace(ln[k])
  {
    match ScoreStart(ln)
    case None => None
    case Some((i4, i5)) => FrontSplit(ln, i4, i5)
  }

  /** The four groups the scoreline pattern captures, `None` when it does not match. */
  function ScoreLine(ln: string): (r: Option<ScoreGroups>)
    ensures r.Some? ==> NoSpace(r.value.home)
    ensures r.Some? ==> AllDigits(r.value.homeGoals) && r.value.homeGoals != []
    ensures r.Some? ==> AllDigits(r.value.awayGoals) && r.value.awayGoals != []
  {
    match FindSplit(ln)
    case None => None
    case Some(sp) =>
      SplitGroupsAreDigits(ln, sp);
      assert forall k :: 0 <= k < sp.i1 ==> ln[..sp.i1][k] == ln[k];
      Some(GroupsOf(ln, sp))
  }

  /** Every split of a line agrees on where the two scores are, and its group 1
      reaches at least the first white space. */
  lemma SplitAnchors(ln: string, o: Split)
    requires IsScoreSplit(ln, o)
    ensures RunStart(ln, |ln|, IsDigit) == o.i5 + 1
    ensures RunStart(ln, o.i5, IsDigit) == o.i4
    ensures IsSpace(ln[o.i4 - 1])
    ensures RunEnd(ln, 0, o.i4, NotSpace) <= o.i1
  {
    assert !IsDigit(ln[o.i5]);
    assert IsSpace(ln[o.i4 - 1]) && !IsDigit(ln[o.i4 - 1]);
    assert IsSpace(ln[o.i1]);
  }

  lemma SplitGroupsAreDigits(ln: string, sp: Split)
    requires IsScoreSplit(ln, sp)
    ensures AllDigits(GroupsOf(ln, sp).homeGoals) && AllDigits(GroupsOf(ln, sp).awayGoals)
  {
    var g := GroupsOf(ln, sp);
    assert forall k :: 0 <= k < |g.homeGoals| ==> g.homeGoals[k] == ln[sp.i4 + k];
    assert forall k :: 0 <= k < |g.awayGoals| ==> g.awayGoals[k] == ln[sp.i5 + 1 + k];
  }

  /** The split of `ln` a backtracking matcher of the scoreline pattern tries first. */
  ghost predicate IsFirstSplit(ln: string, sp: Split) {
    IsScoreSplit(ln, sp) && forall o :: IsScoreSplit(ln, o) ==> TriedFirst(sp, o)
  }

  lemma FindSplitIsFirst(ln: string, o: Split)
    requires FindSplit(ln).Some? && IsScoreSplit(ln, o)
    ensures TriedFirst(FindSplit(ln).value, o)
  {
    SplitAnchors(ln, o);
    ScoreStartOfSplit(ln, o);
    FrontSplitIsFirst(ln, o);
  }

  /** Every split of a line has its scores where `ScoreStart` puts them. */
  lemma ScoreStartOfSplit(ln: string, o: Split)
    requires IsScoreSplit(ln, o)
    requires RunStart(ln, |ln|, IsDigit) == o.i5 + 1 && RunStart(ln, o.i5, IsDigit) == o.i4
    requires IsSpace(ln[o.i4 - 1])
    ensures ScoreStart(ln) == Some((o.i4, o.i5))
    ensures FindSplit(ln) == FrontSplit(ln, o.i4, o.i5)
  {
  }

  lemma FrontSplitIsFirst(ln: string, o: Split)
    requires IsScoreSplit(ln, o) && ScoreTail(ln, o.i4, o.i5)
    requires FrontSplit(ln, o.i4, o.i5).Some? && RunEnd(ln, 0, o.i4, NotSpace) <= o.i1
    ensures TriedFirst(FrontSplit(ln, o.i4, o.i5).value, o)
  {
    var sp := FrontSplit(ln, o.i4, o.i5).value;
    var e1 := RunEnd(ln, sp.i1, o.i4, IsSpace);
    if o.i1 == sp.i1 {
      assert o.i2 <= e1;
    }
  }

  /** The split the matcher finds is the one a backtracking matcher tries first. */
  lemma FindSplitIsFirstSplit(ln: string)
    requires FindSplit(ln).Some?
    ensures IsFirstSplit(ln, FindSplit(ln).value)
  {
    forall o | IsScoreSplit(ln, o) ensures TriedFirst(FindSplit(ln).value, o) {
      FindSplitIsFirst(ln, o);
    }
  }

  lemma SplitMeansMatch(ln: string, o: Split)
    requires IsScoreSplit(ln, o)
    ensures FindSplit(ln).Some?
  {
    SplitAnchors(ln, o);
  }

  /** The scoreline matcher returns what the regular expression captures: it
      succeeds exactly when some split of the line fits the pattern, and then its
      groups are those of the split a backtracking matcher tries first. */
  lemma ScoreLineIsFirstSplit(ln: string)
    ensures ScoreLine(ln).None? <==> forall sp :: !IsScoreSplit(ln, sp)
    ensures ScoreLine(ln).Some? ==>
      exists sp :: && IsScoreSplit(ln, sp)
                   && GroupsOf(ln, sp) == ScoreLine(ln).value
                   && forall o :: IsScoreSplit(ln, o) ==> TriedFirst(sp, o)
  {
    if o :| IsScoreSplit(ln, o) {
      SplitMeansMatch(ln, o);
    }
    if FindSplit(ln).Some? {
      FindSplitIsFirstSplit(ln);
    }
  }

  // ---------------------------------------------------------------- one line

  /** Bye lines (web/main.js:27-28). */
  predicate IsBye(ln: string) {
    StartsWith(ln, "DESCANSA") || (EndsWith(ln, "---") && Contains(ln, "DESCANSA"))
  }

  /** The record pushed for a scoreline (web/main.js:33-39). */
  function ToMatch(jornada: nat, g: ScoreGroups): Match
    requires AllDigits(g.homeGoals) && AllDigits(g.awayGoals)
  {
    Match(jornada, Norm(g.home), Norm(g.away), DigitsValue(g.homeGoals), DigitsValue(g.awayGoals))
  }

  /** What one non-header line yields while round `jornada` is in effect; header
      lines yield nothing (web/main.js:20-39). */
  function MatchOnLine(jornada: nat, ln: string): Option<Match> {
    if RoundHeader(ln).Some? || jornada == 0 || IsBye(ln) then None
    else
      match ScoreLine(ln)
      case None => None
      case Some(g) => Some(ToMatch(jornada, g))
  }

  /** A line yields a match exactly when a round is in effect, the line is neither
      a header nor a bye, and it fits the scoreline pattern. */
  lemma MatchOnLineWhen(jornada: nat, ln: string)
    ensures MatchOnLine(jornada, ln).Some? <==>
      jornada != 0 && RoundHeader(ln).None? && !IsBye(ln) && exists sp :: IsScoreSplit(ln, sp)
  {
    ScoreLineIsFirstSplit(ln);
  }

  /** The match a line yields carries the round in effect (never 0), the
      normalised groups of the first split and the values of its digit runs, and
      its home team holds no white space. */
  lemma MatchOnLineFields(jornada: nat, ln: string)
    ensures MatchOnLine(jornada, ln).Some? ==> MatchOnLine(jornada, ln).value.jornada == jornada >= 1
    ensures MatchOnLine(jornada, ln).Some? ==> NoSpace(MatchOnLine(jornada, ln).value.home)
    ensures MatchOnLine(jornada, ln).Some? && !IsSpace(ln[0]) ==> MatchOnLine(jornada, ln).value.home != []
    ensures MatchOnLine(jornada, ln).Some? ==>
      exists sp :: && IsFirstSplit(ln, sp)
                   && AllDigits(GroupsOf(ln, sp).homeGoals) && AllDigits(GroupsOf(ln, sp).awayGoals)
                   && MatchOnLine(jornada, ln).value == ToMatch(jornada, GroupsOf(ln, sp))
  {
    if MatchOnLine(jornada, ln).Some? {
      var g := ScoreLine(ln).value;
      assert MatchOnLine(jornada, ln).value == ToMatch(jornada, g);
      NormOfWord(g.home);
      ScoreLineHomeIsFirstWord(ln);
      FindSplitIsFirstSplit(ln);
      SplitGroupsAreDigits(ln, FindSplit(ln).value);
    }
  }

  /** Group 1, the home team, is the line up to its first white-space character,
      even when the team names have several words. */
  lemma ScoreLineHomeIsFirstWord(ln: string)
    requires ScoreLine(ln).Some?
    ensures var w := RunEnd(ln, 0, |ln|, NotSpace);
      w < |ln| && IsSpace(ln[w]) && ScoreLine(ln).value.home == ln[..w]
  {
    var sp := FindSplit(ln).value;
    RunEndAt(ln, 0, |ln|, NotSpace, sp.i1);
  }

  /** Group 2 may be empty: in `A  1-0` the first white-space run gives up its
      second character to the run before the score. */
  lemma EmptyAwayExample()
    ensures ScoreLine("A  1-0") == Some(ScoreGroups("A", "", "1", "0"))
  {
    var ln := "A  1-0";
    EmptyAwaySplit();
    assert ln[..1] == "A" && ln[2..2] == "" && ln[3..4] == "1" && ln[5..] == "0";
  }

  lemma EmptyAwaySplit()
    ensures FindSplit("A  1-0") == Some(Split(1, 2, 2, 3, 4))
  {
    var ln := "A  1-0";
    assert RunStart(ln, 6, IsDigit) == 5;
    assert RunStart(ln, 4, IsDigit) == 3;
    assert ScoreStart(ln) == Some((3, 4));
    assert RunEnd(ln, 0, 3, NotSpace) == 1;
    assert RunEnd(ln, 1, 3, IsSpace) == 3;
    assert FrontSplit(ln, 3, 4) == Some(Split(1, 2, 2, 3, 4));
  }

  // ---------------------------------------------------------------- all lines

  /** The round in effect after reading `lines`: that of their last header, 0 when
      there is none (`null` and 0 are both falsy in web/main.js:25). */
  function LastRound(lines: seq<string>): nat {
    if lines == [] then 0
    else
      match RoundHeader(lines[|lines| - 1])
      case Some(n) => n
      case None => LastRound(lines[..|lines| - 1])
  }

  /** `LastRound` is the round of the most recent header, or 0 before any header. */
  lemma {:induction false} LastRoundIsMostRecentHeader(lines: seq<string>)
    ensures (forall k :: 0 <= k < |lines| ==> RoundHeader(lines[k]).None?) ==> LastRound(lines) == 0
    ensures forall k :: 0 <= k < |lines| && RoundHeader(lines[k]).Some?
                        && (forall k' :: k < k' < |lines| ==> RoundHeader(lines[k']).None?)
                        ==> LastRound(lines) == RoundHeader(lines[k]).value
  {
    if forall k :: 0 <= k < |lines| ==> RoundHeader(lines[k]).None? {
      LastRoundWithoutHeader(lines);
    }
    forall k | 0 <= k < |lines| && RoundHeader(lines[k]).Some?
               && (forall k' :: k < k' < |lines| ==> RoundHeader(lines[k']).None?)
      ensures LastRound(lines) == RoundHeader(lines[k]).value
    {
      LastRoundAfterHeader(lines, k);
    }
  }

  lemma {:induction false} LastRoundWithoutHeader(lines: seq<string>)
    requires forall k :: 0 <= k < |lines| ==> RoundHeader(lines[k]).None?
    ensures LastRound(lines) == 0
  {
    if lines != [] {
      var prior := lines[..|lines| - 1];
      assert forall k :: 0 <= k < |prior| ==> prior[k] == lines[k];
      LastRoundWithoutHeader(prior);
    }
  }

  lemma {:induction false} LastRoundAfterHeader(lines: seq<string>, k: nat)
    requires k < |lines| && RoundHeader(lines[k]).Some?
    requires forall k' :: k < k' < |lines| ==> RoundHeader(lines[k']).None?
    ensures LastRound(lines) == RoundHeader(lines[k]).value
  {
    var prior := lines[..|lines| - 1];
    if k < |lines| - 1 {
      assert forall k' :: k < k' < |prior| ==> prior[k'] == lines[k'];
      LastRoundAfterHeader(prior, k);
      assert prior[k] == lines[k];
    }
  }

  /** What each line yields, given the round in effect before it. */
  function Outcomes(lines: seq<string>): seq<Option<Match>> {
    seq(|lines|, i requires 0 <= i < |lines| => MatchOnLine(LastRound(lines[..i]), lines[i]))
  }

  /** The matches the source emits for `lines`, in line order. */
  function Extracted(lines: seq<string>): seq<Match> {
    Somes(Outcomes(lines))
  }

  /** Indices of the lines that yield a match. */
  function Sources(lines: seq<string>): seq<nat> {
    SomeIndices(Outcomes(lines))
  }

  /** The output follows the input line by line: the j-th match is what its own
      source line yields under the round in effect before it, source lines are
      strictly increasing (so at most one match per line), and every other line
      yields nothing. */
  lemma ExtractedLineByLine(lines: seq<string>)
    ensures |Sources(lines)| == |Extracted(lines)|
    ensures forall j :: 0 <= j < |Sources(lines)| ==>
      && Sources(lines)[j] < |lines|
      && MatchOnLine(LastRound(lines[..Sources(lines)[j]]), lines[Sources(lines)[j]]) == Some(Extracted(lines)[j])
    ensures forall j, k :: 0 <= j < k < |Sources(lines)| ==> Sources(lines)[j] < Sources(lines)[k]
    ensures forall i :: 0 <= i < |lines| && i !in Sources(lines) ==> MatchOnLine(LastRound(lines[..i]), lines[i]).None?
  {
    SomesByIndex(Outcomes(lines));
  }

  /** Every emitted match carries a round that is in effect, so never round 0, and
      there are at most as many matches as lines. */
  lemma ExtractedRounds(lines: seq<string>)
    ensures |Extracted(lines)| <= |lines|
    ensures forall j :: 0 <= j < |Extracted(lines)| ==> Extracted(lines)[j].jornada >= 1
  {
    ExtractedLineByLine(lines);
    var src := Sources(lines);
    forall j | 0 <= j < |Extracted(lines)| ensures Extracted(lines)[j].jornada >= 1 {
      MatchOnLineFields(LastRound(lines[..src[j]]), lines[src[j]]);
    }
    StrictlyIncreasingBound(src, |lines|);
  }

  /** Every match parsed from a page names a home team: the lines are trimmed, so
      group 1 holds at least the line's first character. (The away team may be
      empty, as `EmptyAwayExample` shows.) */
  lemma ParsedHomesNonEmpty(text: string)
    ensures forall j :: 0 <= j < |Extracted(Lines(text))| ==> Extracted(Lines(text))[j].home != []
  {
    var lines := Lines(text);
    ExtractedLineByLine(lines);
    var src := Sources(lines);
    forall j | 0 <= j < |Extracted(lines)| ensures Extracted(lines)[j].home != [] {
      MatchOnLineFields(LastRound(lines[..src[j]]), lines[src[j]]);
    }
  }

  lemma {:induction false} StrictlyIncreasingBound(s: seq<nat>, n: nat)
    requires forall j :: 0 <= j < |s| ==> s[j] < n
    requires forall j, k :: 0 <= j < k < |s| ==> s[j] < s[k]
    ensures |s| <= n
    decreases n
  {
    if s != [] {
      StrictlyIncreasingBound(s[..|s| - 1], s[|s| - 1]);
    }
  }

  /** Text without a round header yields no match, whatever scorelines it holds. */
  lemma NoHeaderNoMatches(lines: seq<string>)
    requires forall k :: 0 <= k < |lines| ==> RoundHeader(lines[k]).None?
    ensures Extracted(lines) == []
  {
    ExtractedLineByLine(lines);
    if Extracted(lines) != [] {
      var i := Sources(lines)[0];
      LastRoundIsMostRecentHeader(lines[..i]);
      assert false;
    }
  }

  // ---------------------------------------------------------------- the parser

  /** Reading line `i` appends what it yields and moves the round on only at a
      header: one turn of the parser's loop. */
  lemma ReadLineStep(lines: seq<string>, i: nat)
    requires i < |lines|
    ensures Somes(Outcomes(lines)[..i + 1])
         == Somes(Outcomes(lines)[..i]) + OptionToSeq(MatchOnLine(LastRound(lines[..i]), lines[i]))
    ensures LastRound(lines[..i + 1])
         == if RoundHeader(lines[i]).Some? then RoundHeader(lines[i]).value else LastRound(lines[..i])
  {
    SomesPrefixStep(Outcomes(lines), i);
    assert lines[..i + 1][..i] == lines[..i];
  }

  /** `parseMatchesFromBodyText` (web/main.js:7-43). */
  method ParseMatchesFromBodyText(text: string) returns (matches: seq<Match>)
    ensures matches == Extracted(Lines(text))
  {
    matches := ReadLines(Lines(text));
  }

  /** The loop of web/main.js:13-40 over the trimmed, non-blank lines. */
  method ReadLines(lines: seq<string>) returns (matches: seq<Match>)
    ensures matches == Extracted(lines)
  {
    var jornada: nat := 0;
    matches := [];
    for i := 0 to |lines|
      invariant jornada == LastRound(lines[..i])
      invariant matches == Somes(Outcomes(lines)[..i])
    {
      var ln := lines[i];
      ReadLineStep(lines, i);
      var jm := RoundHeader(ln);
      if jm.Some? {
        jornada := jm.value;
        continue;
      }
      if jornada == 0 {
        continue;
      }
      if StartsWith(ln, "DESCANSA") {
        continue;
      }
      if EndsWith(ln, "---") && Contains(ln, "DESCANSA") {
        continue;
      }
      var sm := ScoreLine(ln);
      if sm.None? {
        continue;
      }
      matches := matches + [ToMatch(jornada, sm.value)];
    }
    assert Outcomes(lines)[..|lines|] == Outcomes(lines);
  }
}
