/** `computeStandings` (web/main.js:45-81): one record per team named in any
    match, updated in place match by match, then turned into rows with a goal
    difference and ranked by points, goal difference, goals for and name. */
module Standings {
  import opened Text
  import opened Parser

  // ---------------------------------------------------------------- counters

  /** The counters of one record: points, played, won, drawn, lost, goals for,
      goals against. */
  datatype Tally = Tally(pts: nat, pj: nat, pg: nat, pe: nat, pp: nat, gf: nat, gc: nat)
  {
    function Plus(o: Tally): Tally {
      Tally(pts + o.pts, pj + o.pj, pg + o.pg, pe + o.pe, pp + o.pp, gf + o.gf, gc + o.gc)
    }
  }

  /** The counters of a fresh record (web/main.js:54). */
  function Zero(): Tally {
    Tally(0, 0, 0, 0, 0, 0, 0)
  }

  /** What a match adds to its home side's record (web/main.js:61-67). */
  function HomeSide(m: Match): Tally {
    if m.hg > m.ag then Tally(3, 1, 1, 0, 0, m.hg, m.ag)
    else if m.hg < m.ag then Tally(0, 1, 0, 0, 1, m.hg, m.ag)
    else Tally(1, 1, 0, 1, 0, m.hg, m.ag)
  }

  /** What a match adds to its away side's record (web/main.js:61-67). */
  function AwaySide(m: Match): Tally {
    if m.hg > m.ag then Tally(0, 1, 0, 0, 1, m.ag, m.hg)
    else if m.hg < m.ag then Tally(3, 1, 1, 0, 0, m.ag, m.hg)
    else Tally(1, 1, 0, 1, 0, m.ag, m.hg)
  }

  /** The away side fares as the home side of the same match turned around. */
  lemma AwaySideMirrorsHome(m: Match)
    ensures AwaySide(m) == HomeSide(Match(m.jornada, m.away, m.home, m.ag, m.hg))
  {
  }

  /** What a match between a team and itself adds to that team's one record:
      both sides' updates land on it (web/main.js:58-59). */
  function SelfSide(m: Match): Tally {
    if m.hg != m.ag then Tally(3, 2, 1, 0, 1, m.hg + m.ag, m.hg + m.ag)
    else Tally(2, 2, 0, 2, 0, m.hg + m.ag, m.hg + m.ag)
  }

  /** A team playing itself is credited with the home and the away share. */
  lemma SelfSideIsBoth(m: Match)
    ensures SelfSide(m) == HomeSide(m).Plus(AwaySide(m))
  {
  }

  /** What a match adds to team `t`: its home share, its away share, both when a
      team plays itself, else nothing. */
  function Share(t: string, m: Match): Tally {
    if t == m.home && t == m.away then SelfSide(m)
    else if t == m.home then HomeSide(m)
    else if t == m.away then AwaySide(m)
    else Zero()
  }

  /** The record of team `t` after the matches `ms`, in order. */
  function TallyOf(t: string, ms: seq<Match>): Tally {
    if ms == [] then Zero() else TallyOf(t, ms[..|ms| - 1]).Plus(Share(t, ms[|ms| - 1]))
  }

  /** The teams named in `ms`, home or away. */
  function TeamsOf(ms: seq<Match>): set<string> {
    if ms == [] then {} else TeamsOf(ms[..|ms| - 1]) + {ms[|ms| - 1].home, ms[|ms| - 1].away}
  }

  lemma TallyStep(t: string, ms: seq<Match>, i: nat)
    requires i < |ms|
    ensures TallyOf(t, ms[..i + 1]) == TallyOf(t, ms[..i]).Plus(Share(t, ms[i]))
  {
    assert ms[..i + 1][..i] == ms[..i];
  }

  lemma TeamsStep(ms: seq<Match>, i: nat)
    requires i < |ms|
    ensures TeamsOf(ms[..i + 1]) == TeamsOf(ms[..i]) + {ms[i].home, ms[i].away}
  {
    assert ms[..i + 1][..i] == ms[..i];
  }

  /** A team is in the table exactly when some match names it. */
  lemma {:induction false} TeamsOfMembers(ms: seq<Match>, t: string)
    ensures t in TeamsOf(ms) <==> exists i :: 0 <= i < |ms| && (ms[i].home == t || ms[i].away == t)
  {
    if ms != [] {
      var prior := ms[..|ms| - 1];
      TeamsOfMembers(prior, t);
      assert forall i :: 0 <= i < |prior| ==> prior[i] == ms[i];
    }
  }

  /** Both teams of every match are in the table. */
  lemma PlayersListed(ms: seq<Match>, i: nat)
    requires i < |ms|
    ensures ms[i].home in TeamsOf(ms) && ms[i].away in TeamsOf(ms)
  {
    TeamsOfMembers(ms, ms[i].home);
    TeamsOfMembers(ms, ms[i].away);
  }

  /** A team no match names has an empty record. */
  lemma {:induction false} TallyOfAbsent(t: string, ms: seq<Match>)
    requires t !in TeamsOf(ms)
    ensures TallyOf(t, ms) == Zero()
  {
    if ms != [] {
      var prior, last := ms[..|ms| - 1], ms[|ms| - 1];
      assert TeamsOf(ms) == TeamsOf(prior) + {last.home, last.away};
      calc {
        TallyOf(t, ms);
        TallyOf(t, prior).Plus(Share(t, last));
        { TallyOfAbsent(t, prior); ShareOfBystander(t, last); }
        Zero().Plus(Zero());
        { ZeroPlus(Zero()); }
        Zero();
      }
    }
  }

  /** A match adds nothing to a team that does not play in it. */
  lemma ShareOfBystander(t: string, m: Match)
    requires t != m.home && t != m.away
    ensures Share(t, m) == Zero()
  {
  }

  /** Every record keeps the bookkeeping identities of web/main.js:57-68:
      played = won + drawn + lost and points = 3 * won + drawn, also when a team
      plays itself. */
  lemma {:induction false} TallyIdentities(t: string, ms: seq<Match>)
    ensures TallyOf(t, ms).pj == TallyOf(t, ms).pg + TallyOf(t, ms).pe + TallyOf(t, ms).pp
    ensures TallyOf(t, ms).pts == 3 * TallyOf(t, ms).pg + TallyOf(t, ms).pe
  {
    if ms != [] {
      TallyIdentities(t, ms[..|ms| - 1]);
    }
  }

  // ---------------------------------------------------------------- records

  /** A row of the standings table: the record with its goal difference. */
  datatype Standing = Standing(team: string, pts: nat, pj: nat, pg: nat, pe: nat, pp: nat,
                               gf: nat, gc: nat, dg: int)

  function RowOf(t: string, ms: seq<Match>): Standing {
    var c := TallyOf(t, ms);
    Standing(t, c.pts, c.pj, c.pg, c.pe, c.pp, c.gf, c.gc, c.gf - c.gc)
  }

  /** The counters of a row, without its name and goal difference. */
  function Counters(r: Standing): Tally {
    Tally(r.pts, r.pj, r.pg, r.pe, r.pp, r.gf, r.gc)
  }

  /** A team's row keeps played = won + drawn + lost, points = 3 * won + drawn and
      goal difference = goals for - goals against (web/main.js:57-70). */
  lemma RowIdentities(t: string, ms: seq<Match>)
    ensures RowOf(t, ms).team == t
    ensures RowOf(t, ms).pj == RowOf(t, ms).pg + RowOf(t, ms).pe + RowOf(t, ms).pp
    ensures RowOf(t, ms).pts == 3 * RowOf(t, ms).pg + RowOf(t, ms).pe
    ensures RowOf(t, ms).dg == RowOf(t, ms).gf - RowOf(t, ms).gc
    ensures Counters(RowOf(t, ms)) == TallyOf(t, ms)
  {
    TallyIdentities(t, ms);
  }

  lemma RowFromCounters(row: Standing, ms: seq<Match>)
    requires Counters(row) == TallyOf(row.team, ms) && row.dg == row.gf - row.gc
    ensures row == RowOf(row.team, ms)
  {
  }

  /** The mutable record `{ team, pts, pj, pg, pe, pp, gf, gc, dg }` of
      web/main.js:54. */
  class TeamRecord {
    const team: string
    var pts: nat
    var pj: nat
    var pg: nat
    var pe: nat
    var pp: nat
    var gf: nat
    var gc: nat
    var dg: int

    function Counts(): Tally
      reads this
    {
      Tally(pts, pj, pg, pe, pp, gf, gc)
    }

    /** The row this record becomes, with its goal difference filled in. */
    function Row(): Standing
      reads this
    {
      Standing(team, pts, pj, pg, pe, pp, gf, gc, gf - gc)
    }

    constructor (t: string)
      ensures team == t && Counts() == Zero() && dg == 0
    {
      team := t;
      pts, pj, pg, pe, pp, gf, gc, dg := 0, 0, 0, 0, 0, 0, 0, 0;
    }
  }

  // ---------------------------------------------------------------- ranking

  /** Lexicographic order of names by code point: `a` sorts before `b`. */
  predicate NameBefore(a: string, b: string) {
    if a == [] then b != []
    else b != [] && (a[0] < b[0] || (a[0] == b[0] && NameBefore(a[1..], b[1..])))
  }

  lemma {:induction false} NameBeforeIrreflexive(a: string)
    ensures !NameBefore(a, a)
  {
    if a != [] {
      NameBeforeIrreflexive(a[1..]);
    }
  }

  lemma {:induction false} NameBeforeTransitive(a: string, b: string, c: string)
    requires NameBefore(a, b) && NameBefore(b, c)
    ensures NameBefore(a, c)
  {
    if a != [] && a[0] == b[0] && b[0] == c[0] {
      NameBeforeTransitive(a[1..], b[1..], c[1..]);
    }
  }

  lemma {:induction false} NameBeforeConnected(a: string, b: string)
    requires a != b
    ensures NameBefore(a, b) || NameBefore(b, a)
  {
    if a != [] && b != [] && a[0] == b[0] {
      assert a == [a[0]] + a[1..] && b == [b[0]] + b[1..];
      NameBeforeConnected(a[1..], b[1..]);
    }
  }

  /** Names sort as a strict total order. */
  lemma NameOrder()
    ensures forall a: string :: !NameBefore(a, a)
    ensures forall a: string, b: string, c: string :: NameBefore(a, b) && NameBefore(b, c) ==> NameBefore(a, c)
    ensures forall a: string, b: string :: a != b ==> NameBefore(a, b) || NameBefore(b, a)
  {
    forall a ensures !NameBefore(a, a) {
      NameBeforeIrreflexive(a);
    }
    forall a, b, c | NameBefore(a, b) && NameBefore(b, c) ensures NameBefore(a, c) {
      NameBeforeTransitive(a, b, c);
    }
    forall a, b | a != b ensures NameBefore(a, b) || NameBefore(b, a) {
      NameBeforeConnected(a, b);
    }
  }

  /** The comparator of web/main.js:73-78: `x` ranks above `y` on more points, then
      a larger goal difference, then more goals for, then the earlier name. */
  predicate RowBefore(x: Standing, y: Standing) {
    || x.pts > y.pts
    || (x.pts == y.pts && x.dg > y.dg)
    || (x.pts == y.pts && x.dg == y.dg && x.gf > y.gf)
    || (x.pts == y.pts && x.dg == y.dg && x.gf == y.gf && NameBefore(x.team, y.team))
  }

  lemma RowBeforeIrreflexive(x: Standing)
    ensures !RowBefore(x, x)
  {
    NameBeforeIrreflexive(x.team);
  }

  lemma RowBeforeTransitive(x: Standing, y: Standing, z: Standing)
    requires RowBefore(x, y) && RowBefore(y, z)
    ensures RowBefore(x, z)
  {
    if x.pts == y.pts == z.pts && x.dg == y.dg == z.dg && x.gf == y.gf == z.gf {
      NameBeforeTransitive(x.team, y.team, z.team);
    }
  }

  /** Rows with different names are always ranked one way or the other. */
  lemma RowBeforeConnected(x: Standing, y: Standing)
    requires x.team != y.team
    ensures RowBefore(x, y) || RowBefore(y, x)
  {
    NameBeforeConnected(x.team, y.team);
  }

  /** Strictly ranked: every row sorts before every later one. */
  predicate Ranked(rows: seq<Standing>) {
    forall i, j :: 0 <= i < j < |rows| ==> RowBefore(rows[i], rows[j])
  }

  predicate DistinctTeams(rows: seq<Standing>) {
    NoRepeats(TeamNames(rows))
  }

  function TeamSet(rows: seq<Standing>): set<string> {
    set i | 0 <= i < |rows| :: rows[i].team
  }

  /** Insertion of one row into a ranked list: before the first row it ranks above. */
  function InsertRow(x: Standing, rows: seq<Standing>): (r: seq<Standing>)
    ensures multiset(r) == multiset(rows) + multiset{x}
  {
    if rows == [] then [x]
    else if RowBefore(rows[0], x) then
      assert rows == [rows[0]] + rows[1..];
      [rows[0]] + InsertRow(x, rows[1..])
    else
      [x] + rows
  }

  /** Inserting a row whose name is new keeps a list ranked. */
  lemma {:induction false} InsertRowRanked(x: Standing, rows: seq<Standing>)
    requires Ranked(rows)
    requires forall i :: 0 <= i < |rows| ==> rows[i].team != x.team
    ensures Ranked(InsertRow(x, rows))
  {
    if rows != [] {
      if RowBefore(rows[0], x) {
        var tail := InsertRow(x, rows[1..]);
        InsertRowRanked(x, rows[1..]);
        forall y | y in tail ensures RowBefore(rows[0], y) {
          assert y in multiset(tail);
          if y != x {
            var k :| 0 <= k < |rows[1..]| && rows[1..][k] == y;
            assert RowBefore(rows[0], rows[k + 1]);
          }
        }
      } else {
        RowBeforeConnected(x, rows[0]);
        forall j | 0 < j < |rows| ensures RowBefore(x, rows[j]) {
          RowBeforeTransitive(x, rows[0], rows[j]);
        }
      }
    }
  }

  /** `rows.sort(...)` with the comparator `RowBefore`, as insertion sort. */
  function SortRows(rows: seq<Standing>): (r: seq<Standing>)
    ensures multiset(r) == multiset(rows)
  {
    if rows == [] then []
    else
      assert rows == [rows[0]] + rows[1..];
      InsertRow(rows[0], SortRows(rows[1..]))
  }

  /** Sorting rows whose names are distinct ranks them strictly. */
  lemma {:induction false} SortRowsRanked(rows: seq<Standing>)
    requires DistinctTeams(rows)
    ensures Ranked(SortRows(rows))
  {
    if rows != [] {
      var rest := SortRows(rows[1..]);
      SortRowsRanked(rows[1..]);
      forall i | 0 <= i < |rest| ensures rest[i].team != rows[0].team {
        assert rest[i] in multiset(rows[1..]);
        var k :| 0 <= k < |rows[1..]| && rows[1..][k] == rest[i];
        assert rows[k + 1] == rest[i];
      }
      InsertRowRanked(rows[0], rest);
    }
  }

  // ---------------------------------------------------------------- the table

  /** What `computeStandings` returns for `ms`: one row per team named in `ms`,
      holding that team's record, strictly ranked. */
  predicate IsTable(ms: seq<Match>, rows: seq<Standing>) {
    && Ranked(rows)
    && (forall i :: 0 <= i < |rows| ==> rows[i] == RowOf(rows[i].team, ms))
    && TeamSet(rows) == TeamsOf(ms)
  }

  /** The `Set` of team names of web/main.js:46-50, as its insertion order: every
      name once, each where it first appears. */
  method CollectTeams(matches: seq<Match>) returns (teams: seq<string>)
    ensures NoRepeats(teams)
    ensures forall t :: t in teams <==> t in TeamsOf(matches)
  {
    teams := [];
    for i := 0 to |matches|
      invariant NoRepeats(teams)
      invariant forall t :: t in teams <==> t in TeamsOf(matches[..i])
    {
      TeamsStep(matches, i);
      if matches[i].home !in teams {
        teams := teams + [matches[i].home];
      }
      if matches[i].away !in teams {
        teams := teams + [matches[i].away];
      }
    }
    assert matches[..|matches|] == matches;
  }

  /** The `Map` of web/main.js:52-55: a fresh, empty record for each team,
      keyed by its name. */
  method NewTable(teams: seq<string>) returns (table: map<string, TeamRecord>)
    ensures forall t :: t in table <==> t in teams
    ensures forall t :: t in table ==> fresh(table[t]) && table[t].team == t && table[t].Counts() == Zero()
  {
    table := map[];
    for k := 0 to |teams|
      invariant forall t :: t in table <==> t in teams[..k]
      invariant forall t :: t in table ==> fresh(table[t]) && table[t].team == t && table[t].Counts() == Zero()
    {
      var r := new TeamRecord(teams[k]);
      table := table[teams[k] := r];
    }
    assert teams[..|teams|] == teams;
  }

  /** `computeStandings` (web/main.js:45-81). */
  method ComputeStandings(matches: seq<Match>) returns (rows: seq<Standing>)
    ensures IsTable(matches, rows)
  {
    var teams := CollectTeams(matches);

    var table := NewTable(teams);

    PlayAll(matches, table);

    var unsorted := RowsOf(teams, table);
    forall j | 0 <= j < |teams| ensures unsorted[j] == RowOf(teams[j], matches) {
      RowFromCounters(unsorted[j], matches);
    }

    rows := SortRows(unsorted);
    assert DistinctTeams(unsorted);
    SortRowsRanked(unsorted);
    UnsortedToTable(matches, teams, unsorted, rows);
  }

  /** The loop of web/main.js:57-68: every match updates its two records in
      place, the same record twice when a team plays itself. */
  method PlayAll(matches: seq<Match>, table: map<string, TeamRecord>)
    requires forall t :: t in table <==> t in TeamsOf(matches)
    requires forall t :: t in table ==> table[t].team == t && table[t].Counts() == Zero()
    modifies table.Values
    ensures forall t :: t in table ==> table[t].Counts() == TallyOf(t, matches)
  {
    for i := 0 to |matches|
      invariant forall t :: t in table ==> table[t].Counts() == TallyOf(t, matches[..i])
    {
      PlayNext(matches, i, table);
    }
    assert matches[..|matches|] == matches;
  }

  /** One pass of that loop: the records after `matches[..i]` become the records
      after `matches[..i + 1]`. */
  method PlayNext(matches: seq<Match>, i: nat, table: map<string, TeamRecord>)
    requires i < |matches|
    requires forall t :: t in table <==> t in TeamsOf(matches)
    requires forall t :: t in table ==> table[t].team == t
    requires forall t :: t in table ==> table[t].Counts() == TallyOf(t, matches[..i])
    modifies table.Values
    ensures forall t :: t in table ==> table[t].Counts() == TallyOf(t, matches[..i + 1])
  {
    var m := matches[i];
    PlayersListed(matches, i);
    var h := table[m.home];
    var a := table[m.away];
    assert h == a <==> m.home == m.away by {
      assert h.team == m.home && a.team == m.away;
    }
    ghost var before := map t | t in table :: table[t].Counts();
    Play(h, a, m);
    forall t | t in table ensures table[t].Counts() == TallyOf(t, matches[..i + 1]) {
      TallyStep(t, matches, i);
      var r := table[t];
      if t != m.home && t != m.away {
        assert r != h && r != a by {
          assert r.team == t;
        }
        assert r.Counts() == before[t];
        ShareOfBystander(t, m);
        PlusZero(before[t]);
      }
    }
  }

  /** `[...table.values()].map(r => ({ ...r, dg: r.gf - r.gc }))`
      (web/main.js:70), with `teams` the table's insertion order. */
  method RowsOf(teams: seq<string>, table: map<string, TeamRecord>) returns (unsorted: seq<Standing>)
    requires forall t :: t in teams ==> t in table
    ensures |unsorted| == |teams|
    ensures forall j :: 0 <= j < |teams| ==> unsorted[j] == table[teams[j]].Row()
  {
    unsorted := [];
    for k := 0 to |teams|
      invariant |unsorted| == k
      invariant forall j :: 0 <= j < k ==> unsorted[j] == table[teams[j]].Row()
    {
      unsorted := unsorted + [table[teams[k]].Row()];
    }
  }

  /** The in-place updates of web/main.js:58-67 for one match, with `h` the home
      record and `a` the away record, possibly the same object. */
  method Play(h: TeamRecord, a: TeamRecord, m: Match)
    modifies h, a
    ensures h.dg == old(h.dg) && a.dg == old(a.dg)
    ensures h == a ==> h.Counts() == old(h.Counts()).Plus(SelfSide(m))
    ensures h != a ==> h.Counts() == old(h.Counts()).Plus(HomeSide(m))
    ensures h != a ==> a.Counts() == old(a.Counts()).Plus(AwaySide(m))
  {
    h.pj := h.pj + 1; a.pj := a.pj + 1;
    h.gf := h.gf + m.hg; h.gc := h.gc + m.ag;
    a.gf := a.gf + m.ag; a.gc := a.gc + m.hg;
    Result(h, a, m);
  }

  /** The outcome updates of web/main.js:65-67: a win, a loss or a draw. */
  method Result(h: TeamRecord, a: TeamRecord, m: Match)
    modifies h, a
    ensures h.pj == old(h.pj) && h.gf == old(h.gf) && h.gc == old(h.gc) && h.dg == old(h.dg)
    ensures a.pj == old(a.pj) && a.gf == old(a.gf) && a.gc == old(a.gc) && a.dg == old(a.dg)
    ensures h == a ==> (&& h.pts == old(h.pts) + SelfSide(m).pts && h.pg == old(h.pg) + SelfSide(m).pg
                        && h.pe == old(h.pe) + SelfSide(m).pe && h.pp == old(h.pp) + SelfSide(m).pp)
    ensures h != a ==> (&& h.pts == old(h.pts) + HomeSide(m).pts && h.pg == old(h.pg) + HomeSide(m).pg
                        && h.pe == old(h.pe) + HomeSide(m).pe && h.pp == old(h.pp) + HomeSide(m).pp)
    ensures h != a ==> (&& a.pts == old(a.pts) + AwaySide(m).pts && a.pg == old(a.pg) + AwaySide(m).pg
                        && a.pe == old(a.pe) + AwaySide(m).pe && a.pp == old(a.pp) + AwaySide(m).pp)
  {
    if m.hg > m.ag {
      h.pg := h.pg + 1; a.pp := a.pp + 1; h.pts := h.pts + 3;
    } else if m.hg < m.ag {
      a.pg := a.pg + 1; h.pp := h.pp + 1; a.pts := a.pts + 3;
    } else {
      h.pe := h.pe + 1; a.pe := a.pe + 1; h.pts := h.pts + 1; a.pts := a.pts + 1;
    }
  }

  lemma UnsortedToTable(ms: seq<Match>, teams: seq<string>, unsorted: seq<Standing>, rows: seq<Standing>)
    requires NoRepeats(teams)
    requires forall t :: t in teams <==> t in TeamsOf(ms)
    requires |unsorted| == |teams|
    requires forall j :: 0 <= j < |teams| ==> unsorted[j] == RowOf(teams[j], ms)
    requires multiset(rows) == multiset(unsorted) && Ranked(rows)
    ensures IsTable(ms, rows)
  {
    SameMembers(rows, unsorted);
    forall i | 0 <= i < |rows| ensures rows[i] == RowOf(rows[i].team, ms) && rows[i].team in TeamsOf(ms) {
      assert rows[i] in rows;
      var j :| 0 <= j < |unsorted| && unsorted[j] == rows[i];
    }
    forall t | t in TeamsOf(ms) ensures t in TeamSet(rows) {
      var j :| 0 <= j < |teams| && teams[j] == t;
      assert unsorted[j] in unsorted;
      var i :| 0 <= i < |rows| && rows[i] == unsorted[j];
    }
  }

  lemma SameMembers(a: seq<Standing>, b: seq<Standing>)
    requires multiset(a) == multiset(b)
    ensures forall x :: x in a <==> x in b
  {
    forall x ensures x in a <==> x in b {
      assert x in a <==> x in multiset(a);
    }
  }

  // ---------------------------------------------------------------- one table per match list

  /** A table has one row per team: its names are distinct and as many as the
      teams named in the matches. */
  lemma TableRowsDistinct(ms: seq<Match>, rows: seq<Standing>)
    requires IsTable(ms, rows)
    ensures DistinctTeams(rows)
    ensures |rows| == |TeamsOf(ms)|
  {
    forall i, j | 0 <= i < j < |rows| ensures rows[i].team != rows[j].team {
      if rows[i].team == rows[j].team {
        RowBeforeIrreflexive(rows[i]);
      }
    }
    DistinctTeamCount(rows);
  }

  lemma {:induction false} DistinctTeamCount(rows: seq<Standing>)
    requires DistinctTeams(rows)
    ensures |TeamSet(rows)| == |rows|
  {
    if rows != [] {
      var rest := rows[1..];
      var ns := TeamNames(rows);
      assert TeamNames(rest) == ns[1..];
      DistinctTeamCount(rest);
      TeamSetCons(rows);
      forall i | 0 <= i < |rest| ensures rest[i].team != rows[0].team {
        assert ns[0] != ns[i + 1];
      }
    }
  }

  lemma TeamSetCons(rows: seq<Standing>)
    requires rows != []
    ensures TeamSet(rows) == {rows[0].team} + TeamSet(rows[1..])
  {
    var rest := rows[1..];
    forall t | t in TeamSet(rows) ensures t in {rows[0].team} + TeamSet(rest) {
      var i :| 0 <= i < |rows| && rows[i].team == t;
      if i > 0 {
        assert rest[i - 1].team == t;
      }
    }
    forall t | t in TeamSet(rest) ensures t in TeamSet(rows) {
      var i :| 0 <= i < |rest| && rest[i].team == t;
      assert rows[i + 1].team == t;
    }
  }

  /** Two strictly ranked lists holding the same rows are the same list. */
  lemma {:induction false} RankedUnique(a: seq<Standing>, b: seq<Standing>)
    requires Ranked(a) && Ranked(b)
    requires forall x :: x in a <==> x in b
    ensures a == b
    decreases |a|
  {
    if a == [] {
      if b != [] {
        HasMember(b);
        assert false;
      }
    } else {
      assert a[0] in a && b != [] && b[0] in b;
      if a[0] != b[0] {
        var j :| 0 <= j < |a| && a[j] == b[0];
        var k :| 0 <= k < |b| && b[k] == a[0];
        RowBeforeTransitive(a[0], b[0], a[0]);
        RowBeforeIrreflexive(a[0]);
        assert false;
      }
      forall x ensures x in a[1..] <==> x in b[1..] {
        RankedTail(a, x);
        RankedTail(b, x);
      }
      RankedUnique(a[1..], b[1..]);
      assert a == [a[0]] + a[1..] && b == [b[0]] + b[1..];
    }
  }

  /** In a strictly ranked list the rows after the first are the others. */
  lemma RankedTail(a: seq<Standing>, x: Standing)
    requires Ranked(a) && a != []
    ensures x in a[1..] <==> x in a && x != a[0]
  {
    if x in a[1..] {
      var k :| 0 <= k < |a[1..]| && a[1..][k] == x;
      assert RowBefore(a[0], a[k + 1]);
      RowBeforeIrreflexive(a[0]);
    }
    if x in a && x != a[0] {
      var k :| 0 <= k < |a| && a[k] == x;
      assert a[1..][k - 1] == x;
    }
  }

  /** A list of matches has exactly one table: the comparator leaves no ties
      between two rows, so the order of the `Map` the rows come from does not
      matter. */
  lemma TableUnique(ms: seq<Match>, a: seq<Standing>, b: seq<Standing>)
    requires IsTable(ms, a) && IsTable(ms, b)
    ensures a == b
  {
    forall x ensures x in a <==> x in b {
      if x in a {
        TableRowOfTeam(ms, a, b, x);
      }
      if x in b {
        TableRowOfTeam(ms, b, a, x);
      }
    }
    RankedUnique(a, b);
  }

  lemma TableRowOfTeam(ms: seq<Match>, a: seq<Standing>, b: seq<Standing>, x: Standing)
    requires IsTable(ms, a) && IsTable(ms, b) && x in a
    ensures x in b
  {
    var i :| 0 <= i < |a| && a[i] == x;
    assert x.team in TeamSet(a);
    var j :| 0 <= j < |b| && b[j].team == x.team;
    assert b[j] == x;
  }

  /** A team's record depends on the blocks of its matches played together, in any
      order: the record after `a + b` is the record after `a` plus the one after `b`. */
  lemma {:induction false} TallyOfAppend(t: string, a: seq<Match>, b: seq<Match>)
    ensures TallyOf(t, a + b) == TallyOf(t, a).Plus(TallyOf(t, b))
    decreases |b|
  {
    if b == [] {
      assert a + b == a;
    } else {
      var prior, last := b[..|b| - 1], b[|b| - 1];
      assert b == prior + [last];
      assert a + b == (a + prior) + [last];
      TallySnoc(t, a + prior, last);
      TallySnoc(t, prior, last);
      TallyOfAppend(t, a, prior);
      PlusAssociative(TallyOf(t, a), TallyOf(t, prior), Share(t, last));
    }
  }

  lemma TallySnoc(t: string, ms: seq<Match>, m: Match)
    ensures TallyOf(t, ms + [m]) == TallyOf(t, ms).Plus(Share(t, m))
  {
    assert (ms + [m])[..|ms|] == ms;
  }

  lemma ZeroPlus(x: Tally)
    ensures Zero().Plus(x) == x
  {
  }

  lemma PlusZero(x: Tally)
    ensures x.Plus(Zero()) == x
  {
  }

  lemma PlusAssociative(x: Tally, y: Tally, z: Tally)
    ensures x.Plus(y).Plus(z) == x.Plus(y.Plus(z))
  {
  }

  lemma PlusCommutative(x: Tally, y: Tally)
    ensures x.Plus(y) == y.Plus(x)
  {
  }

  /** Permuting the matches leaves every record unchanged. */
  lemma {:induction false} TallyPermutation(t: string, ms1: seq<Match>, ms2: seq<Match>)
    requires multiset(ms1) == multiset(ms2)
    ensures TallyOf(t, ms1) == TallyOf(t, ms2)
    decreases |ms1|
  {
    if ms1 == [] {
      assert |ms2| == |multiset(ms2)| == 0;
    } else {
      var x := ms1[|ms1| - 1];
      var rest1 := ms1[..|ms1| - 1];
      assert ms1 == rest1 + [x];
      var before, after := RemoveOne(ms2, rest1, x);
      TallyPermutation(t, rest1, before + after);
      TallySnoc(t, rest1, x);
      TallyMoveLast(t, before, x, after);
    }
  }

  /** Cuts `ms` around one occurrence of `x`, where `ms` is `rest` with `x` added. */
  lemma RemoveOne<T>(ms: seq<T>, rest: seq<T>, x: T) returns (before: seq<T>, after: seq<T>)
    requires multiset(ms) == multiset(rest + [x])
    ensures ms == before + [x] + after
    ensures multiset(before + after) == multiset(rest)
  {
    assert x in multiset(rest + [x]);
    var k :| 0 <= k < |ms| && ms[k] == x;
    before, after := ms[..k], ms[k + 1..];
    assert ms == before + [x] + after;
    var r := multiset(before + after);
    assert multiset(ms) == r + multiset{x};
    assert multiset(rest + [x]) == multiset(rest) + multiset{x};
    assert r == multiset(rest) by {
      forall y ensures r[y] == multiset(rest)[y] {
        assert (r + multiset{x})[y] == (multiset(rest) + multiset{x})[y];
      }
    }
  }

  /** Moving one match to the end does not change a record. */
  lemma TallyMoveLast(t: string, before: seq<Match>, x: Match, after: seq<Match>)
    ensures TallyOf(t, before + [x] + after) == TallyOf(t, before + after).Plus(Share(t, x))
  {
    var tb, ta, tx := TallyOf(t, before), TallyOf(t, after), Share(t, x);
    TallySnoc(t, before, x);
    TallyOfAppend(t, before, after);
    TallyOfAppend(t, before + [x], after);
    PlusAssociative(tb, ta, tx);
    PlusAssociative(tb, tx, ta);
    PlusCommutative(ta, tx);
  }

  /** Permuting the matches leaves the set of teams unchanged. */
  lemma TeamsPermutation(ms1: seq<Match>, ms2: seq<Match>)
    requires multiset(ms1) == multiset(ms2)
    ensures TeamsOf(ms1) == TeamsOf(ms2)
  {
    forall t | t in TeamsOf(ms1) ensures t in TeamsOf(ms2) {
      TeamsIn(t, ms1, ms2);
    }
    forall t | t in TeamsOf(ms2) ensures t in TeamsOf(ms1) {
      TeamsIn(t, ms2, ms1);
    }
  }

  lemma TeamsIn(t: string, ms1: seq<Match>, ms2: seq<Match>)
    requires multiset(ms1) == multiset(ms2) && t in TeamsOf(ms1)
    ensures t in TeamsOf(ms2)
  {
    TeamsOfMembers(ms1, t);
    var i :| 0 <= i < |ms1| && (ms1[i].home == t || ms1[i].away == t);
    assert ms1[i] in multiset(ms2);
    var j :| 0 <= j < |ms2| && ms2[j] == ms1[i];
    TeamsOfMembers(ms2, t);
  }

  /** Permuting the input matches yields the identical table (web/main.js:45-81). */
  lemma TableIgnoresMatchOrder(ms1: seq<Match>, ms2: seq<Match>, rows1: seq<Standing>, rows2: seq<Standing>)
    requires multiset(ms1) == multiset(ms2)
    requires IsTable(ms1, rows1) && IsTable(ms2, rows2)
    ensures rows1 == rows2
  {
    TeamsPermutation(ms1, ms2);
    forall i | 0 <= i < |rows1| ensures rows1[i] == RowOf(rows1[i].team, ms2) {
      TallyPermutation(rows1[i].team, ms1, ms2);
    }
    TableUnique(ms2, rows1, rows2);
  }

  // ---------------------------------------------------------------- totals

  /** The counters of `rows`, added up column by column. */
  function Totals(rows: seq<Standing>): Tally {
    if rows == [] then Zero() else Counters(rows[0]).Plus(Totals(rows[1..]))
  }

  /** The goal differences of `rows`, added up. */
  function DgSum(rows: seq<Standing>): int {
    if rows == [] then 0 else rows[0].dg + DgSum(rows[1..])
  }

  /** The number of matches with a winner. */
  function Decisive(ms: seq<Match>): (n: nat)
    ensures n <= |ms|
  {
    if ms == [] then 0
    else Decisive(ms[..|ms| - 1]) + (if ms[|ms| - 1].hg != ms[|ms| - 1].ag then 1 else 0)
  }

  /** The goals scored in `ms`, by either side. */
  function Goals(ms: seq<Match>): nat {
    if ms == [] then 0 else Goals(ms[..|ms| - 1]) + ms[|ms| - 1].hg + ms[|ms| - 1].ag
  }

  /** The names of `rows`, in order. */
  function TeamNames(rows: seq<Standing>): (ns: seq<string>)
    ensures |ns| == |rows|
    ensures forall i :: 0 <= i < |rows| ==> ns[i] == rows[i].team
  {
    if rows == [] then [] else [rows[0].team] + TeamNames(rows[1..])
  }

  /** The records of the teams `ns` after `ms`, added up. */
  function NamesTally(ns: seq<string>, ms: seq<Match>): Tally {
    if ns == [] then Zero() else TallyOf(ns[0], ms).Plus(NamesTally(ns[1..], ms))
  }

  /** What one match adds to the teams `ns`, added up. */
  function NamesShare(ns: seq<string>, m: Match): Tally {
    if ns == [] then Zero() else Share(ns[0], m).Plus(NamesShare(ns[1..], m))
  }

  /** What the two sides of a match gain between them. */
  function BothSides(m: Match): Tally {
    HomeSide(m).Plus(AwaySide(m))
  }

  /** What the matches `ms` hand out between both sides, added up. */
  function MatchesTally(ms: seq<Match>): Tally {
    if ms == [] then Zero() else MatchesTally(ms[..|ms| - 1]).Plus(BothSides(ms[|ms| - 1]))
  }

  lemma {:induction false} NamesTallyOfNone(ns: seq<string>)
    ensures NamesTally(ns, []) == Zero()
  {
    if ns != [] {
      NamesTallyOfNone(ns[1..]);
      assert TallyOf(ns[0], []) == Zero();
      ZeroPlus(Zero());
    }
  }

  lemma {:induction false} NamesTallyStep(ns: seq<string>, ms: seq<Match>, m: Match)
    ensures NamesTally(ns, ms + [m]) == NamesTally(ns, ms).Plus(NamesShare(ns, m))
  {
    if ns != [] {
      NamesTallyStep(ns[1..], ms, m);
      TallySnoc(ns[0], ms, m);
      var a, b := TallyOf(ns[0], ms), Share(ns[0], m);
      var c, d := NamesTally(ns[1..], ms), NamesShare(ns[1..], m);
      PlusAssociative(a, b, c.Plus(d));
      PlusAssociative(b, c, d);
      PlusCommutative(b, c);
      PlusAssociative(c, b, d);
      PlusAssociative(a, c, b.Plus(d));
    }
  }

  /** Among distinct names, a match adds to its home and to its away team, to the
      one record twice over when the two are the same, and to nobody else. */
  lemma {:induction false} NamesShareOfDistinct(ns: seq<string>, m: Match)
    requires NoRepeats(ns)
    ensures m.home in ns && m.away in ns ==> NamesShare(ns, m) == BothSides(m)
    ensures m.home !in ns && m.away !in ns ==> NamesShare(ns, m) == Zero()
    ensures m.home != m.away && m.home in ns && m.away !in ns ==> NamesShare(ns, m) == HomeSide(m)
    ensures m.home != m.away && m.home !in ns && m.away in ns ==> NamesShare(ns, m) == AwaySide(m)
  {
    if ns != [] {
      var rest := ns[1..];
      assert NoRepeats(rest);
      assert ns[0] !in rest;
      assert forall t :: t in ns <==> t == ns[0] || t in rest;
      NamesShareOfDistinct(rest, m);
      var t := ns[0];
      if t == m.home && t == m.away {
        SelfSideIsBoth(m);
        PlusZero(SelfSide(m));
      } else if t == m.home {
        PlusZero(HomeSide(m));
      } else if t == m.away {
        PlusZero(AwaySide(m));
        PlusCommutative(AwaySide(m), HomeSide(m));
      } else {
        ShareOfBystander(t, m);
        ZeroPlus(NamesShare(rest, m));
      }
    }
  }

  /** Added up over the distinct teams that play them, the records after `ms` hold
      what the matches hand out to both sides. */
  lemma {:induction false} NamesTallyIsMatchesTally(ns: seq<string>, ms: seq<Match>)
    requires NoRepeats(ns)
    requires forall i :: 0 <= i < |ms| ==> ms[i].home in ns && ms[i].away in ns
    ensures NamesTally(ns, ms) == MatchesTally(ms)
  {
    if ms == [] {
      NamesTallyOfNone(ns);
    } else {
      var prior, last := ms[..|ms| - 1], ms[|ms| - 1];
      assert ms == prior + [last];
      NamesTallyIsMatchesTally(ns, prior);
      NamesTallyStep(ns, prior, last);
      NamesShareOfDistinct(ns, last);
    }
  }

  /** What all matches hand out: two games played per match, one win and one loss
      per decided match, two draws per drawn match, three points per decided
      match and two per drawn one, and as many goals against as goals for. */
  lemma {:induction false} MatchesTallyCounts(ms: seq<Match>)
    ensures MatchesTally(ms) == Tally(3 * Decisive(ms) + 2 * (|ms| - Decisive(ms)), 2 * |ms|,
                                      Decisive(ms), 2 * (|ms| - Decisive(ms)), Decisive(ms),
                                      Goals(ms), Goals(ms))
  {
    if ms != [] {
      MatchesTallyCounts(ms[..|ms| - 1]);
    }
  }

  /** The rows' counters add up to the records of their teams. */
  lemma {:induction false} TotalsOfRows(rows: seq<Standing>, ms: seq<Match>)
    requires forall i :: 0 <= i < |rows| ==> Counters(rows[i]) == TallyOf(rows[i].team, ms)
    ensures Totals(rows) == NamesTally(TeamNames(rows), ms)
  {
    if rows != [] {
      TotalsOfRows(rows[1..], ms);
      assert TeamNames(rows)[1..] == TeamNames(rows[1..]);
    }
  }

  /** Goal differences add up to goals for minus goals against. */
  lemma {:induction false} DgSumOfRows(rows: seq<Standing>)
    requires forall i :: 0 <= i < |rows| ==> rows[i].dg == rows[i].gf - rows[i].gc
    ensures DgSum(rows) == Totals(rows).gf - Totals(rows).gc
  {
    if rows != [] {
      DgSumOfRows(rows[1..]);
    }
  }

  /** Conservation across the table (web/main.js:57-70): the games played add up
      to twice the matches, wins and losses each to the decided matches, draws to
      twice the drawn ones, points to three per decided and two per drawn match,
      goals for and goals against to the goals scored, goal differences to zero. */
  lemma TableTotals(ms: seq<Match>, rows: seq<Standing>)
    requires IsTable(ms, rows)
    ensures Totals(rows).pj == 2 * |ms|
    ensures Totals(rows).pg == Decisive(ms) && Totals(rows).pp == Decisive(ms)
    ensures Totals(rows).pe == 2 * (|ms| - Decisive(ms))
    ensures Totals(rows).pts == 3 * Decisive(ms) + 2 * (|ms| - Decisive(ms))
    ensures Totals(rows).gf == Goals(ms) && Totals(rows).gc == Goals(ms)
    ensures DgSum(rows) == 0
  {
    TableRowsDistinct(ms, rows);
    var ns := TeamNames(rows);
    forall i | 0 <= i < |ms| ensures ms[i].home in ns && ms[i].away in ns {
      PlayersListed(ms, i);
      NameListed(rows, ms[i].home);
      NameListed(rows, ms[i].away);
    }
    forall i | 0 <= i < |rows| ensures Counters(rows[i]) == TallyOf(rows[i].team, ms) {
      RowIdentities(rows[i].team, ms);
    }
    TotalsOfRows(rows, ms);
    NamesTallyIsMatchesTally(ns, ms);
    MatchesTallyCounts(ms);
    DgSumOfRows(rows);
  }

  lemma NameListed(rows: seq<Standing>, t: string)
    requires t in TeamSet(rows)
    ensures t in TeamNames(rows)
  {
    var i :| 0 <= i < |rows| && rows[i].team == t;
    assert TeamNames(rows)[i] == t;
  }
}
