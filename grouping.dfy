/** `groupByJornada` (web/main.js:83-90): the matches bucketed by round in a `Map`
    of arrays, each bucket filled in input order, then the buckets sorted by
    round. */
module Grouping {
  import opened Text
  import opened Parser

  /** One `[round, matches]` entry of the result. */
  datatype Group = Group(jornada: nat, matches: seq<Match>)

  /** The rounds that some match of `ms` belongs to. */
  function RoundsOf(ms: seq<Match>): set<nat> {
    if ms == [] then {} else RoundsOf(ms[..|ms| - 1]) + {ms[|ms| - 1].jornada}
  }

  /** The rounds of `ms` in order of first appearance: a round joins the list at
      its first match and never again. */
  function FirstSeen(ms: seq<Match>): seq<nat> {
    if ms == [] then []
    else
      var prior := FirstSeen(ms[..|ms| - 1]);
      if ms[|ms| - 1].jornada in prior then prior else prior + [ms[|ms| - 1].jornada]
  }

  /** Each round is listed once, and exactly the rounds of `ms` are listed. */
  lemma {:induction false} FirstSeenRounds(ms: seq<Match>)
    ensures NoRepeats(FirstSeen(ms))
    ensures forall r :: r in FirstSeen(ms) <==> r in RoundsOf(ms)
  {
    if ms != [] {
      FirstSeenRounds(ms[..|ms| - 1]);
    }
  }

  /** The matches of round `r`, in input order. */
  function OfRound(ms: seq<Match>, r: nat): (g: seq<Match>)
    ensures forall i :: 0 <= i < |g| ==> g[i].jornada == r
  {
    if ms == [] then []
    else OfRound(ms[..|ms| - 1], r) + (if ms[|ms| - 1].jornada == r then [ms[|ms| - 1]] else [])
  }

  lemma OfRoundStep(ms: seq<Match>, i: nat, r: nat)
    requires i < |ms|
    ensures OfRound(ms[..i + 1], r) == OfRound(ms[..i], r) + (if ms[i].jornada == r then [ms[i]] else [])
    ensures RoundsOf(ms[..i + 1]) == RoundsOf(ms[..i]) + {ms[i].jornada}
  {
    assert ms[..i + 1][..i] == ms[..i];
  }

  lemma FirstSeenStep(ms: seq<Match>, i: nat)
    requires i < |ms|
    ensures FirstSeen(ms[..i + 1])
         == if ms[i].jornada in FirstSeen(ms[..i]) then FirstSeen(ms[..i]) else FirstSeen(ms[..i]) + [ms[i].jornada]
  {
    assert ms[..i + 1][..i] == ms[..i];
  }

  /** Reading match `i` extends the list of round `r` exactly when the match
      belongs to it. */
  lemma OfRoundPrefixStep(ms: seq<Match>, i: nat)
    requires i < |ms|
    ensures forall r :: OfRound(ms[..i + 1], r) == OfRound(ms[..i], r) + (if ms[i].jornada == r then [ms[i]] else [])
  {
    forall r ensures OfRound(ms[..i + 1], r) == OfRound(ms[..i], r) + (if ms[i].jornada == r then [ms[i]] else []) {
      OfRoundStep(ms, i, r);
    }
  }

  /** A round has matches exactly when some match belongs to it. */
  lemma {:induction false} RoundsOfMembers(ms: seq<Match>, r: nat)
    ensures r in RoundsOf(ms) <==> OfRound(ms, r) != []
  {
    if ms != [] {
      RoundsOfMembers(ms[..|ms| - 1], r);
    }
  }

  /** The rounds of `gs`, in order. */
  function Keys(gs: seq<Group>): (ks: seq<nat>)
    ensures |ks| == |gs|
    ensures forall i :: 0 <= i < |gs| ==> ks[i] == gs[i].jornada
  {
    if gs == [] then [] else [gs[0].jornada] + Keys(gs[1..])
  }

  /** Strictly ascending rounds. */
  predicate Ascending(gs: seq<Group>) {
    forall i, j :: 0 <= i < j < |gs| ==> gs[i].jornada < gs[j].jornada
  }

  /** What `groupByJornada` returns for `ms`: one group per round of `ms`, in
      ascending order of round, holding the matches of that round in input
      order. */
  ghost predicate IsGrouping(ms: seq<Match>, gs: seq<Group>) {
    && Ascending(gs)
    && (forall i :: 0 <= i < |gs| ==> gs[i].matches == OfRound(ms, gs[i].jornada))
    && (forall r :: r in Keys(gs) <==> r in RoundsOf(ms))
  }

  // ---------------------------------------------------------------- sorting

  /** Insertion of one group into a list in ascending order of round. */
  function InsertGroup(g: Group, gs: seq<Group>): (r: seq<Group>)
    ensures multiset(r) == multiset(gs) + multiset{g}
  {
    if gs == [] then [g]
    else if gs[0].jornada < g.jornada then
      assert gs == [gs[0]] + gs[1..];
      [gs[0]] + InsertGroup(g, gs[1..])
    else
      [g] + gs
  }

  lemma {:induction false} InsertGroupAscending(g: Group, gs: seq<Group>)
    requires Ascending(gs)
    requires forall i :: 0 <= i < |gs| ==> gs[i].jornada != g.jornada
    ensures Ascending(InsertGroup(g, gs))
  {
    if gs != [] && gs[0].jornada < g.jornada {
      var tail := InsertGroup(g, gs[1..]);
      InsertGroupAscending(g, gs[1..]);
      forall y | y in tail ensures gs[0].jornada < y.jornada {
        assert y in multiset(tail);
        if y != g {
          var k :| 0 <= k < |gs[1..]| && gs[1..][k] == y;
          assert gs[0].jornada < gs[k + 1].jornada;
        }
      }
    }
  }

  /** `entries.sort((a, b) => a[0] - b[0])`, as insertion sort. */
  function SortGroups(gs: seq<Group>): (r: seq<Group>)
    ensures multiset(r) == multiset(gs)
  {
    if gs == [] then []
    else
      assert gs == [gs[0]] + gs[1..];
      InsertGroup(gs[0], SortGroups(gs[1..]))
  }

  /** Sorting groups with distinct rounds puts them in strictly ascending order. */
  lemma {:induction false} SortGroupsAscending(gs: seq<Group>)
    requires NoRepeats(Keys(gs))
    ensures Ascending(SortGroups(gs))
  {
    if gs != [] {
      var rest := SortGroups(gs[1..]);
      assert Keys(gs[1..]) == Keys(gs)[1..];
      SortGroupsAscending(gs[1..]);
      forall i | 0 <= i < |rest| ensures rest[i].jornada != gs[0].jornada {
        assert rest[i] in multiset(gs[1..]);
        var k :| 0 <= k < |gs[1..]| && gs[1..][k] == rest[i];
        assert Keys(gs)[k + 1] == rest[i].jornada;
      }
      InsertGroupAscending(gs[0], rest);
    }
  }

  // ---------------------------------------------------------------- the method

  /** `groupByJornada` (web/main.js:83-90). */
  method GroupByJornada(matches: seq<Match>) returns (groups: seq<Group>)
    ensures IsGrouping(matches, groups)
  {
    var buckets, keys := Bucket(matches);
    var entries := Entries(keys, buckets);
    groups := SortGroups(entries);
    assert Keys(entries) == keys;
    SortGroupsAscending(entries);
    EntriesToGrouping(matches, keys, entries, groups);
  }

  /** The loop of web/main.js:85-88: the `Map` from each round to the array of its
      matches, created on the round's first match and pushed to on every match,
      with `keys` the `Map`'s insertion order. */
  method Bucket(matches: seq<Match>) returns (buckets: map<nat, seq<Match>>, keys: seq<nat>)
    ensures keys == FirstSeen(matches)
    ensures NoRepeats(keys)
    ensures forall r :: r in buckets <==> r in keys
    ensures forall r :: r in keys <==> r in RoundsOf(matches)
    ensures forall r :: r in buckets ==> buckets[r] == OfRound(matches, r)
  {
    buckets, keys := map[], [];
    for i := 0 to |matches|
      invariant keys == FirstSeen(matches[..i])
      invariant forall r :: r in buckets <==> r in keys
      invariant forall r :: r in buckets ==> buckets[r] == OfRound(matches[..i], r)
    {
      var m := matches[i];
      OfRoundPrefixStep(matches, i);
      FirstSeenStep(matches, i);
      if m.jornada !in buckets {
        FirstSeenRounds(matches[..i]);
        RoundsOfMembers(matches[..i], m.jornada);
        buckets := buckets[m.jornada := []];
        keys := keys + [m.jornada];
      }
      buckets := buckets[m.jornada := buckets[m.jornada] + [m]];
    }
    assert matches[..|matches|] == matches;
    FirstSeenRounds(matches);
  }

  /** `[...by.entries()]`: the `[round, matches]` pairs in insertion order. */
  method Entries(keys: seq<nat>, buckets: map<nat, seq<Match>>) returns (entries: seq<Group>)
    requires forall r :: r in keys ==> r in buckets
    ensures |entries| == |keys|
    ensures forall j :: 0 <= j < |keys| ==> entries[j] == Group(keys[j], buckets[keys[j]])
  {
    entries := [];
    for k := 0 to |keys|
      invariant |entries| == k
      invariant forall j :: 0 <= j < k ==> entries[j] == Group(keys[j], buckets[keys[j]])
    {
      entries := entries + [Group(keys[k], buckets[keys[k]])];
    }
  }

  lemma EntriesToGrouping(ms: seq<Match>, keys: seq<nat>, entries: seq<Group>, groups: seq<Group>)
    requires forall r :: r in keys <==> r in RoundsOf(ms)
    requires |entries| == |keys|
    requires forall j :: 0 <= j < |keys| ==> entries[j] == Group(keys[j], OfRound(ms, keys[j]))
    requires multiset(groups) == multiset(entries) && Ascending(groups)
    ensures IsGrouping(ms, groups)
  {
    forall i | 0 <= i < |groups|
      ensures groups[i].matches == OfRound(ms, groups[i].jornada) && groups[i].jornada in RoundsOf(ms)
    {
      assert groups[i] in multiset(entries);
      var j :| 0 <= j < |entries| && entries[j] == groups[i];
    }
    forall r | r in RoundsOf(ms) ensures r in Keys(groups) {
      var j :| 0 <= j < |keys| && keys[j] == r;
      assert entries[j] in multiset(groups);
      var i :| 0 <= i < |groups| && groups[i] == entries[j];
      assert Keys(groups)[i] == r;
    }
  }

  // ---------------------------------------------------------------- properties

  /** Every group of a grouping is non-empty. */
  lemma GroupsNonEmpty(ms: seq<Match>, gs: seq<Group>)
    requires IsGrouping(ms, gs)
    ensures forall i :: 0 <= i < |gs| ==> gs[i].matches != []
  {
    forall i | 0 <= i < |gs| ensures gs[i].matches != [] {
      assert Keys(gs)[i] == gs[i].jornada;
      RoundsOfMembers(ms, gs[i].jornada);
    }
  }

  /** The matches of `gs`, group after group. */
  function Flatten(gs: seq<Group>): seq<Match> {
    if gs == [] then [] else gs[0].matches + Flatten(gs[1..])
  }

  /** The matches of the rounds `ks` taken round after round. */
  function ByRounds(ks: seq<nat>, ms: seq<Match>): seq<Match> {
    if ks == [] then [] else OfRound(ms, ks[0]) + ByRounds(ks[1..], ms)
  }

  lemma {:induction false} ByRoundsStep(ks: seq<nat>, ms: seq<Match>, m: Match)
    requires NoRepeats(ks)
    ensures multiset(ByRounds(ks, ms + [m])) ==
      multiset(ByRounds(ks, ms)) + (if m.jornada in ks then multiset{m} else multiset{})
  {
    if ks != [] {
      assert NoRepeats(ks[1..]);
      assert ks[0] !in ks[1..];
      assert (ms + [m])[..|ms|] == ms;
      ByRoundsStep(ks[1..], ms, m);
    }
  }

  /** Taken round after round over distinct rounds covering them, the matches are
      the input matches, each exactly once. */
  lemma {:induction false} ByRoundsPermutes(ks: seq<nat>, ms: seq<Match>)
    requires NoRepeats(ks)
    requires forall i :: 0 <= i < |ms| ==> ms[i].jornada in ks
    ensures multiset(ByRounds(ks, ms)) == multiset(ms)
  {
    if ms == [] {
      ByRoundsOfNone(ks);
    } else {
      var prior, last := ms[..|ms| - 1], ms[|ms| - 1];
      assert ms == prior + [last];
      ByRoundsPermutes(ks, prior);
      ByRoundsStep(ks, prior, last);
    }
  }

  lemma {:induction false} ByRoundsOfNone(ks: seq<nat>)
    ensures ByRounds(ks, []) == []
  {
    if ks != [] {
      ByRoundsOfNone(ks[1..]);
    }
  }

  lemma {:induction false} FlattenIsByRounds(ms: seq<Match>, gs: seq<Group>)
    requires forall i :: 0 <= i < |gs| ==> gs[i].matches == OfRound(ms, gs[i].jornada)
    ensures Flatten(gs) == ByRounds(Keys(gs), ms)
  {
    if gs != [] {
      FlattenIsByRounds(ms, gs[1..]);
      assert Keys(gs)[1..] == Keys(gs[1..]);
    }
  }

  lemma RoundsListed(ms: seq<Match>, i: nat)
    requires i < |ms|
    ensures ms[i].jornada in RoundsOf(ms)
  {
    RoundsOfMembers(ms, ms[i].jornada);
    assert ms[..i + 1] + ms[i + 1..] == ms;
    OfRoundAppend(ms[..i + 1], ms[i + 1..], ms[i].jornada);
    OfRoundStep(ms, i, ms[i].jornada);
  }

  lemma {:induction false} OfRoundAppend(a: seq<Match>, b: seq<Match>, r: nat)
    ensures OfRound(a + b, r) == OfRound(a, r) + OfRound(b, r)
    decreases |b|
  {
    if b == [] {
      assert a + b == a;
    } else {
      var prior := b[..|b| - 1];
      assert (a + b)[..|a + b| - 1] == a + prior;
      OfRoundAppend(a, prior, r);
    }
  }

  /** Together the groups hold every input match exactly once. */
  lemma GroupingPartitions(ms: seq<Match>, gs: seq<Group>)
    requires IsGrouping(ms, gs)
    ensures multiset(Flatten(gs)) == multiset(ms)
  {
    forall i, j | 0 <= i < j < |gs| ensures Keys(gs)[i] != Keys(gs)[j] {
    }
    forall i | 0 <= i < |ms| ensures ms[i].jornada in Keys(gs) {
      RoundsListed(ms, i);
    }
    FlattenIsByRounds(ms, gs);
    ByRoundsPermutes(Keys(gs), ms);
  }

  /** Two strictly increasing lists of the same rounds are the same list. */
  lemma {:induction false} IncreasingUnique(x: seq<nat>, y: seq<nat>)
    requires Increasing(x) && Increasing(y)
    requires forall r :: r in x <==> r in y
    ensures x == y
    decreases |x|
  {
    if x == [] {
      if y != [] {
        HasMember(y);
        assert false;
      }
    } else {
      assert x[0] in x && y != [] && y[0] in y;
      var j :| 0 <= j < |x| && x[j] == y[0];
      var k :| 0 <= k < |y| && y[k] == x[0];
      assert x[0] <= x[j] && y[0] <= y[k];
      forall r ensures r in x[1..] <==> r in y[1..] {
        IncreasingTail(x, r);
        IncreasingTail(y, r);
      }
      IncreasingUnique(x[1..], y[1..]);
      assert x == [x[0]] + x[1..] && y == [y[0]] + y[1..];
    }
  }

  predicate Increasing(ks: seq<nat>) {
    forall i, j :: 0 <= i < j < |ks| ==> ks[i] < ks[j]
  }

  lemma IncreasingTail(x: seq<nat>, r: nat)
    requires Increasing(x) && x != []
    ensures r in x[1..] <==> r in x && r != x[0]
  {
    if r in x && r != x[0] {
      var k :| 0 <= k < |x| && x[k] == r;
      assert x[1..][k - 1] == r;
    }
  }

  /** A list of matches has exactly one grouping. */
  lemma GroupingUnique(ms: seq<Match>, a: seq<Group>, b: seq<Group>)
    requires IsGrouping(ms, a) && IsGrouping(ms, b)
    ensures a == b
  {
    IncreasingUnique(Keys(a), Keys(b));
    forall i | 0 <= i < |a| ensures a[i] == b[i] {
      assert a[i].jornada == Keys(a)[i] == Keys(b)[i] == b[i].jornada;
    }
  }
}
