# League table from page text — a Dafny model

This project models the league logic of `web/main.js`, a small web page. The page
fetches a football league's results page, reduces it to plain text and turns
that text into three things:

- the list of played matches;
- a standings table;
- the results grouped by round ("jornada").

The model covers the four functions that do this work:

- **`norm`** normalises a team name: each white-space run becomes one space,
  both apostrophe forms become `’`, and the ends are trimmed. The result is the
  name's words joined by single spaces (`NormIsJoinedWords`).
  *Module `Names`.*
- **`parseMatchesFromBodyText`** is a loop over the trimmed, non-blank lines.
  *Module `Parser`.*
  - A `Jornada N` header (matched case-insensitively) sets the round in effect.
    Round 0 counts as no round.
  - Bye lines (`DESCANSA`) are skipped.
  - Every other line that fits the scoreline pattern
    `^(.*?)\s{1,}(.*?)\s+(\d+)-(\d+)$` yields one match.
  - The regular expression is replaced by an explicit matcher, `FindSplit`.
    `ScoreLineIsFirstSplit` proves that the matcher returns exactly the capture
    groups a backtracking regex engine finds first.
- **`computeStandings`** builds one mutable record per team (class
  `TeamRecord`), updates the records in place match by match, adds the goal
  difference and ranks the rows. *Module `Standings`.*
- **`groupByJornada`** buckets the matches by round in a map of arrays and sorts
  the buckets by round. *Module `Grouping`.*

Module `Text` holds the string primitives these are built from:

- JavaScript's `\s` and `\d` character classes;
- `trim`, `split`, `startsWith`, `endsWith` and `includes`;
- the value of a digit string.

The model follows the code where a natural reading of the pattern differs from
it:

- The pattern makes group 1 (the home team) lazy, so the home team always ends
  at the first white space. `Alpha United   Beta FC 2-1` gives home `Alpha` and
  away `United Beta FC`, not a two-word home team (`ScoreLineHomeIsFirstWord`).
- The away team may be empty: `A  1-0` gives away `""` (`EmptyAwayExample`).

The imperative parts keep their form:

- The parser and the grouping are methods with loops. Each is proved against a
  function of its input: `Extracted` and `IsGrouping`.
- The standings are computed by methods that create `TeamRecord` objects and
  update their fields. This includes the case where a team plays itself and
  both updates hit one record.
- What those methods build is tied to the pure reference definitions `TallyOf`,
  `TeamsOf` and `IsTable`. The promised properties are proved about these
  definitions.

## Model

| member | source | states |
|---|---|---|
| Names.Norm | web/main.js:3-5 | defined as collapse, unify apostrophes, trim, in the source's order; `NormIsJoinedWords` states what it returns |
| Names.Words | web/main.js:4 | the maximal runs of non-space characters, each non-empty and free of white space |
| Names.CollapseSpace | web/main.js:4 | defined as replacing each maximal white-space run by one space; `CollapseSpaceShape` and `CollapseSpaceWords` state what it returns |
| Names.CollapseSpaceShape | web/main.js:4 | the result has only single plain spaces as white space, keeps every non-space character in order and keeps a non-space first character |
| Names.CollapseSpaceWords | web/main.js:4 | collapsing gives the words joined by exactly one space, plus one space at the start when the input starts with white space and one at the end when it ends with white space after a word |
| Names.NormIsJoinedWords | web/main.js:3-5 | `norm(s)` is the words of `s` joined by single spaces, with apostrophes unified |
| Names.NormBySameWords | web/main.js:3-5 | two names with the same words, however spaced, normalise to the same key |
| Names.UnifyApostrophes | web/main.js:4 | same length; each `'` and `’` becomes `’`, every other character is kept |
| Names.NormIsNormal | web/main.js:3-5 | `norm` returns a name with no white space at either end, no two adjacent white-space characters, only plain spaces and no ASCII `'`; its non-space characters are the input's with apostrophes unified |
| Names.NormKeepsNormal | web/main.js:3-5 | a name already of that shape is returned unchanged |
| Names.NormIdempotent | web/main.js:3-5 | `norm(norm(s)) == norm(s)` |
| Names.NormOfWord | web/main.js:3-5 | a name without white space only has its apostrophes unified and stays free of white space |
| Text.Trim | web/main.js:10 | the trimmed line is the slice between leading and trailing white-space runs and starts and ends with non-space |
| Text.TrimOfPadded | web/main.js:4 | `trim` removes exactly the white space around a text that neither starts nor ends with white space |
| Text.SplitOn | web/main.js:8-9 | split pieces hold no separator and joined back with it give the text |
| Text.SplitJoin | web/main.js:8-9 | splitting a join of separator-free pieces gives the pieces back |
| Parser.TrimmedNonBlank | web/main.js:10-11 | every line the parser reads is non-empty and starts and ends with non-space, and there are no more lines than pieces; `TrimmedNonBlankKeeps` states which lines they are |
| Parser.TrimmedNonBlankKeeps | web/main.js:10-11 | the lines are the trims of the pieces, in order, with exactly the blank ones dropped: each line is the trim of its own piece, those pieces strictly increase, and every piece left out trims to nothing |
| Parser.Lines | web/main.js:8-11 | defined as the trimmed, non-blank pieces of the text split at `\n`; its properties are those of `SplitOn` and `TrimmedNonBlankKeeps` |
| Parser.RoundHeader | web/main.js:14-22 | the round a header line announces, `None` for other lines; `RoundHeaderIsPattern` proves it matches the header pattern |
| Parser.RoundHeaderIsPattern | web/main.js:14-24 | a line is a header exactly when it is the keyword (ASCII case-insensitive), white space, then digits, and the round is the value of those digits |
| Parser.FindSplit | web/main.js:15 | what the matcher finds fits the pattern (groups, white-space runs, digit runs, hyphen, end of line) and its group 1 holds no white space |
| Parser.ScoreLine | web/main.js:30-31 | a match's home group holds no white space and both goal groups are non-empty digit strings |
| Parser.ScoreLineIsFirstSplit | web/main.js:15-31 | the matcher fails exactly when no split of the line fits the pattern, and otherwise returns the groups of the split a backtracking matcher tries first (lazy groups shortest, greedy runs longest) |
| Parser.ScoreLineHomeIsFirstWord | web/main.js:15-31 | the home group is the line up to its first white-space character |
| Parser.EmptyAwayExample | web/main.js:15-31 | `A  1-0` gives groups `A`, `""`, `1`, `0` |
| Parser.IsBye | web/main.js:27-28 | defined as the two bye tests: starts with `DESCANSA`, or ends with `---` and contains `DESCANSA`; used by `MatchOnLineWhen` |
| Parser.ToMatch | web/main.js:33-39 | defined as the pushed record: the round, `norm` of groups 1 and 2, the values of groups 3 and 4; `MatchOnLineFields` states its fields |
| Parser.MatchOnLine | web/main.js:20-39 | what one line yields under the round in effect; `MatchOnLineWhen` and `MatchOnLineFields` state when and what |
| Parser.MatchOnLineWhen | web/main.js:19-39 | a line yields a match exactly when a nonzero round is in effect, the line is no header, starts with no `DESCANSA`, is not a `---` line holding `DESCANSA`, and some split fits the pattern |
| Parser.MatchOnLineFields | web/main.js:30-39 | the match carries the round in effect (at least 1), `norm` of the first split's groups and the decimal values of its digit runs; its home team holds no white space, and it is non-empty when the line starts with non-space |
| Parser.LastRound | web/main.js:13-25 | the round in effect after some lines, 0 for none; `LastRoundIsMostRecentHeader` states which |
| Parser.LastRoundIsMostRecentHeader | web/main.js:13-25 | the round in effect is that of the most recent header, 0 before any header |
| Parser.ExtractedLineByLine | web/main.js:19-40 | the j-th match is what its own source line yields under the round in effect, source lines strictly increase, and every other line yields nothing |
| Parser.ExtractedRounds | web/main.js:19-40 | every emitted match has round at least 1 and there are no more matches than lines |
| Parser.NoHeaderNoMatches | web/main.js:13-25 | text without a round header yields no match |
| Parser.ParsedHomesNonEmpty | web/main.js:8-35 | every match parsed from a page has a non-empty home team |
| Parser.ParseMatchesFromBodyText | web/main.js:7-43 | returns exactly the matches `Extracted` defines for the text's trimmed, non-blank lines |
| Parser.ReadLines | web/main.js:13-42 | the loop over the lines returns exactly the matches `Extracted` defines for them |
| Standings.HomeSide | web/main.js:61-67 | defined as what a match adds to the home record; `TallyIdentities` states its bookkeeping |
| Standings.AwaySide | web/main.js:61-67 | defined as what a match adds to the away record; `AwaySideMirrorsHome` states it is the home share of the reversed match |
| Standings.AwaySideMirrorsHome | web/main.js:61-67 | the away side's share is the home share of the match with sides and scores swapped |
| Standings.SelfSide | web/main.js:58-67 | defined as what a match adds to a team playing itself; `SelfSideIsBoth` states it |
| Standings.TallyOf | web/main.js:57-68 | defined as the sum of a team's shares over the matches; `TallyIdentities`, `TallyOfAbsent` and `TallyPermutation` state its properties, and `PlayAll` ties the records to it |
| Standings.SelfSideIsBoth | web/main.js:58-67 | a team playing itself gains the home share and the away share on its one record |
| Standings.TeamsOfMembers | web/main.js:46-50 | a team is in the table exactly when some match names it as home or away |
| Standings.TallyOfAbsent | web/main.js:52-55 | a team no match names has an all-zero record |
| Standings.TallyIdentities | web/main.js:57-68 | every record keeps played = won + drawn + lost and points = 3·won + drawn, also for a team playing itself |
| Standings.RowIdentities | web/main.js:57-70 | a row has its team's counters and goal difference = goals for − goals against |
| Standings.TeamRecord.constructor | web/main.js:54 | a new record is all zero with its team name |
| Standings.NameBefore | web/main.js:77 | lexicographic order of names by code point; `NameOrder` proves it a strict total order |
| Standings.RowBefore | web/main.js:73-78 | the comparator: more points, then larger goal difference, then more goals for, then the name; `RowBeforeIrreflexive`, `RowBeforeTransitive` and `RowBeforeConnected` state its order properties |
| Standings.NameOrder | web/main.js:77 | the name order is irreflexive, transitive and total on distinct names |
| Standings.RowBeforeIrreflexive | web/main.js:73-78 | no row ranks above itself |
| Standings.RowBeforeTransitive | web/main.js:73-78 | the ranking is transitive |
| Standings.RowBeforeConnected | web/main.js:73-78 | rows of different teams are always ranked one way or the other |
| Standings.InsertRow | web/main.js:73-78 | insertion adds exactly the one row |
| Standings.InsertRowRanked | web/main.js:73-78 | inserting a row of a new team into a ranked list keeps it ranked |
| Standings.SortRows | web/main.js:73-78 | sorting permutes the rows |
| Standings.SortRowsRanked | web/main.js:73-78 | sorting rows of distinct teams ranks them strictly by points, goal difference, goals for, then name |
| Standings.CollectTeams | web/main.js:46-50 | the team set holds each team named in a match exactly once |
| Standings.NewTable | web/main.js:52-55 | the map holds a fresh zero record for exactly those teams, keyed by name |
| Standings.PlayAll | web/main.js:57-68 | after the loop, each team's record is its `TallyOf` over all matches |
| Standings.PlayNext | web/main.js:57-68 | one pass turns every record after the first i matches into the record after i + 1 |
| Standings.Play | web/main.js:58-67 | the home record gains the home share and the away record the away share, or one record gains both when home and away are the same object; the stored goal difference is untouched |
| Standings.Result | web/main.js:65-67 | a win gives 3 points, a win and a loss; a draw gives a point and a draw to each side |
| Standings.RowsOf | web/main.js:70 | each row is its record with the goal difference filled in, in the map's insertion order |
| Standings.ComputeStandings | web/main.js:45-81 | the result is a table: one row per team named in the matches, each holding that team's record, strictly ranked |
| Standings.TableRowsDistinct | web/main.js:45-81 | a table has exactly one row per distinct team |
| Standings.TableUnique | web/main.js:73-78 | a list of matches has only one table, whatever order the records were in |
| Standings.TallyPermutation | web/main.js:57-68 | permuting the matches leaves every record unchanged |
| Standings.TeamsPermutation | web/main.js:46-50 | permuting the matches leaves the set of teams unchanged |
| Standings.TableIgnoresMatchOrder | web/main.js:45-81 | permuted input matches yield the identical table |
| Standings.NamesShareOfDistinct | web/main.js:58-67 | summed over distinct teams, a match adds its home and away shares, both to one record when a team plays itself, nothing to others |
| Standings.MatchesTallyCounts | web/main.js:61-67 | the matches hand out 2 games each, one win and one loss per decided match, two draws per drawn one, 3 points per decided and 2 per drawn match, and as many goals against as for |
| Standings.TableTotals | web/main.js:57-70 | over a table: Σ played = 2·matches, Σ won = Σ lost = decided matches, Σ drawn = 2·drawn matches, Σ points = 3·decided + 2·drawn, Σ goals for = Σ goals against = goals scored, Σ goal difference = 0 |
| Grouping.OfRound | web/main.js:85-88 | the matches of one round in input order, each of that round; `RoundsOfMembers` and `Bucket` use it |
| Grouping.FirstSeen | web/main.js:86 | the rounds in order of first appearance, the order the `Map` receives its keys; `FirstSeenRounds` states its contents |
| Grouping.FirstSeenRounds | web/main.js:84-88 | each round is listed once, and exactly the rounds of the matches are listed |
| Grouping.RoundsOfMembers | web/main.js:85-88 | a round has matches exactly when some match belongs to it |
| Grouping.Bucket | web/main.js:84-88 | the map holds, for each round of the matches and no other, that round's matches in input order; its keys are the rounds in order of first appearance (`FirstSeen`), without repeats |
| Grouping.Entries | web/main.js:89 | the entries are the map's `[round, matches]` pairs in insertion order |
| Grouping.InsertGroup | web/main.js:89 | insertion adds exactly the one group |
| Grouping.SortGroups | web/main.js:89 | sorting permutes the groups |
| Grouping.SortGroupsAscending | web/main.js:89 | sorting groups with distinct rounds puts them in strictly ascending round order |
| Grouping.GroupByJornada | web/main.js:83-90 | the result has strictly ascending rounds, one group per round of the input and no other, each holding exactly that round's matches in input order |
| Grouping.GroupsNonEmpty | web/main.js:86-87 | every group is non-empty |
| Grouping.GroupingPartitions | web/main.js:83-90 | together the groups hold every input match exactly once |
| Grouping.GroupingUnique | web/main.js:89 | a list of matches has only one grouping |

## Left out

- `server/index.js` (static server and proxy) is not part of this model: it is network I/O only.
- `load`, the event listeners, `renderStandings` and `renderResults` (web/main.js:92-152) are left out. They fetch over the network, extract HTML and write HTML to the page.
- `localeCompare` (web/main.js:77) is replaced by lexicographic order by code point (`NameBefore`). That order is proved to be a strict total order. Locale collation rules are not modelled.
- Strings are sequences of Unicode scalar values, not of UTF-16 code units. Lone surrogates cannot be represented, and orders and lengths are those of code points.
- `Number` (web/main.js:22, 37-38) is modelled as the exact value of the digit string. Floating-point rounding of digit strings beyond 2^53 is not modelled.
- The counters and the goal difference are unbounded integers. JavaScript number precision limits are not modelled.
- `Array.prototype.sort` (web/main.js:73-78, 89) is modelled as insertion sort. `TableUnique` and `GroupingUnique` show that any correct sort gives the same result, because the comparators leave no ties between distinct teams or rounds.
- The `.` of the scoreline pattern does not match `\r`, U+2028 or U+2029. The model lets group 2 contain them. Group 1 cannot contain them, since they are white space. Splitting on `\n` removes `\n` itself.
- `IsSpace` lists ECMAScript's WhiteSpace and LineTerminator characters, with the space separators fixed at their current Unicode set. Later Unicode changes are not followed.
- The `i` flag of the header pattern is modelled as ASCII case folding. This is exact for the keyword `Jornada`: without the `u` flag, JavaScript never folds a non-ASCII character onto an ASCII one.
- The `Set`, `Map` and arrays of `computeStandings` and `groupByJornada` are modelled as sequences and maps of values in insertion order. The arrays pushed in place are values rather than shared objects; nothing else holds a reference to them.
- Standings.InsertRow and Standings.SortRows: their contracts state only the permutation. The ranking is proved separately in `InsertRowRanked` and `SortRowsRanked`, which need distinct team names.
- Grouping.InsertGroup and Grouping.SortGroups: their contracts state only the permutation. The ascending order is proved in `InsertGroupAscending` and `SortGroupsAscending`.
