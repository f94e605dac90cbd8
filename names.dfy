/** Team-name normalisation (`norm`): every white-space run becomes one space,
    both apostrophe forms become the typographic one, and the ends are trimmed. */
module Names {
  import opened Text

  /** U+2019 RIGHT SINGLE QUOTATION MARK, the canonical apostrophe. */
  const RightQuote: char := '\U{2019}'

  /** The string with every white-space character removed: what normalising may
      not change. */
  function Letters(s: string): string {
    if s == [] then [] else (if IsSpace(s[0]) then [] else [s[0]]) + Letters(s[1..])
  }

  /** Space-collapsed: the only white space is the plain space, never two in a row. */
  predicate Collapsed(s: string) {
    && (forall i :: 0 <= i < |s| && IsSpace(s[i]) ==> s[i] == ' ')
    && (forall i, j :: 0 <= i < |s| && 0 <= j < |s| && j == i + 1 ==> !(IsSpace(s[i]) && IsSpace(s[j])))
  }

  /** The shape of every name `norm` returns. */
  predicate IsNormalName(s: string) {
    && Collapsed(s)
    && (s == [] || (!IsSpace(s[0]) && !IsSpace(s[|s| - 1])))
    && (forall i :: 0 <= i < |s| ==> s[i] != '\'')
  }

  /** `replace(/\s+/g, " ")`: each maximal white-space run becomes one space. */
  function CollapseSpace(s: string): string
    decreases |s|
  {
    if s == [] then []
    else if IsSpace(s[0]) then " " + CollapseSpace(s[RunEnd(s, 1, |s|, IsSpace)..])
    else [s[0]] + CollapseSpace(s[1..])
  }

  /** Collapsing leaves single plain spaces as the only white space and keeps the
      non-space characters, in order. */
  lemma {:induction false} CollapseSpaceShape(s: string)
    ensures Collapsed(CollapseSpace(s))
    ensures Letters(CollapseSpace(s)) == Letters(s)
    ensures s != [] && !IsSpace(s[0]) ==> CollapseSpace(s) != [] && CollapseSpace(s)[0] == s[0]
    decreases |s|
  {
    if s != [] {
      if IsSpace(s[0]) {
        var k := RunEnd(s, 1, |s|, IsSpace);
        var c := CollapseSpace(s[k..]);
        CollapseSpaceShape(s[k..]);
        SpaceRunHasNoLetters(s, k);
        CollapsedCons(' ', c);
        assert (" " + c)[1..] == c;
      } else {
        var c := CollapseSpace(s[1..]);
        CollapseSpaceShape(s[1..]);
        CollapsedCons(s[0], c);
        assert ([s[0]] + c)[1..] == c;
      }
    }
  }

  /** A character may go in front of a collapsed string unless it is white space
      other than a plain space, or starts a second white-space character in a row. */
  lemma CollapsedCons(x: char, c: string)
    requires Collapsed(c)
    requires IsSpace(x) ==> x == ' ' && (c == [] || !IsSpace(c[0]))
    ensures Collapsed([x] + c)
  {
    var r := [x] + c;
    assert forall i :: 1 <= i < |r| ==> r[i] == c[i - 1];
  }

  lemma {:induction false} SpaceRunHasNoLetters(s: string, e: nat)
    requires 1 <= e <= |s|
    requires forall k :: 0 <= k < e ==> IsSpace(s[k])
    ensures Letters(s) == Letters(s[e..])
    decreases e
  {
    if e > 1 {
      SpaceRunHasNoLetters(s[1..], e - 1);
      assert s[1..][e - 1..] == s[e..];
    }
  }

  /** The words of `s`: its maximal runs of non-space characters, in order. */
  function Words(s: string): (ws: seq<string>)
    ensures forall i :: 0 <= i < |ws| ==> ws[i] != [] && NoSpace(ws[i])
    decreases |s|
  {
    if s == [] then []
    else if IsSpace(s[0]) then Words(s[1..])
    else
      var e := RunEnd(s, 0, |s|, NotSpace);
      assert forall k :: 0 <= k < e ==> s[..e][k] == s[k];
      [s[..e]] + Words(s[e..])
  }

  lemma {:induction false} WordsAfterSpace(s: string, k: nat)
    requires k <= |s| && forall j :: 0 <= j < k ==> IsSpace(s[j])
    ensures Words(s) == Words(s[k..])
    decreases k
  {
    if k > 0 {
      WordsAfterSpace(s[1..], k - 1);
      assert s[1..][k - 1..] == s[k..];
    }
  }

  lemma WordsOfWord(s: string, k: nat)
    requires 1 <= k <= |s| && (forall j :: 0 <= j < k ==> !IsSpace(s[j])) && (k == |s| || IsSpace(s[k]))
    ensures Words(s) == [s[..k]] + Words(s[k..])
  {
    RunEndAt(s, 0, |s|, NotSpace, k);
  }

  lemma CollapseLetter(s: string)
    requires s != [] && !IsSpace(s[0])
    ensures CollapseSpace(s) == [s[0]] + CollapseSpace(s[1..])
  {
  }

  lemma {:induction false} CollapseWord(s: string, k: nat)
    requires 1 <= k <= |s| && forall j :: 0 <= j < k ==> !IsSpace(s[j])
    ensures CollapseSpace(s) == s[..k] + CollapseSpace(s[k..])
    decreases k
  {
    var t := s[1..];
    assert s[..k] == [s[0]] + t[..k - 1] && t[k - 1..] == s[k..];
    CollapseLetter(s);
    if k > 1 {
      assert forall j :: 0 <= j < k - 1 ==> !IsSpace(t[j]) by {
        forall j | 0 <= j < k - 1 ensures !IsSpace(t[j]) {
          assert t[j] == s[j + 1];
        }
      }
      CollapseWord(t, k - 1);
      Regroup(CollapseSpace(s), [s[0]], CollapseSpace(t), t[..k - 1], CollapseSpace(t[k - 1..]));
    }
  }

  /** Concatenation regrouped, stated apart so that it is proved on plain strings. */
  lemma Regroup(x: string, a: string, y: string, b: string, c: string)
    requires x == a + y && y == b + c
    ensures x == a + b + c
  {
  }

  lemma CollapseRun(s: string, k: nat)
    requires 1 <= k <= |s| && (forall j :: 0 <= j < k ==> IsSpace(s[j])) && (k == |s| || !IsSpace(s[k]))
    ensures CollapseSpace(s) == " " + CollapseSpace(s[k..])
  {
    RunEndAt(s, 1, |s|, IsSpace, k);
  }

  /** Space-separated: `s` is empty or starts with a non-space character. */
  predicate WordFirst(s: string) {
    s == [] || !IsSpace(s[0])
  }

  /** One space when `s` ends in white space. */
  function Trail(s: string): string {
    if s != [] && IsSpace(s[|s| - 1]) then " " else ""
  }

  lemma JoinCons(w: string, ws: seq<string>)
    requires ws != []
    ensures JoinWith([w] + ws, ' ') == w + " " + JoinWith(ws, ' ')
  {
    assert ([w] + ws)[1..] == ws;
  }

  /** `s` is a word `s[..e]`, a white-space run `s[e..e + f]` and the rest. */
  predicate WordThenRun(s: string, e: nat, f: nat) {
    && 1 <= e < e + f <= |s|
    && (forall j :: 0 <= j < e ==> !IsSpace(s[j]))
    && (forall j :: e <= j < e + f ==> IsSpace(s[j]))
    && (e + f == |s| || !IsSpace(s[e + f]))
  }

  lemma CollapseWordThenRun(s: string, e: nat, f: nat)
    requires WordThenRun(s, e, f)
    ensures CollapseSpace(s) == s[..e] + " " + CollapseSpace(s[e + f..])
  {
    var t := s[e..];
    assert forall j :: 0 <= j < f ==> IsSpace(t[j]);
    CollapseWord(s, e);
    CollapseRun(t, f);
    assert t[f..] == s[e + f..];
  }

  lemma WordsWordThenRun(s: string, e: nat, f: nat)
    requires WordThenRun(s, e, f)
    ensures Words(s) == [s[..e]] + Words(s[e + f..])
  {
    var t := s[e..];
    assert forall j :: 0 <= j < f ==> IsSpace(t[j]);
    WordsOfWord(s, e);
    WordsAfterSpace(t, f);
    assert t[f..] == s[e + f..];
  }

  lemma CollapseOneWord(s: string)
    requires s != [] && forall j :: 0 <= j < |s| ==> !IsSpace(s[j])
    ensures CollapseSpace(s) == JoinWith(Words(s), ' ') + Trail(s)
    ensures Words(s) != []
  {
    WordsOfWord(s, |s|);
    CollapseWord(s, |s|);
    assert s[..|s|] == s && s[|s|..] == [];
    assert Trail(s) == "";
  }

  lemma CollapseWordThenSpace(s: string, e: nat)
    requires e < |s| && WordThenRun(s, e, |s| - e)
    ensures CollapseSpace(s) == JoinWith(Words(s), ' ') + Trail(s)
    ensures Words(s) != []
  {
    CollapseWordAtEnd(s, e);
    WordsWordAtEnd(s, e);
    assert IsSpace(s[|s| - 1]);
  }

  lemma CollapseWordAtEnd(s: string, e: nat)
    requires e < |s| && WordThenRun(s, e, |s| - e)
    ensures CollapseSpace(s) == s[..e] + " "
  {
    var rest := s[|s|..];
    assert rest == [];
    CollapseWordThenRun(s, e, |s| - e);
    assert CollapseSpace(rest) == [];
  }

  lemma WordsWordAtEnd(s: string, e: nat)
    requires e < |s| && WordThenRun(s, e, |s| - e)
    ensures Words(s) == [s[..e]]
  {
    var rest := s[|s|..];
    assert rest == [];
    WordsWordThenRun(s, e, |s| - e);
    assert Words(rest) == [];
  }

  lemma CollapseWordThenMore(s: string, e: nat, f: nat)
    requires WordThenRun(s, e, f) && e + f < |s|
    requires CollapseSpace(s[e + f..]) == JoinWith(Words(s[e + f..]), ' ') + Trail(s[e + f..])
    requires Words(s[e + f..]) != []
    ensures CollapseSpace(s) == JoinWith(Words(s), ' ') + Trail(s)
    ensures Words(s) != []
  {
    CollapseWordThenRun(s, e, f);
    WordsWordThenRun(s, e, f);
    var w, ws := s[..e], Words(s[e + f..]);
    JoinCons(w, ws);
    TrailOfSuffix(s, e + f);
    Regroup(CollapseSpace(s), w + " ", CollapseSpace(s[e + f..]), JoinWith(ws, ' '), Trail(s));
  }

  lemma TrailOfSuffix(s: string, k: nat)
    requires k < |s|
    ensures Trail(s[k..]) == Trail(s)
  {
    assert s[k..][|s| - k - 1] == s[|s| - 1];
  }

  /** Collapsing a string that starts with a word gives its words joined by single
      spaces, plus one space when the string ends in white space. */
  lemma {:induction false} CollapseFromWord(s: string)
    requires WordFirst(s)
    ensures CollapseSpace(s) == JoinWith(Words(s), ' ') + Trail(s)
    ensures s != [] ==> Words(s) != []
    decreases |s|
  {
    if s != [] {
      var e := RunEnd(s, 0, |s|, NotSpace);
      if e == |s| {
        CollapseOneWord(s);
      } else {
        var f := RunEnd(s, e, |s|, IsSpace) - e;
        if e + f == |s| {
          CollapseWordThenSpace(s, e);
        } else {
          CollapseFromWord(s[e + f..]);
          CollapseWordThenMore(s, e, f);
        }
      }
    }
  }

  /** A join of words has no white space at either end. */
  lemma {:induction false} JoinedWordsEnds(ws: seq<string>)
    requires forall i :: 0 <= i < |ws| ==> ws[i] != [] && NoSpace(ws[i])
    ensures var j := JoinWith(ws, ' '); j == [] || (!IsSpace(j[0]) && !IsSpace(j[|j| - 1]))
    ensures ws != [] ==> JoinWith(ws, ' ') != []
    decreases |ws|
  {
    if |ws| > 1 {
      JoinedWordsEnds(ws[1..]);
      var j := JoinWith(ws, ' ');
      assert j == ws[0] + [' '] + JoinWith(ws[1..], ' ');
      assert j[0] == ws[0][0];
    }
  }

  lemma CollapseAllSpace(s: string)
    requires s != [] && forall j :: 0 <= j < |s| ==> IsSpace(s[j])
    ensures CollapseSpace(s) == " " && Words(s) == []
  {
    CollapseRun(s, |s|);
    WordsAfterSpace(s, |s|);
    assert s[|s|..] == [];
  }

  lemma CollapseRunThenMore(s: string, k: nat)
    requires 1 <= k < |s| && (forall j :: 0 <= j < k ==> IsSpace(s[j])) && !IsSpace(s[k])
    requires CollapseSpace(s[k..]) == JoinWith(Words(s[k..]), ' ') + Trail(s[k..])
    requires Words(s[k..]) != []
    ensures CollapseSpace(s) == " " + JoinWith(Words(s), ' ') + Trail(s)
    ensures Words(s) != []
  {
    WordsAfterSpace(s, k);
    TrailOfSuffix(s, k);
    CollapseRun(s, k);
    Regroup(CollapseSpace(s), " ", CollapseSpace(s[k..]), JoinWith(Words(s), ' '), Trail(s));
  }

  lemma CollapseFromRun(s: string)
    requires s != [] && IsSpace(s[0])
    ensures CollapseSpace(s) == Lead(s) + JoinWith(Words(s), ' ') + Ending(s)
  {
    var k := RunEnd(s, 0, |s|, IsSpace);
    if k == |s| {
      CollapseAllSpace(s);
    } else {
      CollapseFromWord(s[k..]);
      CollapseRunThenMore(s, k);
    }
  }

  lemma CollapseFromWordOrNothing(s: string)
    requires WordFirst(s)
    ensures CollapseSpace(s) == Lead(s) + JoinWith(Words(s), ' ') + Ending(s)
  {
    CollapseFromWord(s);
    if s == [] {
      assert Words(s) == [] && Trail(s) == "";
    }
    var r := JoinWith(Words(s), ' ') + Ending(s);
    assert "" + r == r;
  }

  /** One space where `s` starts with white space. */
  function Lead(s: string): string {
    if s != [] && IsSpace(s[0]) then " " else ""
  }

  /** One space where `s` ends with white space after some word. */
  function Ending(s: string): string {
    if Words(s) != [] then Trail(s) else ""
  }

  /** Collapsing keeps a string's words and puts exactly one space between each
      two neighbouring words; the only other spaces are at most one at each end,
      where the string had white space. */
  lemma CollapseSpaceWords(s: string)
    ensures CollapseSpace(s) == Lead(s) + JoinWith(Words(s), ' ') + Ending(s)
  {
    if s != [] && IsSpace(s[0]) {
      CollapseFromRun(s);
    } else {
      CollapseFromWordOrNothing(s);
    }
  }

  function Canonical(c: char): char {
    if c == '\'' || c == RightQuote then RightQuote else c
  }

  /** `replace(/[’']/g, "’")`. */
  function UnifyApostrophes(s: string): (r: string)
    ensures |r| == |s|
    ensures forall i :: 0 <= i < |s| ==> r[i] == Canonical(s[i])
  {
    if s == [] then [] else [Canonical(s[0])] + UnifyApostrophes(s[1..])
  }

  /** `norm` (web/main.js:3-5): collapse, unify apostrophes, trim — in that order. */
  function Norm(s: string): string {
    Trim(UnifyApostrophes(CollapseSpace(s)))
  }

  lemma UnifyAppend(a: string, b: string)
    ensures UnifyApostrophes(a + b) == UnifyApostrophes(a) + UnifyApostrophes(b)
  {
    var l, r := UnifyApostrophes(a + b), UnifyApostrophes(a) + UnifyApostrophes(b);
    assert forall i :: 0 <= i < |l| ==> l[i] == r[i];
  }

  /** A single space, or nothing: the padding collapsing may leave at either end. */
  lemma UnifyPadding(p: string)
    requires p == " " || p == ""
    ensures UnifyApostrophes(p) == p && AllSpace(p)
  {
  }

  lemma TrimUnifyPadded(lead: string, x: string, trail: string)
    requires lead == " " || lead == ""
    requires trail == " " || trail == ""
    requires x == [] || (!IsSpace(x[0]) && !IsSpace(x[|x| - 1]))
    ensures Trim(UnifyApostrophes(lead + x + trail)) == UnifyApostrophes(x)
  {
    UnifyPadded(lead, x, trail);
    UnifyKeepsEnds(x);
    TrimOfPadded(lead, UnifyApostrophes(x), trail);
  }

  lemma UnifyPadded(lead: string, x: string, trail: string)
    requires lead == " " || lead == ""
    requires trail == " " || trail == ""
    ensures UnifyApostrophes(lead + x + trail) == lead + UnifyApostrophes(x) + trail
    ensures AllSpace(lead) && AllSpace(trail)
  {
    UnifyAppend(lead + x, trail);
    UnifyAppend(lead, x);
    UnifyPadding(lead);
    UnifyPadding(trail);
  }

  lemma UnifyKeepsEnds(x: string)
    requires x == [] || (!IsSpace(x[0]) && !IsSpace(x[|x| - 1]))
    ensures var u := UnifyApostrophes(x); u == [] || (!IsSpace(u[0]) && !IsSpace(u[|u| - 1]))
  {
  }

  /** What `norm` computes: the words of the name joined by single spaces, with
      their apostrophes unified. So two names with the same words, however they
      are spaced, normalise to the same key. */
  lemma NormIsJoinedWords(s: string)
    ensures Norm(s) == UnifyApostrophes(JoinWith(Words(s), ' '))
  {
    CollapseSpaceWords(s);
    JoinedWordsEnds(Words(s));
    TrimUnifyPadded(Lead(s), JoinWith(Words(s), ' '), Ending(s));
  }

  /** Names spelled with the same words normalise alike. */
  lemma NormBySameWords(s: string, t: string)
    requires Words(s) == Words(t)
    ensures Norm(s) == Norm(t)
  {
    NormIsJoinedWords(s);
    NormIsJoinedWords(t);
  }

  lemma {:induction false} LettersAppend(a: string, b: string)
    ensures Letters(a + b) == Letters(a) + Letters(b)
    decreases |a|
  {
    if a == [] {
      assert a + b == b;
    } else {
      var head := if IsSpace(a[0]) then [] else [a[0]];
      LettersAppend(a[1..], b);
      assert (a + b)[0] == a[0] && (a + b)[1..] == a[1..] + b;
      assert Letters(a + b) == head + Letters(a[1..] + b);
      assert Letters(a) == head + Letters(a[1..]);
    }
  }

  lemma {:induction false} LettersOfSpace(s: string)
    requires AllSpace(s)
    ensures Letters(s) == []
    decreases |s|
  {
    if s != [] {
      LettersOfSpace(s[1..]);
    }
  }

  lemma {:induction false} LettersUnify(s: string)
    ensures Letters(UnifyApostrophes(s)) == UnifyApostrophes(Letters(s))
    decreases |s|
  {
    if s != [] {
      LettersUnify(s[1..]);
      assert UnifyApostrophes(s)[1..] == UnifyApostrophes(s[1..]);
      if !IsSpace(s[0]) {
        assert UnifyApostrophes(Letters(s)) == [Canonical(s[0])] + UnifyApostrophes(Letters(s[1..]));
      }
    }
  }

  lemma UnifyKeepsCollapsed(s: string)
    requires Collapsed(s)
    ensures Collapsed(UnifyApostrophes(s))
    ensures forall i :: 0 <= i < |s| ==> UnifyApostrophes(s)[i] != '\''
  {
    var u := UnifyApostrophes(s);
    forall i | 0 <= i < |s|
      ensures (IsSpace(u[i]) <==> IsSpace(s[i])) && (IsSpace(s[i]) ==> u[i] == ' ') && u[i] != '\''
    {
      CanonicalKeepsSpace(s[i]);
    }
    forall i, j | 0 <= i < |u| && 0 <= j < |u| && j == i + 1 ensures !(IsSpace(u[i]) && IsSpace(u[j])) {
    }
  }

  lemma CanonicalKeepsSpace(c: char)
    ensures IsSpace(Canonical(c)) <==> IsSpace(c)
    ensures IsSpace(c) ==> Canonical(c) == c
    ensures Canonical(c) != '\''
  {
  }

  lemma SliceKeepsShape(s: string, b: nat, e: nat)
    requires b <= e <= |s|
    requires Collapsed(s) && forall i :: 0 <= i < |s| ==> s[i] != '\''
    ensures Collapsed(s[b..e]) && forall i :: 0 <= i < e - b ==> s[b..e][i] != '\''
  {
    var r := s[b..e];
    assert forall i :: 0 <= i < |r| ==> r[i] == s[b + i];
  }

  lemma TrimHasSameLetters(u: string)
    ensures Letters(Trim(u)) == Letters(u)
  {
    var r := Trim(u);
    var b := LeadingSpace(u);
    assert u == u[..b] + r + u[b + |r|..];
    LettersAppend(u[..b], r);
    LettersAppend(u[..b] + r, u[b + |r|..]);
    LettersOfSpace(u[..b]);
    LettersOfSpace(u[b + |r|..]);
  }

  /** What `norm` returns: a collapsed name with no white space at either end and
      no ASCII apostrophe, whose non-space characters are those of the input with
      the apostrophes unified, in the same order. */
  lemma NormIsNormal(s: string)
    ensures IsNormalName(Norm(s))
    ensures Letters(Norm(s)) == UnifyApostrophes(Letters(s))
  {
    CollapseSpaceShape(s);
    TrimUnifyCollapsed(CollapseSpace(s));
  }

  lemma TrimUnifyCollapsed(c: string)
    requires Collapsed(c)
    ensures IsNormalName(Trim(UnifyApostrophes(c)))
    ensures Letters(Trim(UnifyApostrophes(c))) == UnifyApostrophes(Letters(c))
  {
    var u := UnifyApostrophes(c);
    UnifyKeepsCollapsed(c);
    TrimKeepsShape(u);
    TrimHasSameLetters(u);
    LettersUnify(c);
  }

  lemma TrimKeepsShape(u: string)
    requires Collapsed(u) && forall i :: 0 <= i < |u| ==> u[i] != '\''
    ensures IsNormalName(Trim(u))
  {
    var b, r := LeadingSpace(u), Trim(u);
    SliceKeepsShape(u, b, b + |r|);
  }

  lemma {:induction false} CollapseKeepsCollapsed(s: string)
    requires Collapsed(s)
    ensures CollapseSpace(s) == s
    decreases |s|
  {
    if s != [] {
      assert Collapsed(s[1..]);
      if IsSpace(s[0]) {
        assert RunEnd(s, 1, |s|, IsSpace) == 1;
      }
      CollapseKeepsCollapsed(s[1..]);
    }
  }

  /** `norm` leaves a normal name unchanged. */
  lemma NormKeepsNormal(s: string)
    requires IsNormalName(s)
    ensures Norm(s) == s
  {
    CollapseKeepsCollapsed(s);
    var u := UnifyApostrophes(s);
    assert u == s;
    if s != [] {
      assert LeadingSpace(s) == 0;
      assert RunStart(s, |s|, IsSpace) == |s|;
    }
  }

  /** `norm` is idempotent. */
  lemma NormIdempotent(s: string)
    ensures Norm(Norm(s)) == Norm(s)
  {
    NormIsNormal(s);
    NormKeepsNormal(Norm(s));
  }

  /** A name without white space keeps none: `norm` only unifies its apostrophes. */
  lemma NormOfWord(s: string)
    requires NoSpace(s)
    ensures Norm(s) == UnifyApostrophes(s)
    ensures NoSpace(Norm(s))
  {
    assert Collapsed(s);
    CollapseKeepsCollapsed(s);
    var u := UnifyApostrophes(s);
    assert NoSpace(u);
    if u != [] {
      assert LeadingSpace(u) == 0;
      assert RunStart(u, |u|, IsSpace) == |u|;
    }
  }
}
