/** String primitives the page-text parser is built from: the white-space and
    digit classes of JavaScript regular expressions, maximal runs of a character
    class, `trim`, `split`, `startsWith`/`endsWith`/`includes` and the decimal
    value of a digit string. */
module Text {

  datatype Option<+T> = None | Some(value: T)

  /** The characters matched by `\s` and removed by `String.prototype.trim`:
      ECMAScript's WhiteSpace and LineTerminator code points. */
  predicate IsSpace(c: char) {
    || c == ' ' || c == '\t' || c == '\n' || c == '\U{B}' || c == '\U{C}' || c == '\r'
    || c == '\U{A0}' || c == '\U{1680}' || ('\U{2000}' <= c <= '\U{200A}')
    || c == '\U{2028}' || c == '\U{2029}' || c == '\U{202F}' || c == '\U{205F}'
    || c == '\U{3000}' || c == '\U{FEFF}'
  }

  predicate NotSpace(c: char) {
    !IsSpace(c)
  }

  /** The characters matched by `\d`. */
  predicate IsDigit(c: char) {
    '0' <= c <= '9'
  }

  predicate AllDigits(s: string) {
    forall k :: 0 <= k < |s| ==> IsDigit(s[k])
  }

  predicate AllSpace(s: string) {
    forall k :: 0 <= k < |s| ==> IsSpace(s[k])
  }

  predicate NoSpace(s: string) {
    forall k :: 0 <= k < |s| ==> !IsSpace(s[k])
  }

  /** End of the maximal run of `p`-characters of `s` that starts at `lo`,
      looking no further than `hi`. */
  function RunEnd(s: string, lo: nat, hi: nat, p: char -> bool): (e: nat)
    requires lo <= hi <= |s|
    ensures lo <= e <= hi
    ensures forall k :: lo <= k < e ==> p(s[k])
    ensures e == hi || !p(s[e])
    decreases hi - lo
  {
    if lo == hi || !p(s[lo]) then lo else RunEnd(s, lo + 1, hi, p)
  }

  /** A run ends at the first character that fails `p`, or where one stops looking. */
  lemma {:induction false} RunEndAt(s: string, lo: nat, hi: nat, p: char -> bool, e: nat)
    requires lo <= e <= hi <= |s|
    requires forall k :: lo <= k < e ==> p(s[k])
    requires e == hi || !p(s[e])
    ensures RunEnd(s, lo, hi, p) == e
    decreases e - lo
  {
    if lo < e {
      RunEndAt(s, lo + 1, hi, p, e);
    }
  }

  /** Start of the maximal run of `p`-characters of `s` that ends at `hi`. */
  function RunStart(s: string, hi: nat, p: char -> bool): (b: nat)
    requires hi <= |s|
    ensures b <= hi
    ensures forall k :: b <= k < hi ==> p(s[k])
    ensures b == 0 || !p(s[b - 1])
  {
    if hi == 0 || !p(s[hi - 1]) then hi else RunStart(s, hi - 1, p)
  }

  /** Number of leading white-space characters of `s`. */
  function LeadingSpace(s: string): nat
    ensures LeadingSpace(s) <= |s|
  {
    RunEnd(s, 0, |s|, IsSpace)
  }

  /** `String.prototype.trim`: the slice of `s` left after dropping white space at
      both ends. */
  function Trim(s: string): (r: string)
    ensures |r| <= |s| - LeadingSpace(s)
    ensures r == s[LeadingSpace(s)..LeadingSpace(s) + |r|]
    ensures AllSpace(s[..LeadingSpace(s)]) && AllSpace(s[LeadingSpace(s) + |r|..])
    ensures r == [] || (!IsSpace(r[0]) && !IsSpace(r[|r| - 1]))
  {
    var b := LeadingSpace(s);
    var e := RunStart(s, |s|, IsSpace);
    if b == |s| then [] else s[b..e]
  }

  /** `trim` removes exactly the white-space padding around a text that neither
      starts nor ends with white space. */
  lemma TrimOfPadded(a: string, x: string, b: string)
    requires AllSpace(a) && AllSpace(b)
    requires x == [] || (!IsSpace(x[0]) && !IsSpace(x[|x| - 1]))
    ensures Trim(a + x + b) == x
  {
    var u := a + x + b;
    var r := Trim(u);
    if x == [] {
      assert forall k :: 0 <= k < |u| ==> IsSpace(u[k]);
    } else {
      assert u[|a|] == x[0];
      RunEndAt(u, 0, |u|, IsSpace, |a|);
      assert u[|a| + |x| - 1] == x[|x| - 1];
      assert |r| == |x|;
      assert u[|a|..|a| + |x|] == x;
    }
  }

  predicate StartsWith(s: string, prefix: string) {
    |prefix| <= |s| && s[..|prefix|] == prefix
  }

  predicate EndsWith(s: string, suffix: string) {
    |suffix| <= |s| && s[|s| - |suffix|..] == suffix
  }

  /** `String.prototype.includes`. */
  predicate Contains(s: string, part: string)
    decreases |s|
  {
    StartsWith(s, part) || (s != [] && Contains(s[1..], part))
  }

  /** Concatenation of `parts` with `sep` between neighbours (`Array.prototype.join`). */
  function JoinWith(parts: seq<string>, sep: char): string {
    if parts == [] then []
    else if |parts| == 1 then parts[0]
    else parts[0] + [sep] + JoinWith(parts[1..], sep)
  }

  /** `String.prototype.split` on a one-character separator: the pieces between
      separators, empty ones included, so there is always at least one. */
  function SplitOn(s: string, sep: char): (parts: seq<string>)
    ensures |parts| >= 1
    ensures forall i :: 0 <= i < |parts| ==> sep !in parts[i]
    ensures JoinWith(parts, sep) == s
    decreases |s|
  {
    var i := RunEnd(s, 0, |s|, c => c != sep);
    if i == |s| then
      assert forall k :: 0 <= k < |s| ==> s[k] != sep;
      [s]
    else
      var rest := SplitOn(s[i + 1..], sep);
      assert forall k :: 0 <= k < i ==> s[..i][k] != sep;
      assert s == s[..i] + [sep] + s[i + 1..];
      [s[..i]] + rest
  }

  /** Splitting undoes joining: `split` recovers the pieces of a `join` whose
      pieces hold no separator. */
  lemma {:induction false} SplitJoin(parts: seq<string>, sep: char)
    requires |parts| >= 1
    requires forall i :: 0 <= i < |parts| ==> sep !in parts[i]
    ensures SplitOn(JoinWith(parts, sep), sep) == parts
    decreases |parts|
  {
    var s := JoinWith(parts, sep);
    var i := RunEnd(s, 0, |s|, c => c != sep);
    if |parts| == 1 {
      assert s == parts[0];
    } else {
      var head := parts[0];
      assert s == head + [sep] + JoinWith(parts[1..], sep);
      assert s[|head|] == sep;
      assert forall k :: 0 <= k < |head| ==> s[k] == head[k] && s[k] != sep;
      assert i == |head|;
      assert s[i + 1..] == JoinWith(parts[1..], sep);
      SplitJoin(parts[1..], sep);
      assert s[..i] == head;
    }
  }

  function DigitValue(c: char): nat
    requires IsDigit(c)
  {
    c as int - '0' as int
  }

  /** `Number` applied to a string of decimal digits (leading zeros allowed). */
  function DigitsValue(d: string): nat
    requires AllDigits(d)
  {
    if d == [] then 0 else 10 * DigitsValue(d[..|d| - 1]) + DigitValue(d[|d| - 1])
  }

  function OptionToSeq<T>(o: Option<T>): seq<T> {
    if o.Some? then [o.value] else []
  }

  /** The present values of `opts`, in order. */
  function Somes<T>(opts: seq<Option<T>>): seq<T> {
    if opts == [] then [] else Somes(opts[..|opts| - 1]) + OptionToSeq(opts[|opts| - 1])
  }

  /** The indices of the present values of `opts`, in order. */
  function SomeIndices<T>(opts: seq<Option<T>>): seq<nat> {
    if opts == [] then []
    else SomeIndices(opts[..|opts| - 1]) + (if opts[|opts| - 1].Some? then [|opts| - 1] else [])
  }

  lemma SomesSnoc<T>(opts: seq<Option<T>>, o: Option<T>)
    ensures Somes(opts + [o]) == Somes(opts) + OptionToSeq(o)
  {
    assert (opts + [o])[..|opts|] == opts;
  }

  lemma SomesPrefixStep<T>(opts: seq<Option<T>>, i: nat)
    requires i < |opts|
    ensures Somes(opts[..i + 1]) == Somes(opts[..i]) + OptionToSeq(opts[i])
  {
    assert opts[..i + 1] == opts[..i] + [opts[i]];
    SomesSnoc(opts[..i], opts[i]);
  }

  /** No element occurs twice. */
  predicate NoRepeats<T(==)>(s: seq<T>) {
    forall i, j :: 0 <= i < j < |s| ==> s[i] != s[j]
  }

  lemma HasMember<T>(s: seq<T>)
    requires s != []
    ensures exists x :: x in s
  {
    assert s[0] in s;
  }

  /** `Somes` keeps each present value at the position of its index in
      `SomeIndices`; those indices increase strictly and miss only absent values. */
  lemma {:induction false} SomesByIndex<T>(opts: seq<Option<T>>)
    ensures |SomeIndices(opts)| == |Somes(opts)|
    ensures forall j :: 0 <= j < |SomeIndices(opts)| ==>
      SomeIndices(opts)[j] < |opts| && opts[SomeIndices(opts)[j]] == Some(Somes(opts)[j])
    ensures forall j, k :: 0 <= j < k < |SomeIndices(opts)| ==> SomeIndices(opts)[j] < SomeIndices(opts)[k]
    ensures forall i :: 0 <= i < |opts| && i !in SomeIndices(opts) ==> opts[i].None?
  {
    if opts != [] {
      var prior := opts[..|opts| - 1];
      SomesByIndex(prior);
      assert forall i :: 0 <= i < |prior| ==> prior[i] == opts[i];
    }
  }
}
