/** fal endpoint resolution (src/effects/genai-service.ts): a free-text model
    name is normalised and scored against a fixed catalog of five endpoints;
    the endpoint with the strictly highest `10 * tokenOverlap - levenshtein`
    wins, the earliest one on ties. */
module FalEndpoint {
  import opened Strings
  import opened EditDistance

  const DefaultFalEndpoint: string := "fal-ai/flux/dev"

  /** The curated catalog, in declaration order. */
  const ValidFalEndpoints: seq<string> := [
    "fal-ai/nano-banana",
    "fal-ai/veo3",
    "fal-ai/bytedance/seedream/v4/text-to-image",
    "fal-ai/kling-video/v2/master/text-to-video",
    "fal-ai/ideogram/v3"
  ]

  const ProviderPrefix: string := "fal-ai/"

  /** The global replacement of `fal-ai/` by one space: occurrences are found
      left to right and do not overlap. */
  function ReplaceProviderPrefix(s: string): (r: string)
    ensures forall i :: 0 <= i < |r| ==> r[i] == ' ' || r[i] in s
    decreases |s|
  {
    if |s| >= |ProviderPrefix| && s[..|ProviderPrefix|] == ProviderPrefix then
      " " + ReplaceProviderPrefix(s[|ProviderPrefix|..])
    else if s == [] then []
    else [s[0]] + ReplaceProviderPrefix(s[1..])
  }

  /** Without an `f` or without a `/` there is no occurrence to replace. */
  lemma {:induction false} ReplaceWithoutPrefix(s: string)
    requires 'f' !in s || '/' !in s
    ensures ReplaceProviderPrefix(s) == s
  {
    if s != [] {
      if |s| >= |ProviderPrefix| {
        assert s[..|ProviderPrefix|][0] == s[0] && ProviderPrefix[0] == 'f';
        assert s[..|ProviderPrefix|][6] == s[6] && ProviderPrefix[6] == '/';
      }
      assert 'f' !in s[1..] || '/' !in s[1..];
      ReplaceWithoutPrefix(s[1..]);
      assert [s[0]] + s[1..] == s;
    }
  }

  /** Whether `fal-ai/` occurs in `s` starting at index `i`. */
  predicate ProviderPrefixAt(s: string, i: nat) {
    i + |ProviderPrefix| <= |s| && s[i..i + |ProviderPrefix|] == ProviderPrefix
  }

  /** Whether `fal-ai/` occurs anywhere in `s`. */
  predicate HasProviderPrefix(s: string) {
    exists i: nat :: i < |s| && ProviderPrefixAt(s, i)
  }

  /** Dropping the first character cannot create an occurrence. */
  lemma NoProviderPrefixInTail(s: string)
    requires s != [] && !HasProviderPrefix(s)
    ensures !HasProviderPrefix(s[1..])
  {
    forall i: nat | i < |s[1..]|
      ensures !ProviderPrefixAt(s[1..], i)
    {
      assert !ProviderPrefixAt(s, i + 1);
      if i + |ProviderPrefix| <= |s[1..]| {
        assert s[1..][i..i + |ProviderPrefix|] == s[i + 1..i + 1 + |ProviderPrefix|];
      }
    }
  }

  /** Without an occurrence of `fal-ai/` the replacement changes nothing. */
  lemma {:induction false} ReplaceWithoutOccurrence(s: string)
    requires !HasProviderPrefix(s)
    ensures ReplaceProviderPrefix(s) == s
  {
    if s != [] {
      assert !ProviderPrefixAt(s, 0);
      assert !(|s| >= |ProviderPrefix| && s[..|ProviderPrefix|] == ProviderPrefix) by {
        if |s| >= |ProviderPrefix| {
          assert s[0..|ProviderPrefix|] == s[..|ProviderPrefix|];
        }
      }
      NoProviderPrefixInTail(s);
      ReplaceWithoutOccurrence(s[1..]);
      assert [s[0]] + s[1..] == s;
    }
  }

  /** `normalize`: lower-case, replace `fal-ai/` by a space, turn every run
      of characters outside `[a-z0-9]` into one separator, trim, and join
      what is left with `-`. The four regular-expression passes of the
      source leave exactly the maximal `[a-z0-9]` runs, joined by `-`. */
  function Normalize(value: string): string {
    Join(Words(value), "-")
  }

  /** The `[a-z0-9]` runs that survive normalisation, in order. */
  function Words(value: string): seq<string> {
    Runs(ReplaceProviderPrefix(Lower(value)), IsLowerAlnum)
  }

  /** Without an `f` in `p`, no occurrence of the prefix starts inside `p`. */
  lemma {:induction false} ReplaceSkips(p: string, rest: string)
    requires 'f' !in p
    ensures ReplaceProviderPrefix(p + rest) == p + ReplaceProviderPrefix(rest)
  {
    if p != [] {
      var s := p + rest;
      if |s| >= |ProviderPrefix| {
        assert s[..|ProviderPrefix|][0] == p[0] && ProviderPrefix[0] == 'f';
        assert s[..|ProviderPrefix|] != ProviderPrefix;
      }
      assert s[0] == p[0] && s[1..] == p[1..] + rest;
      assert ReplaceProviderPrefix(s) == [p[0]] + ReplaceProviderPrefix(p[1..] + rest);
      ReplaceSkips(p[1..], rest);
      assert [p[0]] + (p[1..] + ReplaceProviderPrefix(rest)) == p + ReplaceProviderPrefix(rest);
    } else {
      assert p + rest == rest;
    }
  }

  /** A leading lower-case word followed by a separator is the first word
      of the normalised name. */
  lemma WordsCons(w: string, c: char, rest: string)
    requires w != [] && AllIn(w, IsLowerAlnum) && 'f' !in w
    requires !IsLowerAlnum(c) && !('A' <= c <= 'Z') && c != 'f'
    ensures Words(w + [c] + rest) == [w] + Words(rest)
  {
    var l := Lower(rest);
    assert Lower(w + [c] + rest) == (w + [c]) + l;
    ReplaceSkips(w + [c], l);
    assert w + [c] + ReplaceProviderPrefix(l) == (w + [c]) + ReplaceProviderPrefix(l);
    RunsOfWordThen(w, c, ReplaceProviderPrefix(l), IsLowerAlnum);
  }

  /** A single lower-case word is its own normalised form. */
  lemma WordsSingle(w: string)
    requires w != [] && AllIn(w, IsLowerAlnum) && 'f' !in w
    ensures Words(w) == [w]
  {
    assert Lower(w) == w;
    ReplaceWithoutPrefix(w);
    RunsOfWord(w, IsLowerAlnum);
  }

  /** The shape of every normalised name: only `a-z`, `0-9` and `-`, and no
      hyphen at either end or next to another hyphen. */
  predicate IsNormalForm(r: string) {
    && (forall i :: 0 <= i < |r| ==> IsLowerAlnum(r[i]) || r[i] == '-')
    && (r == [] || (r[0] != '-' && r[|r| - 1] != '-'))
    && (forall i :: 0 <= i < |r| - 1 ==> !(r[i] == '-' && r[i + 1] == '-'))
  }

  lemma {:induction false} JoinIsNormalForm(ws: seq<string>)
    requires IsRunList(ws, IsLowerAlnum)
    ensures IsNormalForm(Join(ws, "-"))
  {
    if |ws| > 1 {
      var w := ws[0];
      var rest := Join(ws[1..], "-");
      JoinIsNormalForm(ws[1..]);
      JoinNonEmpty(ws[1..]);
      var r := w + "-" + rest;
      assert forall i :: 0 <= i < |r| ==> r[i] == if i < |w| then w[i] else if i == |w| then '-' else rest[i - |w| - 1];
      assert r[|r| - 1] == rest[|rest| - 1];
    }
  }

  lemma JoinNonEmpty(ws: seq<string>)
    requires |ws| > 0 && ws[0] != []
    ensures Join(ws, "-") != []
  {
  }

  /** Every normalised name is in normal form. */
  lemma NormalizeIsNormalForm(value: string)
    ensures IsNormalForm(Normalize(value))
  {
    JoinIsNormalForm(Runs(ReplaceProviderPrefix(Lower(value)), IsLowerAlnum));
  }

  /** Normalising twice is normalising once. */
  lemma NormalizeIdempotent(value: string)
    ensures Normalize(Normalize(value)) == Normalize(value)
  {
    var ws := Runs(ReplaceProviderPrefix(Lower(value)), IsLowerAlnum);
    var r := Join(ws, "-");
    NormalizeIsNormalForm(value);
    assert Lower(r) == r;
    assert '/' !in r;
    ReplaceWithoutPrefix(r);
    RunsOfJoin(ws, '-', IsLowerAlnum);
  }

  /** Normalisation ignores ASCII case. */
  lemma NormalizeIgnoresCase(value: string)
    ensures Normalize(Lower(value)) == Normalize(value)
  {
    LowerIdempotent(value);
  }

  /** A leading `fal-ai/` does not change the normalised name. */
  lemma NormalizeDropsProviderPrefix(value: string)
    ensures Words(ProviderPrefix + value) == Words(value)
    ensures Normalize(ProviderPrefix + value) == Normalize(value)
  {
    LowerAppend(ProviderPrefix, value);
    var l := Lower(value);
    assert Lower(ProviderPrefix) == ProviderPrefix;
    assert (ProviderPrefix + l)[..|ProviderPrefix|] == ProviderPrefix;
    assert (ProviderPrefix + l)[|ProviderPrefix|..] == l;
    RunsSkipSeparator(' ', ReplaceProviderPrefix(l), IsLowerAlnum);
  }

  /** A name without any ASCII letter or digit normalises to the empty
      string. */
  lemma NormalizeWithoutAlnum(value: string)
    requires forall i :: 0 <= i < |value| ==> !IsLowerAlnum(value[i]) && !('A' <= value[i] <= 'Z')
    ensures Normalize(value) == []
  {
    var l := Lower(value);
    assert forall i :: 0 <= i < |l| ==> !IsLowerAlnum(l[i]);
    var x := ReplaceProviderPrefix(l);
    assert forall i :: 0 <= i < |x| ==> !IsLowerAlnum(x[i]);
    RunsWithoutKeep(x, IsLowerAlnum);
  }

  lemma {:induction false} RunsWithoutKeep(s: string, keep: char -> bool)
    requires forall i :: 0 <= i < |s| ==> !keep(s[i])
    ensures Runs(s, keep) == []
    decreases |s|
  {
    if s != [] {
      RunsWithoutKeep(s[1..], keep);
    }
  }

  /** The normalised form of a name made of lower-case words and
      separators, with or without the provider prefix, is the words joined
      by `-`. */
  lemma NormalizeOfWords(value: string, ws: seq<string>, seps: string)
    requires |ws| >= 1 && |seps| == |ws| - 1
    requires value == Interleave(ws, seps) || value == ProviderPrefix + Interleave(ws, seps)
    requires EveryRun(ws, IsLowerAlnum) && EveryChar(seps, c => !IsLowerAlnum(c))
    requires Lower(Interleave(ws, seps)) == Interleave(ws, seps)
    requires !HasProviderPrefix(Interleave(ws, seps))
    ensures Normalize(value) == Join(ws, "-")
  {
    var x := Interleave(ws, seps);
    NormalizeDropsProviderPrefix(x);
    ReplaceWithoutOccurrence(x);
    EveryRunIsRunList(ws, IsLowerAlnum);
    EveryCharAllIn(seps, c => !IsLowerAlnum(c));
    RunsOfInterleave(ws, seps, IsLowerAlnum);
  }

  /** Token set of a string: the pieces of `s.split("-")`. */
  function Tokens(s: string): set<string> {
    set t | t in Split(s, '-')
  }

  /** The number of distinct elements of `xs` that occur in `ys`; each is
      counted once, at its last occurrence. */
  function SharedCount(xs: seq<string>, ys: seq<string>): nat {
    if xs == [] then 0
    else (if xs[0] in ys && xs[0] !in xs[1..] then 1 else 0) + SharedCount(xs[1..], ys)
  }

  lemma {:induction false} SharedCountIsIntersection(xs: seq<string>, ys: seq<string>)
    ensures SharedCount(xs, ys) == |(set x | x in xs) * (set y | y in ys)|
  {
    if xs != [] {
      var x := xs[0];
      var rest := set z | z in xs[1..];
      var ys' := set y | y in ys;
      SharedCountIsIntersection(xs[1..], ys);
      assert (set z | z in xs) == {x} + rest;
      if x in xs[1..] {
        assert {x} + rest == rest;
      } else if x in ys {
        assert ({x} + rest) * ys' == (rest * ys') + {x};
      } else {
        assert ({x} + rest) * ys' == rest * ys';
      }
    }
  }

  /** `tokenOverlap`: how many distinct `-`-separated tokens of `a` are also
      tokens of `b`. */
  function TokenOverlap(a: string, b: string): (n: nat)
    ensures n == |Tokens(a) * Tokens(b)|
  {
    SharedCountIsIntersection(Split(a, '-'), Split(b, '-'));
    SharedCount(Split(a, '-'), Split(b, '-'))
  }

  lemma SubsetCardinality(x: set<string>, y: set<string>)
    requires x <= y
    ensures |x| <= |y|
    decreases |x|
  {
    if x != {} {
      var e :| e in x;
      SubsetCardinality(x - {e}, y - {e});
    }
  }

  /** The overlap is symmetric and bounded by both token counts. */
  lemma TokenOverlapSymmetricBounded(a: string, b: string)
    ensures TokenOverlap(a, b) == TokenOverlap(b, a)
    ensures TokenOverlap(a, b) <= |Tokens(a)| && TokenOverlap(a, b) <= |Tokens(b)|
  {
    assert Tokens(a) * Tokens(b) == Tokens(b) * Tokens(a);
    SubsetCardinality(Tokens(a) * Tokens(b), Tokens(a));
    SubsetCardinality(Tokens(a) * Tokens(b), Tokens(b));
  }

  /** Splitting a normalised name on `-` gives back its words. */
  lemma SplitJoinedWords(ws: seq<string>)
    requires |ws| >= 1 && IsRunList(ws, IsLowerAlnum)
    ensures Split(Join(ws, "-"), '-') == ws
  {
    assert forall k :: 0 <= k < |ws| ==> '-' !in ws[k];
    SplitJoin(ws, '-');
  }

  /** The empty name has the one token `""`, which no non-empty normalised
      name has. */
  lemma EmptyOverlap(ws: seq<string>)
    requires |ws| >= 1 && IsRunList(ws, IsLowerAlnum)
    ensures Tokens([]) == {[]}
    ensures TokenOverlap([], Join(ws, "-")) == 0
  {
    assert Split([], '-') == [[]];
    SplitJoinedWords(ws);
    assert [] !in Tokens(Join(ws, "-"));
    assert Tokens([]) * Tokens(Join(ws, "-")) == {};
  }

  /** Two names normalise alike exactly when they have the same words. */
  lemma NormalizeDeterminedByWords(x: string, y: string)
    ensures Normalize(x) == Normalize(y) <==> Words(x) == Words(y)
  {
    var wx, wy := Words(x), Words(y);
    if Normalize(x) == Normalize(y) {
      if wx != [] && wy != [] {
        SplitJoinedWords(wx);
        SplitJoinedWords(wy);
      } else if wx != [] {
        JoinNonEmpty(wx);
      } else if wy != [] {
        JoinNonEmpty(wy);
      }
    }
  }

  /** Against an input without words, an endpoint with words scores minus
      the length of its normalised form. */
  lemma ScoreOfEmpty(endpoint: string)
    requires Words(endpoint) != []
    ensures Score([], endpoint) == -|Normalize(endpoint)|
  {
    EmptyOverlap(Words(endpoint));
    LevEmpty(Normalize(endpoint));
  }

  /** No endpoint scores more than ten times the number of distinct tokens
      of the input, and an endpoint reaches that score exactly when it
      normalises to the input itself. */
  lemma ScoreExactMatch(input: string, endpoint: string)
    ensures Score(input, endpoint) <= 10 * |Tokens(input)|
    ensures Score(input, endpoint) == 10 * |Tokens(input)| <==> Normalize(endpoint) == input
  {
    var candidate := Normalize(endpoint);
    TokenOverlapSymmetricBounded(input, candidate);
    LevZero(input, candidate);
    if candidate == input {
      assert Tokens(input) * Tokens(candidate) == Tokens(input);
    }
  }

  /** `bestScore`, which starts at `Number.NEGATIVE_INFINITY`. */
  datatype BestScore = NegativeInfinity | Finite(value: int)

  /** `score > bestScore`. */
  predicate Beats(score: int, best: BestScore) {
    best.NegativeInfinity? || score > best.value
  }

  /** `overlap * 10 - distance` for one catalog endpoint. */
  function Score(input: string, endpoint: string): int {
    var candidate := Normalize(endpoint);
    10 * TokenOverlap(input, candidate) - Lev(input, candidate)
  }

  /** The scoring of every endpoint against one normalised input. */
  function ScoreAgainst(input: string): string -> int {
    endpoint => Score(input, endpoint)
  }

  /** Entry `k` of `catalog` has the highest score among the first `n`
      entries and every earlier entry scores strictly less. */
  ghost predicate IsFirstBestAmong(score: string -> int, catalog: seq<string>, k: nat, n: nat) {
    && k < n <= |catalog|
    && (forall j :: 0 <= j < n ==> score(catalog[j]) <= score(catalog[k]))
    && (forall j :: 0 <= j < k ==> score(catalog[j]) < score(catalog[k]))
  }

  /** Entry `k` is the one the resolver must return. */
  ghost predicate IsFirstBest(score: string -> int, catalog: seq<string>, k: nat) {
    IsFirstBestAmong(score, catalog, k, |catalog|)
  }

  /** What the loop of `resolveFalEndpoint` knows after `i` entries: nothing
      seen yet, or `best` is the first best entry seen so far, with its
      score. */
  ghost predicate ScanState(score: string -> int, catalog: seq<string>, i: nat, best: string, bestScore: BestScore) {
    || (i == 0 && best == DefaultFalEndpoint && bestScore == NegativeInfinity)
    || (exists k: nat :: IsFirstBestAmong(score, catalog, k, i)
                        && best == catalog[k] && bestScore == Finite(score(catalog[k])))
  }

  /** The loop of `resolveFalEndpoint` from entry `i` on: a later entry
      replaces the best one only when it scores strictly higher. */
  function ScanFrom(score: string -> int, catalog: seq<string>, i: nat, best: string, bestScore: BestScore): (r: string)
    requires 0 < |catalog| && i <= |catalog|
    requires ScanState(score, catalog, i, best, bestScore)
    ensures exists k: nat :: IsFirstBest(score, catalog, k) && r == catalog[k]
    decreases |catalog| - i
  {
    if i == |catalog| then best
    else
      var s := score(catalog[i]);
      if Beats(s, bestScore) then
        assert IsFirstBestAmong(score, catalog, i, i + 1) by {
          if i > 0 {
            var k: nat :| IsFirstBestAmong(score, catalog, k, i)
                          && bestScore == Finite(score(catalog[k]));
          }
        }
        ScanFrom(score, catalog, i + 1, catalog[i], Finite(s))
      else
        assert ScanState(score, catalog, i + 1, best, bestScore) by {
          var k: nat :| IsFirstBestAmong(score, catalog, k, i)
                        && best == catalog[k] && bestScore == Finite(score(catalog[k]));
          assert IsFirstBestAmong(score, catalog, k, i + 1);
        }
        ScanFrom(score, catalog, i + 1, best, bestScore)
  }

  /** `resolveFalEndpoint`: the catalog endpoint whose normalised form
      scores highest against the normalised model name, the earliest one on
      ties. The default endpoint is never returned. */
  function ResolveFalEndpoint(modelName: string): (r: string)
    ensures r in ValidFalEndpoints && r != DefaultFalEndpoint
    ensures exists k: nat :: IsFirstBest(ScoreAgainst(Normalize(modelName)), ValidFalEndpoints, k)
                            && r == ValidFalEndpoints[k]
  {
    DefaultNotInCatalog();
    ScanFrom(ScoreAgainst(Normalize(modelName)), ValidFalEndpoints, 0, DefaultFalEndpoint, NegativeInfinity)
  }

  lemma DefaultNotInCatalog()
    ensures DefaultFalEndpoint !in ValidFalEndpoints
  {
  }

  /** Only one entry can be the first best one. */
  lemma FirstBestUnique(score: string -> int, catalog: seq<string>, k1: nat, k2: nat)
    requires IsFirstBest(score, catalog, k1) && IsFirstBest(score, catalog, k2)
    ensures k1 == k2
  {
    var s1 := score(catalog[k1]);
    var s2 := score(catalog[k2]);
    assert s1 <= s2 && s2 <= s1;
  }

  /** The catalog lists five distinct endpoints. */
  lemma CatalogDistinct()
    ensures forall i, j :: 0 <= i < j < |ValidFalEndpoints| ==> ValidFalEndpoints[i] != ValidFalEndpoints[j]
  {
  }

  /** For any catalog of distinct entries, the scan returns entry `k`
      exactly when `k` is the first best entry. */
  lemma ScanCharacterization(score: string -> int, catalog: seq<string>, k: nat)
    requires k < |catalog|
    requires forall i, j :: 0 <= i < j < |catalog| ==> catalog[i] != catalog[j]
    ensures ScanFrom(score, catalog, 0, DefaultFalEndpoint, NegativeInfinity) == catalog[k]
        <==> IsFirstBest(score, catalog, k)
  {
    var r := ScanFrom(score, catalog, 0, DefaultFalEndpoint, NegativeInfinity);
    var k': nat :| IsFirstBest(score, catalog, k') && r == catalog[k'];
    if IsFirstBest(score, catalog, k) {
      FirstBestUnique(score, catalog, k, k');
    }
  }

  /** The resolver returns entry `k` exactly when `k` is the first best
      entry: no entry scores higher, and every earlier one scores lower. */
  lemma ResolveCharacterization(modelName: string, k: nat)
    requires k < |ValidFalEndpoints|
    ensures ResolveFalEndpoint(modelName) == ValidFalEndpoints[k]
        <==> IsFirstBest(ScoreAgainst(Normalize(modelName)), ValidFalEndpoints, k)
  {
    CatalogDistinct();
    ScanCharacterization(ScoreAgainst(Normalize(modelName)), ValidFalEndpoints, k);
  }

  /** An entry that scores at least as high as every entry, and strictly
      higher than every earlier one, is the one returned. */
  lemma ResolveByScores(modelName: string, k: nat)
    requires k < |ValidFalEndpoints|
    requires forall j :: 0 <= j < |ValidFalEndpoints| ==>
               Score(Normalize(modelName), ValidFalEndpoints[j]) <= Score(Normalize(modelName), ValidFalEndpoints[k])
    requires forall j :: 0 <= j < k ==>
               Score(Normalize(modelName), ValidFalEndpoints[j]) < Score(Normalize(modelName), ValidFalEndpoints[k])
    ensures ResolveFalEndpoint(modelName) == ValidFalEndpoints[k]
  {
    assert IsFirstBest(ScoreAgainst(Normalize(modelName)), ValidFalEndpoints, k);
    ResolveCharacterization(modelName, k);
  }
}
