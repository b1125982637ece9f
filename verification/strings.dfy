/** The JavaScript string operations the modelled code relies on, over
    `string == seq<char>`: ASCII lower-casing, `trim`, `includes`,
    `Array.prototype.join`, one-character `split`, and the maximal runs of a
    character class that the regular-expression passes reduce to. */
module Strings {

  /** Membership in the regular-expression class `[a-z0-9]`. */
  predicate IsLowerAlnum(c: char) {
    'a' <= c <= 'z' || '0' <= c <= '9'
  }

  /** `toLowerCase` on one character; only ASCII letters change. */
  function LowerChar(c: char): (r: char)
    ensures 'A' <= c <= 'Z' ==> 'a' <= r <= 'z' && r as int == c as int + 32
    ensures !('A' <= c <= 'Z') ==> r == c
  {
    if 'A' <= c <= 'Z' then (c as int + 32) as char else c
  }

  /** `toLowerCase`, character by character. */
  function Lower(s: string): (r: string)
    ensures |r| == |s|
    ensures forall i :: 0 <= i < |s| ==> r[i] == LowerChar(s[i])
  {
    seq(|s|, i requires 0 <= i < |s| => LowerChar(s[i]))
  }

  /** Lower-casing is idempotent and leaves no ASCII capital behind. */
  lemma LowerIdempotent(s: string)
    ensures Lower(Lower(s)) == Lower(s)
    ensures forall i :: 0 <= i < |s| ==> !('A' <= Lower(s)[i] <= 'Z')
  {
  }

  /** Lower-casing works character by character. */
  lemma {:induction false} LowerAppend(a: string, b: string)
    ensures Lower(a + b) == Lower(a) + Lower(b)
  {
    if a != [] {
      assert (a + b)[1..] == a[1..] + b;
      LowerAppend(a[1..], b);
    }
  }

  /** The characters `String.prototype.trim` removes: white space and
      line terminators as ECMAScript defines them. */
  predicate IsJsWhitespace(c: char) {
    || c == '\t' || c == '\n' || c == '\U{B}' || c == '\U{C}' || c == '\r' || c == ' '
    || c == '\U{A0}' || c == '\U{1680}' || '\U{2000}' <= c <= '\U{200A}'
    || c == '\U{2028}' || c == '\U{2029}' || c == '\U{202F}' || c == '\U{205F}'
    || c == '\U{3000}' || c == '\U{FEFF}'
  }

  /** Every character of `s[lo..hi]` is white space. */
  predicate SpaceBetween(s: string, lo: int, hi: int)
    requires 0 <= lo <= hi <= |s|
  {
    forall i :: lo <= i < hi ==> IsJsWhitespace(s[i])
  }

  predicate AllWhitespace(s: string) {
    SpaceBetween(s, 0, |s|)
  }

  /** `r` is `s` with `k` white-space characters before it and only white
      space after it. */
  predicate IsPadding(s: string, k: int, r: string) {
    && 0 <= k <= |s| - |r|
    && s[k..k + |r|] == r
    && SpaceBetween(s, 0, k)
    && SpaceBetween(s, k + |r|, |s|)
  }

  /** The first index at or after `i` that does not hold white space. */
  function SkipSpace(s: string, i: nat): (j: nat)
    requires i <= |s|
    ensures i <= j <= |s| && SpaceBetween(s, i, j)
    ensures j < |s| ==> !IsJsWhitespace(s[j])
    decreases |s| - i
  {
    if i == |s| || !IsJsWhitespace(s[i]) then i else SkipSpace(s, i + 1)
  }

  /** The index after the last character of `s[lo..hi]` that is not white
      space, or `lo` when there is none. */
  function SkipSpaceBack(s: string, lo: nat, hi: nat): (e: nat)
    requires lo <= hi <= |s|
    ensures lo <= e <= hi && SpaceBetween(s, e, hi)
    ensures e > lo ==> !IsJsWhitespace(s[e - 1])
    decreases hi - lo
  {
    if hi == lo || !IsJsWhitespace(s[hi - 1]) then hi else SkipSpaceBack(s, lo, hi - 1)
  }

  /** `String.prototype.trim`: `s` is some white space, then `r`, then some
      white space; `r` neither starts nor ends with white space, and it is
      empty exactly when `s` is all white space. */
  function Trim(s: string): (r: string)
    ensures exists k :: IsPadding(s, k, r)
    ensures r == [] || (!IsJsWhitespace(r[0]) && !IsJsWhitespace(r[|r| - 1]))
    ensures r == [] <==> AllWhitespace(s)
  {
    var b := SkipSpace(s, 0);
    var e := SkipSpaceBack(s, b, |s|);
    var r := s[b..e];
    assert IsPadding(s, b, r);
    assert b == e ==> AllWhitespace(s);
    r
  }

  /** The two end conditions pin `trim`'s result down: a padding of `s`
      that neither starts nor ends with white space, and that is empty only
      for an all-white-space `s`, is `Trim(s)`. */
  lemma TrimUnique(s: string, k: nat, r: string)
    requires IsPadding(s, k, r)
    requires r == [] || (!IsJsWhitespace(r[0]) && !IsJsWhitespace(r[|r| - 1]))
    requires r == [] <==> AllWhitespace(s)
    ensures r == Trim(s)
  {
    var b := SkipSpace(s, 0);
    var e := SkipSpaceBack(s, b, |s|);
    if r != [] {
      assert s[k] == r[0] && s[k + |r| - 1] == r[|r| - 1];
      assert b == k;
      assert e == k + |r|;
    }
  }

  /** A string that neither starts nor ends with white space is its own
      trim. */
  lemma TrimOfTrimmed(s: string)
    requires s == [] || (!IsJsWhitespace(s[0]) && !IsJsWhitespace(s[|s| - 1]))
    ensures Trim(s) == s
  {
    assert IsPadding(s, 0, s);
    assert s == [] ==> AllWhitespace(s);
    if s != [] {
      assert !SpaceBetween(s, 0, |s|) by { assert !IsJsWhitespace(s[0]); }
    }
    TrimUnique(s, 0, s);
  }

  /** Trimming only removes characters, so it keeps any character class. */
  lemma TrimKeepsChars(s: string, keep: char -> bool)
    requires AllIn(s, keep)
    ensures AllIn(Trim(s), keep)
  {
    var r := Trim(s);
    var k :| IsPadding(s, k, r);
    assert forall i :: 0 <= i < |r| ==> r[i] == s[k + i];
  }

  /** No lower-case ASCII letter is white space. */
  lemma LetterNotWhitespace(c: char)
    requires 'a' <= c <= 'z'
    ensures !IsJsWhitespace(c)
  {
  }

  /** A word of lower-case ASCII letters is unchanged by lower-casing and by
      trimming. */
  lemma LowercaseWord(w: string)
    requires forall i :: 0 <= i < |w| ==> 'a' <= w[i] <= 'z'
    ensures Lower(w) == w && Trim(w) == w
  {
    if w != [] {
      LetterNotWhitespace(w[0]);
      LetterNotWhitespace(w[|w| - 1]);
    }
    TrimOfTrimmed(w);
  }

  lemma TrimIdempotent(s: string)
    ensures Trim(Trim(s)) == Trim(s)
  {
    var r := Trim(s);
    assert IsPadding(r, 0, r);
    TrimUnique(r, 0, r);
  }

  /** `n` occurs in `h` starting at position `i`. */
  predicate OccursAt(h: string, n: string, i: int) {
    0 <= i <= |h| - |n| && h[i..i + |n|] == n
  }

  /** `h.includes(n)`. */
  function Contains(h: string, n: string): (r: bool)
    ensures r <==> exists i :: OccursAt(h, n, i)
    decreases |h|
  {
    if |h| < |n| then false
    else if h[..|n|] == n then assert OccursAt(h, n, 0); true
    else
      OccursAtTail(h, n);
      Contains(h[1..], n)
  }

  /** An occurrence after position 0 is an occurrence in the tail. */
  lemma OccursAtTail(h: string, n: string)
    requires h != []
    ensures forall i :: OccursAt(h[1..], n, i) ==> OccursAt(h, n, i + 1)
    ensures forall i :: OccursAt(h, n, i) && i > 0 ==> OccursAt(h[1..], n, i - 1)
  {
    forall i | OccursAt(h[1..], n, i)
      ensures OccursAt(h, n, i + 1)
    {
      assert h[1..][i..i + |n|] == h[i + 1..i + 1 + |n|];
    }
    forall i | OccursAt(h, n, i) && i > 0
      ensures OccursAt(h[1..], n, i - 1)
    {
      assert h[1..][i - 1..i - 1 + |n|] == h[i..i + |n|];
    }
  }

  /** `parts.join(sep)`. */
  function Join(parts: seq<string>, sep: string): string {
    if |parts| == 0 then []
    else if |parts| == 1 then parts[0]
    else parts[0] + sep + Join(parts[1..], sep)
  }

  predicate AllIn(w: string, keep: char -> bool) {
    forall i :: 0 <= i < |w| ==> keep(w[i])
  }

  /** Every word is non-empty and made of `keep` characters only. */
  predicate IsRunList(ws: seq<string>, keep: char -> bool) {
    forall k :: 0 <= k < |ws| ==> ws[k] != [] && AllIn(ws[k], keep)
  }

  /** Length of the longest prefix of `keep` characters. */
  function LeadingRun(s: string, keep: char -> bool): (n: nat)
    ensures n <= |s| && AllIn(s[..n], keep)
    ensures n < |s| ==> !keep(s[n])
  {
    if s == [] || !keep(s[0]) then 0 else 1 + LeadingRun(s[1..], keep)
  }

  /** The maximal non-empty runs of `keep` characters of `s`, left to right.
      Replacing every maximal run of other characters by one separator and
      trimming separators at both ends leaves exactly these runs. */
  function Runs(s: string, keep: char -> bool): (ws: seq<string>)
    ensures IsRunList(ws, keep)
    decreases |s|
  {
    if s == [] then []
    else if !keep(s[0]) then Runs(s[1..], keep)
    else
      var n := LeadingRun(s, keep);
      [s[..n]] + Runs(s[n..], keep)
  }

  /** Characters outside the class never contribute to a run. */
  lemma RunsSkipSeparator(c: char, s: string, keep: char -> bool)
    requires !keep(c)
    ensures Runs([c] + s, keep) == Runs(s, keep)
  {
    assert ([c] + s)[1..] == s;
  }

  /** A prefix of characters outside the class never contributes a run. */
  lemma {:induction false} RunsSkipPrefix(s: string, m: nat, keep: char -> bool)
    requires m <= |s|
    requires forall i :: 0 <= i < m ==> !keep(s[i])
    ensures Runs(s, keep) == Runs(s[m..], keep)
  {
    if m > 0 {
      var t := s[1..];
      assert s == [s[0]] + t;
      RunsSkipSeparator(s[0], t, keep);
      assert forall i :: 0 <= i < m - 1 ==> t[i] == s[i + 1];
      RunsSkipPrefix(t, m - 1, keep);
      assert t[m - 1..] == s[m..];
    }
  }

  /** A word followed by a character outside the class is the first run. */
  lemma RunsOfWordThen(w: string, c: char, y: string, keep: char -> bool)
    requires w != [] && AllIn(w, keep) && !keep(c)
    ensures Runs(w + [c] + y, keep) == [w] + Runs(y, keep)
  {
    var s := w + ([c] + y);
    assert s == w + [c] + y;
    assert s[0] == w[0] && keep(s[0]);
    assert LeadingRun(s, keep) == |w| by {
      LeadingRunOfWord(w, [c] + y, keep);
    }
    assert Runs(s, keep) == [s[..|w|]] + Runs(s[|w|..], keep);
    assert s[..|w|] == w && s[|w|..] == [c] + y;
    RunsSkipSeparator(c, y, keep);
  }

  /** A non-empty word of the class is its only run. */
  lemma RunsOfWord(w: string, keep: char -> bool)
    requires w != [] && AllIn(w, keep)
    ensures Runs(w, keep) == [w]
  {
    LeadingRunOfWord(w, [], keep);
    assert w + [] == w;
    assert w[..|w|] == w && w[|w|..] == [];
  }

  lemma {:induction false} LeadingRunOfWord(w: string, t: string, keep: char -> bool)
    requires AllIn(w, keep)
    requires t == [] || !keep(t[0])
    ensures LeadingRun(w + t, keep) == |w|
  {
    if w != [] {
      assert (w + t)[1..] == w[1..] + t;
      LeadingRunOfWord(w[1..], t, keep);
    }
  }

  /** Joining words with a separator outside the class and splitting the
      result back into runs gives the words back. */
  lemma {:induction false} RunsOfJoin(ws: seq<string>, sep: char, keep: char -> bool)
    requires IsRunList(ws, keep)
    requires !keep(sep)
    ensures Runs(Join(ws, [sep]), keep) == ws
  {
    if |ws| == 1 {
      LeadingRunOfWord(ws[0], [], keep);
      assert ws[0] + [] == ws[0];
      assert ws[0][|ws[0]|..] == [];
    } else if |ws| > 1 {
      var w := ws[0];
      var rest := Join(ws[1..], [sep]);
      var s := w + [sep] + rest;
      assert s == w + ([sep] + rest);
      LeadingRunOfWord(w, [sep] + rest, keep);
      assert s[..|w|] == w;
      assert s[|w|..] == [sep] + rest;
      RunsSkipSeparator(sep, rest, keep);
      RunsOfJoin(ws[1..], sep, keep);
      assert [w] + ws[1..] == ws;
    }
  }

  /** `AllIn` by recursion on the string, which the verifier can decide on
      a literal by unfolding. */
  predicate EveryChar(w: string, keep: char -> bool) {
    w == [] || (keep(w[0]) && EveryChar(w[1..], keep))
  }

  lemma {:induction false} EveryCharAllIn(w: string, keep: char -> bool)
    ensures EveryChar(w, keep) <==> AllIn(w, keep)
  {
    if w != [] {
      EveryCharAllIn(w[1..], keep);
      assert forall i :: 1 <= i < |w| ==> w[i] == w[1..][i - 1];
    }
  }

  /** `IsRunList` by recursion on the list. */
  predicate EveryRun(ws: seq<string>, keep: char -> bool) {
    ws == [] || (ws[0] != [] && EveryChar(ws[0], keep) && EveryRun(ws[1..], keep))
  }

  lemma {:induction false} EveryRunIsRunList(ws: seq<string>, keep: char -> bool)
    requires EveryRun(ws, keep)
    ensures IsRunList(ws, keep)
  {
    if ws != [] {
      EveryCharAllIn(ws[0], keep);
      EveryRunIsRunList(ws[1..], keep);
      assert forall k :: 1 <= k < |ws| ==> ws[k] == ws[1..][k - 1];
    }
  }

  /** Words separated by the given separator characters, one between each
      two neighbours. */
  function Interleave(ws: seq<string>, seps: string): string
    requires |ws| >= 1 && |seps| == |ws| - 1
  {
    if |ws| == 1 then ws[0] else ws[0] + [seps[0]] + Interleave(ws[1..], seps[1..])
  }

  /** The runs of words separated by characters outside the class are the
      words. */
  lemma {:induction false} RunsOfInterleave(ws: seq<string>, seps: string, keep: char -> bool)
    requires |ws| >= 1 && |seps| == |ws| - 1
    requires IsRunList(ws, keep)
    requires forall i :: 0 <= i < |seps| ==> !keep(seps[i])
    ensures Runs(Interleave(ws, seps), keep) == ws
  {
    var w := ws[0];
    if |ws| == 1 {
      LeadingRunOfWord(w, [], keep);
      assert w + [] == w;
      assert w[|w|..] == [];
    } else {
      var rest := Interleave(ws[1..], seps[1..]);
      var s := w + [seps[0]] + rest;
      assert s == w + ([seps[0]] + rest);
      LeadingRunOfWord(w, [seps[0]] + rest, keep);
      assert s[..|w|] == w;
      assert s[|w|..] == [seps[0]] + rest;
      RunsSkipSeparator(seps[0], rest, keep);
      RunsOfInterleave(ws[1..], seps[1..], keep);
      assert [w] + ws[1..] == ws;
    }
  }

  /** Interleaving starts with the first word's first character and ends
      with the last word's last character. */
  lemma {:induction false} InterleaveEnds(ws: seq<string>, seps: string)
    requires |ws| >= 1 && |seps| == |ws| - 1
    requires forall k :: 0 <= k < |ws| ==> ws[k] != []
    ensures var s := Interleave(ws, seps);
      s != [] && s[0] == ws[0][0] && s[|s| - 1] == ws[|ws| - 1][|ws[|ws| - 1]| - 1]
  {
    if |ws| > 1 {
      assert forall k :: 0 <= k < |ws| - 1 ==> ws[1..][k] == ws[k + 1];
      InterleaveEnds(ws[1..], seps[1..]);
    }
  }

  /** Position of the first `c` in `s`, or `|s|` when there is none. */
  function IndexOf(s: string, c: char): (i: nat)
    ensures i <= |s|
    ensures i < |s| ==> s[i] == c
    ensures c !in s[..i]
  {
    if s == [] || s[0] == c then 0 else 1 + IndexOf(s[1..], c)
  }

  /** `s.split(c)` for a one-character separator: the pieces between the
      occurrences of `c`; the empty string splits into `[""]`. */
  function Split(s: string, c: char): (parts: seq<string>)
    ensures |parts| >= 1
    ensures forall k :: 0 <= k < |parts| ==> c !in parts[k]
    decreases |s|
  {
    var i := IndexOf(s, c);
    if i == |s| then [s] else [s[..i]] + Split(s[i + 1..], c)
  }

  /** Joining the pieces with the separator restores the string. */
  lemma {:induction false} JoinSplit(s: string, c: char)
    ensures Join(Split(s, c), [c]) == s
    decreases |s|
  {
    var i := IndexOf(s, c);
    if i < |s| {
      var rest := s[i + 1..];
      var parts := Split(rest, c);
      assert Split(s, c) == [s[..i]] + parts;
      JoinSplit(rest, c);
      JoinCons(s[..i], parts, [c]);
      assert s == s[..i] + [c] + rest;
    }
  }

  lemma JoinCons(p: string, parts: seq<string>, sep: string)
    requires |parts| >= 1
    ensures Join([p] + parts, sep) == p + sep + Join(parts, sep)
  {
    assert ([p] + parts)[1..] == parts;
  }

  /** Splitting a join of separator-free pieces gives the pieces back. */
  lemma {:induction false} SplitJoin(parts: seq<string>, c: char)
    requires |parts| >= 1
    requires forall k :: 0 <= k < |parts| ==> c !in parts[k]
    ensures Split(Join(parts, [c]), c) == parts
  {
    var p := parts[0];
    if |parts| == 1 {
      IndexOfAbsent(p, c);
    } else {
      var rest := Join(parts[1..], [c]);
      var s := p + [c] + rest;
      IndexOfAfterPiece(p, c, rest);
      assert s[..|p|] == p;
      assert s[|p| + 1..] == rest;
      SplitJoin(parts[1..], c);
      assert [p] + parts[1..] == parts;
    }
  }

  lemma IndexOfAbsent(s: string, c: char)
    requires c !in s
    ensures IndexOf(s, c) == |s|
  {
  }

  lemma {:induction false} IndexOfAfterPiece(p: string, c: char, rest: string)
    requires c !in p
    ensures IndexOf(p + [c] + rest, c) == |p|
  {
    if p != [] {
      assert (p + [c] + rest)[1..] == p[1..] + [c] + rest;
      IndexOfAfterPiece(p[1..], c, rest);
    }
  }

  /** `xs.filter(p)`, keeping the order of the kept elements. */
  function Filter<T>(xs: seq<T>, p: T -> bool): (r: seq<T>)
    ensures |r| <= |xs|
    ensures forall k :: 0 <= k < |r| ==> p(r[k]) && r[k] in xs
    ensures forall k :: 0 <= k < |xs| && p(xs[k]) ==> xs[k] in r
  {
    if xs == [] then []
    else if p(xs[0]) then [xs[0]] + Filter(xs[1..], p)
    else Filter(xs[1..], p)
  }

  /** Filtering distributes over concatenation, so the relative order of the
      kept elements is that of `xs`. */
  lemma {:induction false} FilterAppend<T>(a: seq<T>, b: seq<T>, p: T -> bool)
    ensures Filter(a + b, p) == Filter(a, p) + Filter(b, p)
  {
    if a == [] {
      assert a + b == b;
    } else {
      assert (a + b)[0] == a[0];
      assert (a + b)[1..] == a[1..] + b;
      FilterAppend(a[1..], b, p);
    }
  }

  lemma FilterCons<T>(x: T, xs: seq<T>, p: T -> bool)
    ensures Filter([x] + xs, p) == (if p(x) then [x] else []) + Filter(xs, p)
  {
    assert ([x] + xs)[0] == x && ([x] + xs)[1..] == xs;
  }

  /** Whatever every element has, every kept element has. */
  lemma FilterPreserves<T>(xs: seq<T>, p: T -> bool, q: T -> bool)
    requires forall i :: 0 <= i < |xs| ==> q(xs[i])
    ensures forall k :: 0 <= k < |Filter(xs, p)| ==> q(Filter(xs, p)[k]) && p(Filter(xs, p)[k])
  {
  }

  /** Filtering keeps everything when everything passes. */
  lemma {:induction false} FilterAll<T>(xs: seq<T>, p: T -> bool)
    requires forall i :: 0 <= i < |xs| ==> p(xs[i])
    ensures Filter(xs, p) == xs
  {
    if xs != [] {
      assert forall i :: 0 <= i < |xs| - 1 ==> xs[1..][i] == xs[i + 1];
      FilterAll(xs[1..], p);
      assert [xs[0]] + xs[1..] == xs;
    }
  }

  /** `xs.map(f)`. */
  function MapSeq<A, B>(xs: seq<A>, f: A -> B): (r: seq<B>)
    ensures |r| == |xs|
    ensures forall i :: 0 <= i < |xs| ==> r[i] == f(xs[i])
  {
    seq(|xs|, i requires 0 <= i < |xs| => f(xs[i]))
  }
}
