/** Levenshtein distance as used by the fal endpoint resolver
    (`levenshtein` in src/effects/genai-service.ts): a recursive reference
    definition, the dynamic-programming table `levenshtein` fills in, and the
    metric facts the resolver's scoring relies on. */
module EditDistance {

  function Min3(x: int, y: int, z: int): int {
    if x <= y && x <= z then x else if y <= z then y else z
  }

  function Max(x: int, y: int): int {
    if x >= y then x else y
  }

  /** Substitution cost: 0 for equal characters, 1 otherwise. */
  function Cost(x: char, y: char): nat {
    if x == y then 0 else 1
  }

  /** Reference definition on prefixes: the least number of single-character
      insertions, deletions and substitutions turning the first `i`
      characters of `a` into the first `j` characters of `b`, by recursion
      on the last characters. */
  function Dist(a: string, b: string, i: nat, j: nat): nat
    requires i <= |a| && j <= |b|
    decreases i + j
  {
    if i == 0 then j
    else if j == 0 then i
    else
      Min3(Dist(a, b, i - 1, j) + 1,
           Dist(a, b, i, j - 1) + 1,
           Dist(a, b, i - 1, j - 1) + Cost(a[i - 1], b[j - 1]))
  }

  /** The distance between two whole strings. */
  function Lev(a: string, b: string): nat {
    Dist(a, b, |a|, |b|)
  }

  /** `row` is row `i` of the table: `row[j]` is the distance between the
      first `i` characters of `a` and the first `j` of `b`. */
  ghost predicate IsRow(a: string, b: string, i: nat, row: seq<nat>) {
    && i <= |a|
    && |row| == |b| + 1
    && forall j {:trigger row[j]} :: 0 <= j <= |b| ==> row[j] == Dist(a, b, i, j)
  }

  /** The inner loop of `levenshtein`: row `i` from row `i - 1`, left to right. */
  method NextRow(a: string, b: string, i: nat, prev: seq<nat>) returns (row: seq<nat>)
    requires 1 <= i <= |a| && IsRow(a, b, i - 1, prev)
    ensures IsRow(a, b, i, row)
  {
    row := [i];
    for j := 1 to |b| + 1
      invariant |row| == j
      invariant forall j' {:trigger row[j']} :: 0 <= j' < j ==> row[j'] == Dist(a, b, i, j')
    {
      var cost := if a[i - 1] == b[j - 1] then 0 else 1;
      var cell := Min3(prev[j] + 1, row[j - 1] + 1, prev[j - 1] + cost);
      row := row + [cell];
    }
  }

  /** `levenshtein`'s table-filling algorithm: row 0 is `0, 1, ..., |b|`, each
      further row is filled from the one above, and the answer is the last
      cell. It computes the reference distance. */
  method Levenshtein(a: string, b: string) returns (d: nat)
    ensures d == Lev(a, b)
  {
    var dp: seq<seq<nat>> := [seq(|b| + 1, j => j)];
    for i := 1 to |a| + 1
      invariant |dp| == i
      invariant forall i' :: 0 <= i' < i ==> IsRow(a, b, i', dp[i'])
    {
      var next := NextRow(a, b, i, dp[i - 1]);
      dp := dp + [next];
    }
    d := dp[|a|][|b|];
  }

  /** Equal prefixes are at distance 0. */
  lemma {:induction false} DistSame(a: string, b: string, i: nat)
    requires i <= |a| && i <= |b| && a[..i] == b[..i]
    ensures Dist(a, b, i, i) == 0
  {
    if i > 0 {
      assert a[..i - 1] == a[..i][..i - 1] && b[..i - 1] == b[..i][..i - 1];
      assert a[i - 1] == a[..i][i - 1];
      DistSame(a, b, i - 1);
    }
  }

  /** A string is at distance 0 from itself. */
  lemma LevSelf(a: string)
    ensures Lev(a, a) == 0
  {
    DistSame(a, a, |a|);
  }

  /** Against the empty string the distance is the other length. */
  lemma LevEmpty(a: string)
    ensures Lev(a, []) == |a| && Lev([], a) == |a|
  {
  }

  /** Only equal prefixes are at distance 0. */
  lemma {:induction false} DistZero(a: string, b: string, i: nat, j: nat)
    requires i <= |a| && j <= |b| && Dist(a, b, i, j) == 0
    ensures i == j && a[..i] == b[..j]
    decreases i + j
  {
    if i > 0 && j > 0 {
      var diag := Dist(a, b, i - 1, j - 1);
      assert Dist(a, b, i, j) == Min3(Dist(a, b, i - 1, j) + 1, Dist(a, b, i, j - 1) + 1, diag + Cost(a[i - 1], b[j - 1]));
      assert diag == 0 && a[i - 1] == b[j - 1];
      DistZero(a, b, i - 1, j - 1);
      assert a[..i] == a[..i - 1] + [a[i - 1]] && b[..j] == b[..j - 1] + [b[j - 1]];
    }
  }

  /** Distance 0 means equal strings, and only then. */
  lemma LevZero(a: string, b: string)
    ensures Lev(a, b) == 0 <==> a == b
  {
    if Lev(a, b) == 0 {
      DistZero(a, b, |a|, |b|);
      assert a == a[..|a|] && b == b[..|b|];
    } else if a == b {
      LevSelf(a);
    }
  }

  /** The prefix distance is at least the difference of the lengths and at
      most the larger length. */
  lemma {:induction false} DistBounds(a: string, b: string, i: nat, j: nat)
    requires i <= |a| && j <= |b|
    ensures i - j <= Dist(a, b, i, j) && j - i <= Dist(a, b, i, j)
    ensures Dist(a, b, i, j) <= Max(i, j)
    decreases i + j
  {
    if i > 0 && j > 0 {
      DistBounds(a, b, i - 1, j);
      DistBounds(a, b, i, j - 1);
      DistBounds(a, b, i - 1, j - 1);
      var up, left, diag := Dist(a, b, i - 1, j), Dist(a, b, i, j - 1), Dist(a, b, i - 1, j - 1);
      assert Dist(a, b, i, j) == Min3(up + 1, left + 1, diag + Cost(a[i - 1], b[j - 1]));
    }
  }

  /** The distance is at least the difference of the lengths and at most
      the larger length. */
  lemma LevBounds(a: string, b: string)
    ensures |a| - |b| <= Lev(a, b) && |b| - |a| <= Lev(a, b)
    ensures Lev(a, b) <= Max(|a|, |b|)
  {
    DistBounds(a, b, |a|, |b|);
  }

  /** Swapping the strings swaps the prefixes and keeps the distance. */
  lemma {:induction false} DistSymmetric(a: string, b: string, i: nat, j: nat)
    requires i <= |a| && j <= |b|
    ensures Dist(a, b, i, j) == Dist(b, a, j, i)
    decreases i + j
  {
    if i > 0 && j > 0 {
      DistSymmetric(a, b, i - 1, j);
      DistSymmetric(a, b, i, j - 1);
      DistSymmetric(a, b, i - 1, j - 1);
      assert Cost(a[i - 1], b[j - 1]) == Cost(b[j - 1], a[i - 1]);
    }
  }

  /** The distance does not depend on the order of its arguments. */
  lemma LevSymmetric(a: string, b: string)
    ensures Lev(a, b) == Lev(b, a)
  {
    DistSymmetric(a, b, |a|, |b|);
  }

  /** From a common prefix of length `i`, `k` more characters of `b` cost at
      most `k` insertions. */
  lemma {:induction false} DistInsertions(a: string, b: string, i: nat, k: nat)
    requires i <= |a| && i + k <= |b| && a[..i] == b[..i]
    ensures Dist(a, b, i, i + k) <= k
    decreases k
  {
    if k == 0 {
      DistSame(a, b, i);
    } else {
      DistInsertions(a, b, i, k - 1);
    }
  }

  /** Extending a string by `t` costs exactly `|t|` insertions. */
  lemma LevExtend(a: string, t: string)
    ensures Lev(a, a + t) == |t|
  {
    assert (a + t)[..|a|] == a[..|a|];
    DistInsertions(a, a + t, |a|, |t|);
    LevBounds(a, a + t);
  }
}
