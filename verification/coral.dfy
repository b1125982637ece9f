/** The pure parts of the Coral agent entrypoint: listing tool keys, the
    fuzzy tool lookup, decoding a mention, normalising the result of the
    mention wait, the routing guard and the fallback order of reply
    payloads. A tool record is a sequence of entries in `Object.keys`
    order; the tools themselves are opaque. */
module Coral {
  import opened Wrappers
  import opened Strings
  import opened JsValues

  datatype Entry<T> = Entry(key: string, tool: T)

  function Keys<T>(tools: seq<Entry<T>>): (keys: seq<string>)
    ensures |keys| == |tools|
    ensures forall i :: 0 <= i < |tools| ==> keys[i] == tools[i].key
  {
    seq(|tools|, i requires 0 <= i < |tools| => tools[i].key)
  }

  // ---------------------------------------------------------------------
  // Ordering of keys, as `Array.prototype.sort` compares strings

  /** The UTF-16 code units of one character: the character itself below
      U+10000, a high and a low surrogate above. */
  function CodeUnits(c: char): (u: seq<int>)
    ensures 1 <= |u| <= 2
    ensures |u| == 1 <==> (c as int) < 0x1_0000
    ensures |u| == 1 ==> u[0] == c as int
    ensures |u| == 2 ==> 0xD800 <= u[0] < 0xDC00 && 0xDC00 <= u[1] < 0xE000
    ensures |u| == 2 ==> (c as int) == 0x1_0000 + (u[0] - 0xD800) * 0x400 + (u[1] - 0xDC00)
  {
    var v := c as int;
    if v < 0x1_0000 then [v]
    else [0xD800 + (v - 0x1_0000) / 0x400, 0xDC00 + (v - 0x1_0000) % 0x400]
  }

  /** The UTF-16 encoding of a string: what JavaScript indexes and
      compares. */
  function Utf16(s: string): (u: seq<int>)
    ensures s == [] <==> u == []
    decreases |s|
  {
    if s == [] then [] else CodeUnits(s[0]) + Utf16(s[1..])
  }

  /** A character is determined by its first code unit and, for a
      surrogate pair, its second. */
  lemma CodeUnitsPrefix(c: char, d: char, x: seq<int>, y: seq<int>)
    requires CodeUnits(c) + x == CodeUnits(d) + y
    ensures c == d && x == y
  {
    var uc, ud := CodeUnits(c), CodeUnits(d);
    assert uc[0] == (uc + x)[0] && ud[0] == (ud + y)[0];
    if |uc| == 2 {
      assert (uc + x)[1] == uc[1];
      if |ud| == 1 {
        assert false;
      }
      assert (ud + y)[1] == ud[1];
      assert (c as int) == (d as int);
    } else if |ud| == 2 {
      assert false;
    }
    assert uc == ud;
    assert x == (uc + x)[|uc|..] && y == (ud + y)[|ud|..];
  }

  /** Different strings have different encodings. */
  lemma {:induction false} Utf16Injective(a: string, b: string)
    requires Utf16(a) == Utf16(b)
    ensures a == b
    decreases |a|
  {
    if a != [] {
      CodeUnitsPrefix(a[0], b[0], Utf16(a[1..]), Utf16(b[1..]));
      Utf16Injective(a[1..], b[1..]);
      assert a == [a[0]] + a[1..] && b == [b[0]] + b[1..];
    }
  }

  /** `a <= b` on code-unit sequences: a proper prefix comes first,
      otherwise the first differing unit decides. */
  predicate UnitsLessEq(a: seq<int>, b: seq<int>)
    decreases |a|
  {
    if a == [] then true
    else if b == [] then false
    else a[0] < b[0] || (a[0] == b[0] && UnitsLessEq(a[1..], b[1..]))
  }

  /** `a <= b` as `sort()` decides it without a comparator: by the UTF-16
      code units of the two strings. */
  predicate LessEq(a: string, b: string) {
    UnitsLessEq(Utf16(a), Utf16(b))
  }

  lemma {:induction false} UnitsLessEqReflexive(a: seq<int>)
    ensures UnitsLessEq(a, a)
    decreases |a|
  {
    if a != [] {
      UnitsLessEqReflexive(a[1..]);
    }
  }

  lemma {:induction false} UnitsLessEqTotal(a: seq<int>, b: seq<int>)
    ensures UnitsLessEq(a, b) || UnitsLessEq(b, a)
    decreases |a|
  {
    if a != [] && b != [] && a[0] == b[0] {
      UnitsLessEqTotal(a[1..], b[1..]);
    }
  }

  lemma {:induction false} UnitsLessEqAntisymmetric(a: seq<int>, b: seq<int>)
    requires UnitsLessEq(a, b) && UnitsLessEq(b, a)
    ensures a == b
    decreases |a|
  {
    if a != [] {
      UnitsLessEqAntisymmetric(a[1..], b[1..]);
      assert a == [a[0]] + a[1..] && b == [b[0]] + b[1..];
    }
  }

  lemma {:induction false} UnitsLessEqTransitive(a: seq<int>, b: seq<int>, c: seq<int>)
    requires UnitsLessEq(a, b) && UnitsLessEq(b, c)
    ensures UnitsLessEq(a, c)
    decreases |a|
  {
    if a != [] && a[0] == b[0] && b[0] == c[0] {
      UnitsLessEqTransitive(a[1..], b[1..], c[1..]);
    }
  }

  lemma LessEqReflexive(a: string)
    ensures LessEq(a, a)
  {
    UnitsLessEqReflexive(Utf16(a));
  }

  lemma LessEqTotal(a: string, b: string)
    ensures LessEq(a, b) || LessEq(b, a)
  {
    UnitsLessEqTotal(Utf16(a), Utf16(b));
  }

  lemma LessEqAntisymmetric(a: string, b: string)
    requires LessEq(a, b) && LessEq(b, a)
    ensures a == b
  {
    UnitsLessEqAntisymmetric(Utf16(a), Utf16(b));
    Utf16Injective(a, b);
  }

  lemma LessEqTransitive(a: string, b: string, c: string)
    requires LessEq(a, b) && LessEq(b, c)
    ensures LessEq(a, c)
  {
    UnitsLessEqTransitive(Utf16(a), Utf16(b), Utf16(c));
  }

  predicate Sorted(s: seq<string>) {
    forall i, j :: 0 <= i < j < |s| ==> LessEq(s[i], s[j])
  }

  predicate BelowAll(x: string, s: seq<string>) {
    forall j :: 0 <= j < |s| ==> LessEq(x, s[j])
  }

  lemma BelowHead(x: string, s: seq<string>)
    requires Sorted(s) && s != [] && LessEq(x, s[0])
    ensures BelowAll(x, s)
  {
    forall j | 0 <= j < |s|
      ensures LessEq(x, s[j])
    {
      if j > 0 {
        LessEqTransitive(x, s[0], s[j]);
      }
    }
  }

  lemma BelowAllMultiset(x: string, s: seq<string>, r: seq<string>)
    requires BelowAll(x, s)
    requires multiset(r) <= multiset(s)
    ensures BelowAll(x, r)
  {
    forall j | 0 <= j < |r|
      ensures LessEq(x, r[j])
    {
      assert r[j] in multiset(s);
      var k :| 0 <= k < |s| && s[k] == r[j];
    }
  }

  /** Putting an element below everything in front keeps a sequence sorted. */
  lemma SortedCons(x: string, s: seq<string>)
    requires Sorted(s) && BelowAll(x, s)
    ensures Sorted([x] + s)
  {
    forall i, j | 0 <= i < j < |[x] + s|
      ensures LessEq(([x] + s)[i], ([x] + s)[j])
    {
      if i > 0 {
        assert ([x] + s)[i] == s[i - 1];
      }
      assert ([x] + s)[j] == s[j - 1];
    }
  }

  /** The step of `Insert` that keeps the head in front. */
  lemma InsertBehindHead(x: string, s: seq<string>, rest: seq<string>)
    requires Sorted(s) && s != [] && !LessEq(x, s[0])
    requires Sorted(rest) && multiset(rest) == multiset(s[1..]) + multiset{x}
    ensures Sorted([s[0]] + rest)
    ensures multiset([s[0]] + rest) == multiset(s) + multiset{x}
  {
    LessEqTotal(x, s[0]);
    assert s == [s[0]] + s[1..];
    assert BelowAll(s[0], s[1..] + [x]);
    BelowAllMultiset(s[0], s[1..] + [x], rest);
    SortedCons(s[0], rest);
  }

  /** Inserting into a sorted sequence. */
  function Insert(x: string, s: seq<string>): (r: seq<string>)
    requires Sorted(s)
    ensures Sorted(r)
    ensures multiset(r) == multiset(s) + multiset{x}
    decreases |s|
  {
    if s == [] then [x]
    else if LessEq(x, s[0]) then
      BelowHead(x, s);
      SortedCons(x, s);
      [x] + s
    else
      var rest := Insert(x, s[1..]);
      InsertBehindHead(x, s, rest);
      [s[0]] + rest
  }

  /** `keys.sort()`: a sorted permutation. */
  function Sort(keys: seq<string>): (r: seq<string>)
    ensures Sorted(r)
    ensures multiset(r) == multiset(keys)
    decreases |keys|
  {
    if keys == [] then []
    else
      assert keys == [keys[0]] + keys[1..];
      Insert(keys[0], Sort(keys[1..]))
  }

  /** The head of a sorted sequence is below everything in it. */
  lemma HeadIsLeast(a: seq<string>, x: string)
    requires Sorted(a) && x in multiset(a)
    ensures a != [] && LessEq(a[0], x)
  {
    var j :| 0 <= j < |a| && a[j] == x;
    if j == 0 {
      LessEqReflexive(x);
    }
  }

  lemma MultisetOfTail(a: seq<string>)
    requires a != []
    ensures multiset(a[1..]) == multiset(a) - multiset{a[0]}
  {
    assert a == [a[0]] + a[1..];
  }

  /** There is only one sorted arrangement of a multiset of keys. */
  lemma {:induction false} SortedUnique(a: seq<string>, b: seq<string>)
    requires Sorted(a) && Sorted(b)
    requires multiset(a) == multiset(b)
    ensures a == b
    decreases |a|
  {
    if a == [] {
      assert |b| == |multiset(b)| == 0;
    } else {
      assert a[0] in multiset(a);
      HeadIsLeast(b, a[0]);
      assert b[0] in multiset(b);
      HeadIsLeast(a, b[0]);
      LessEqAntisymmetric(a[0], b[0]);
      MultisetOfTail(a);
      MultisetOfTail(b);
      SortedUnique(a[1..], b[1..]);
      assert a == [a[0]] + a[1..] && b == [b[0]] + b[1..];
    }
  }

  /** Code-unit order is not code-point order: U+10000 is encoded as the
      pair D800 DC00 and so sorts before U+E000. */
  lemma SurrogatesSortFirst(bmp: string, astral: string)
    requires bmp == "\U{E000}" && astral == "\U{10000}"
    ensures Utf16(astral) == [0xD800, 0xDC00] && Utf16(bmp) == [0xE000]
    ensures LessEq(astral, bmp) && !LessEq(bmp, astral)
    ensures Sort([bmp, astral]) == [astral, bmp]
  {
    assert Utf16(astral) == CodeUnits(astral[0]) + Utf16(astral[1..]);
    assert Utf16(bmp) == CodeUnits(bmp[0]) + Utf16(bmp[1..]);
    assert [bmp, astral][1..] == [astral];
  }

  /** `Object.keys(tools).sort().join(", ")`. */
  function ListToolKeys(keys: seq<string>): string {
    Join(Sort(keys), ", ")
  }

  /** The listing is the keys in ascending order joined with `", "`, so it
      depends only on which keys there are and not on their order. */
  lemma ListToolKeysSorted(keys: seq<string>, sorted: seq<string>)
    requires Sorted(sorted) && multiset(sorted) == multiset(keys)
    ensures ListToolKeys(keys) == Join(sorted, ", ")
  {
    SortedUnique(Sort(keys), sorted);
  }

  lemma ListToolKeysOrderFree(a: seq<string>, b: seq<string>)
    requires multiset(a) == multiset(b)
    ensures ListToolKeys(a) == ListToolKeys(b)
  {
    SortedUnique(Sort(a), Sort(b));
  }

  // ---------------------------------------------------------------------
  // Fuzzy tool lookup

  /** The part of one character that survives `norm`. */
  function NormChar(c: char): string {
    if IsLowerAlnum(LowerChar(c)) then [LowerChar(c)] else []
  }

  /** `s.toLowerCase().replace(/[^a-z0-9]/g, "")`, character by character. */
  function Norm(s: string): (r: string)
    ensures |r| <= |s|
    decreases |s|
  {
    if s == [] then [] else NormChar(s[0]) + Norm(s[1..])
  }

  /** Norm is lower-casing followed by deleting everything outside
      `a-z0-9`. */
  lemma {:induction false} NormIsFilterOfLower(s: string)
    ensures Norm(s) == Filter(Lower(s), IsLowerAlnum)
    decreases |s|
  {
    if s != [] {
      NormIsFilterOfLower(s[1..]);
      assert Lower(s)[1..] == Lower(s[1..]);
    }
  }

  lemma {:induction false} NormAppend(a: string, b: string)
    ensures Norm(a + b) == Norm(a) + Norm(b)
    decreases |a|
  {
    if a == [] {
      assert a + b == b;
    } else {
      assert (a + b)[0] == a[0];
      assert (a + b)[1..] == a[1..] + b;
      NormAppend(a[1..], b);
    }
  }

  lemma {:induction false} NormOfLowerAlnum(w: string)
    requires AllIn(w, IsLowerAlnum)
    ensures Norm(w) == w
    decreases |w|
  {
    if w != [] {
      NormOfLowerAlnum(w[1..]);
      assert w == [w[0]] + w[1..];
    }
  }

  /** The normal form holds only `a-z0-9`, and norm is idempotent and
      ignores case. */
  lemma {:induction false} NormIsLowerAlnum(s: string)
    ensures AllIn(Norm(s), IsLowerAlnum)
    decreases |s|
  {
    if s != [] {
      NormIsLowerAlnum(s[1..]);
    }
  }

  lemma NormIdempotent(s: string)
    ensures Norm(Norm(s)) == Norm(s)
  {
    NormIsLowerAlnum(s);
    NormOfLowerAlnum(Norm(s));
  }

  lemma {:induction false} NormIgnoresCase(s: string)
    ensures Norm(Lower(s)) == Norm(s)
    decreases |s|
  {
    if s != [] {
      NormIgnoresCase(s[1..]);
      assert Lower(s)[1..] == Lower(s[1..]);
    }
  }

  /** The index of the first key whose normal form contains `n`
      (`keys.find(k => norm(k).includes(n))`). */
  predicate Matches(key: string, n: string) {
    Contains(Norm(key), n)
  }

  /** `keys[k]` is the first key whose normal form contains `n`. */
  predicate IsFirstMatch(keys: seq<string>, n: string, k: int) {
    0 <= k < |keys| && Matches(keys[k], n) && forall j :: 0 <= j < k ==> !Matches(keys[j], n)
  }

  function FirstMatch(keys: seq<string>, n: string): (r: Option<nat>)
    ensures r.Some? ==> IsFirstMatch(keys, n, r.value)
    ensures r.None? ==> forall j :: 0 <= j < |keys| ==> !Matches(keys[j], n)
    decreases |keys|
  {
    if keys == [] then None
    else if Matches(keys[0], n) then Some(0)
    else match FirstMatch(keys[1..], n)
      case Some(k) => Some(k + 1)
      case None => None
  }

  /** Whether the lookup for candidate `c` succeeds: the first matching key
      exists and is truthy (a key `""` is skipped by `if (key)`). */
  function CandidateHit<T>(tools: seq<Entry<T>>, c: string): Option<Entry<T>> {
    match FirstMatch(Keys(tools), Norm(c))
    case Some(k) => if tools[k].key != [] then Some(tools[k]) else None
    case None => None
  }

  /** `findTool(tools, candidates)`. */
  function FindTool<T>(tools: seq<Entry<T>>, candidates: seq<string>): (r: Option<Entry<T>>)
    ensures r.Some? ==> r.value in tools && r.value.key != []
    ensures r.Some? ==> exists i :: 0 <= i < |candidates| && Matches(r.value.key, Norm(candidates[i]))
    ensures r.None? <==> forall i :: 0 <= i < |candidates| ==> CandidateHit(tools, candidates[i]).None?
    decreases |candidates|
  {
    if candidates == [] then None
    else match CandidateHit(tools, candidates[0])
      case Some(e) => Some(e)
      case None =>
        var r := FindTool(tools, candidates[1..]);
        assert forall i :: 1 <= i < |candidates| ==> candidates[i] == candidates[1..][i - 1];
        r
  }

  /** The result is the hit of the first candidate that hits: earlier
      candidates found nothing, or only an empty key. */
  lemma {:induction false} FindToolFirstHit<T>(tools: seq<Entry<T>>, candidates: seq<string>, i: nat)
    requires i < |candidates| && CandidateHit(tools, candidates[i]).Some?
    requires forall j :: 0 <= j < i ==> CandidateHit(tools, candidates[j]).None?
    ensures FindTool(tools, candidates) == CandidateHit(tools, candidates[i])
    decreases i
  {
    if i > 0 {
      assert forall j :: 0 <= j < i - 1 ==> candidates[1..][j] == candidates[j + 1];
      FindToolFirstHit(tools, candidates[1..], i - 1);
    }
  }

  /** A candidate hits exactly when some key's normal form contains the
      candidate's, as long as the first such key is not empty; it hits the
      first such key. */
  lemma CandidateHitIff<T>(tools: seq<Entry<T>>, c: string)
    ensures CandidateHit(tools, c).None? ==>
      (forall j :: 0 <= j < |tools| ==> !Matches(tools[j].key, Norm(c)))
      || exists j :: 0 <= j < |tools| && tools[j].key == [] && Matches(tools[j].key, Norm(c))
    ensures forall k :: IsFirstMatch(Keys(tools), Norm(c), k) && tools[k].key != [] ==>
      CandidateHit(tools, c) == Some(tools[k])
  {
    var keys := Keys(tools);
    match FirstMatch(keys, Norm(c))
    case Some(k) =>
      assert forall k' :: IsFirstMatch(keys, Norm(c), k') ==> k' == k;
    case None =>
  }

  /** When no key is empty, the lookup finds nothing exactly when no
      candidate's normal form occurs in any key's normal form. */
  lemma FindToolNone<T>(tools: seq<Entry<T>>, candidates: seq<string>)
    requires forall j :: 0 <= j < |tools| ==> tools[j].key != []
    ensures FindTool(tools, candidates).None? <==>
      forall i, j :: 0 <= i < |candidates| && 0 <= j < |tools| ==> !Matches(tools[j].key, Norm(candidates[i]))
  {
    forall i | 0 <= i < |candidates|
      ensures CandidateHit(tools, candidates[i]).None? <==>
        forall j :: 0 <= j < |tools| ==> !Matches(tools[j].key, Norm(candidates[i]))
    {
      CandidateHitIff(tools, candidates[i]);
      var keys := Keys(tools);
      if FirstMatch(keys, Norm(candidates[i])).None? {
        assert forall j :: 0 <= j < |tools| ==> keys[j] == tools[j].key;
      }
    }
  }

  /** Candidates that normalise alike add nothing after the first. */
  lemma {:induction false} FindToolSameNorm<T>(tools: seq<Entry<T>>, candidates: seq<string>)
    requires candidates != []
    requires forall i :: 0 <= i < |candidates| ==> Norm(candidates[i]) == Norm(candidates[0])
    ensures FindTool(tools, candidates) == FindTool(tools, candidates[..1])
  {
    if CandidateHit(tools, candidates[0]).None? {
      assert forall i :: 0 <= i < |candidates| ==> CandidateHit(tools, candidates[i]).None?;
    } else {
      FindToolFirstHit(tools, candidates, 0);
      FindToolFirstHit(tools, candidates[..1], 0);
    }
  }

  /** A character that is not a letter or digit drops out. */
  lemma NormSkipsSeparator(x: string, sep: char, y: string)
    requires !IsLowerAlnum(LowerChar(sep))
    ensures Norm(x + [sep] + y) == Norm(x) + Norm(y)
  {
    assert Norm([sep] + y) == Norm(y) by {
      assert ([sep] + y)[0] == sep && ([sep] + y)[1..] == y;
    }
    NormAppend(x, [sep] + y);
    assert x + [sep] + y == x + ([sep] + y);
  }

  /** Three spellings of a three-word name, snake case, kebab case and
      camel case, normalise alike: the separators drop out and the capitals
      are lowered. */
  lemma ThreeWordSpellings(w1: string, w2: string, w3: string, W2: string, W3: string,
                           snake: string, kebab: string, camel: string)
    requires Lower(W2) == w2 && Lower(W3) == w3
    requires snake == w1 + ['_'] + (w2 + ['_'] + w3)
    requires kebab == w1 + ['-'] + (w2 + ['-'] + w3)
    requires camel == w1 + (W2 + W3)
    ensures Norm(kebab) == Norm(snake) && Norm(camel) == Norm(snake)
  {
    NormSkipsSeparator(w2, '_', w3);
    NormSkipsSeparator(w1, '_', w2 + ['_'] + w3);
    NormSkipsSeparator(w2, '-', w3);
    NormSkipsSeparator(w1, '-', w2 + ['-'] + w3);
    NormAppend(W2, W3);
    NormAppend(w1, W2 + W3);
    NormIgnoresCase(W2);
    NormIgnoresCase(W3);
  }

  /** The same for a two-word name. */
  lemma TwoWordSpellings(w1: string, w2: string, W2: string, snake: string, kebab: string, camel: string)
    requires Lower(W2) == w2
    requires snake == w1 + ['_'] + w2
    requires kebab == w1 + ['-'] + w2
    requires camel == w1 + W2
    ensures Norm(kebab) == Norm(snake) && Norm(camel) == Norm(snake)
  {
    NormSkipsSeparator(w1, '_', w2);
    NormSkipsSeparator(w1, '-', w2);
    NormAppend(w1, W2);
    NormIgnoresCase(W2);
  }

  lemma LowerOfCapitalised(W: string, w: string)
    requires |W| == |w| && W != []
    requires 'a' <= w[0] <= 'z' && W[0] as int == w[0] as int - 32
    requires W[1..] == w[1..] && AllIn(w[1..], IsLowerAlnum)
    ensures Lower(W) == w
  {
    assert forall i :: 1 <= i < |W| ==> W[i] == w[1..][i - 1];
  }

  /** How the spellings of the mention-wait tool are built from words. */
  lemma WaitCapitals()
    ensures Lower("For") == "for" && Lower("Mentions") == "mentions"
  {
    LowerOfCapitalised("For", "for");
    LowerOfCapitalised("Mentions", "mentions");
  }

  lemma WaitSnakeShape(snake: string)
    requires snake == "wait_for_mentions"
    ensures snake == "wait" + ['_'] + ("for" + ['_'] + "mentions")
  {
  }

  lemma WaitKebabShape(kebab: string)
    requires kebab == "wait-for-mentions"
    ensures kebab == "wait" + ['-'] + ("for" + ['-'] + "mentions")
  {
  }

  lemma WaitCamelShape(camel: string)
    requires camel == "waitForMentions"
    ensures camel == "wait" + ("For" + "Mentions")
  {
  }

  /** The three spellings of the mention-wait tool normalise alike. */
  lemma WaitSpellingsAgree(snake: string, kebab: string, camel: string)
    requires snake == "wait_for_mentions" && kebab == "wait-for-mentions" && camel == "waitForMentions"
    ensures Norm(kebab) == Norm(snake) && Norm(camel) == Norm(snake)
  {
    WaitCapitals();
    WaitSnakeShape(snake);
    WaitKebabShape(kebab);
    WaitCamelShape(camel);
    ThreeWordSpellings("wait", "for", "mentions", "For", "Mentions", snake, kebab, camel);
  }

  /** How the spellings of the send tool are built from words. */
  lemma SendSpellingsShape(snake: string, kebab: string, camel: string)
    requires snake == "send_message" && kebab == "send-message" && camel == "sendMessage"
    ensures Lower("Message") == "message"
    ensures snake == "send" + ['_'] + "message"
    ensures kebab == "send" + ['-'] + "message"
    ensures camel == "send" + "Message"
  {
    LowerOfCapitalised("Message", "message");
  }

  /** The three spellings of the send tool normalise alike. */
  lemma SendSpellingsAgree(snake: string, kebab: string, camel: string)
    requires snake == "send_message" && kebab == "send-message" && camel == "sendMessage"
    ensures Norm(kebab) == Norm(snake) && Norm(camel) == Norm(snake)
  {
    SendSpellingsShape(snake, kebab, camel);
    TwoWordSpellings("send", "message", "Message", snake, kebab, camel);
  }

  /** Looking a tool up under three spellings that normalise alike is the
      same as looking it up under the first alone. */
  lemma SpellingsLookup<T>(tools: seq<Entry<T>>, snake: string, kebab: string, camel: string)
    requires Norm(kebab) == Norm(snake) && Norm(camel) == Norm(snake)
    ensures FindTool(tools, [snake, kebab, camel]) == FindTool(tools, [snake])
  {
    var cs := [snake, kebab, camel];
    assert cs[1..] == [kebab, camel] && cs[1..][1..] == [camel] && [snake][1..] == [];
    assert CandidateHit(tools, kebab) == CandidateHit(tools, snake);
    assert CandidateHit(tools, camel) == CandidateHit(tools, snake);
  }

  /** Looking the mention-wait tool up under its three spellings is the same
      as looking it up under `wait_for_mentions` alone. */
  lemma WaitToolLookup<T>(tools: seq<Entry<T>>, snake: string, kebab: string, camel: string)
    requires snake == "wait_for_mentions" && kebab == "wait-for-mentions" && camel == "waitForMentions"
    ensures FindTool(tools, [snake, kebab, camel]) == FindTool(tools, [snake])
  {
    WaitSpellingsAgree(snake, kebab, camel);
    SpellingsLookup(tools, snake, kebab, camel);
  }

  /** The same for the send tool. */
  lemma SendToolLookup<T>(tools: seq<Entry<T>>, snake: string, kebab: string, camel: string)
    requires snake == "send_message" && kebab == "send-message" && camel == "sendMessage"
    ensures FindTool(tools, [snake, kebab, camel]) == FindTool(tools, [snake])
  {
    SendSpellingsAgree(snake, kebab, camel);
    SpellingsLookup(tools, snake, kebab, camel);
  }

  // ---------------------------------------------------------------------
  // Mentions

  datatype Mention = Mention(threadId: JsValue, senderId: JsValue, content: JsValue)

  /** The `??` fallback chains of `extractMention`, field by field. */
  const ThreadIdPaths: seq<seq<string>> :=
    [["threadId"], ["thread_id"], ["thread"], ["data", "threadId"], ["data", "thread_id"]]
  const SenderIdPaths: seq<seq<string>> :=
    [["senderId"], ["sender_id"], ["sender"], ["from"], ["data", "senderId"], ["data", "sender_id"]]
  const ContentPaths: seq<seq<string>> :=
    [["content"], ["message"], ["text"], ["data", "content"], ["data", "message"], ["data", "text"]]

  /** The values `m?.p0?.p1...` along each path. */
  function Lookups(m: JsValue, paths: seq<seq<string>>): (vs: seq<JsValue>)
    ensures |vs| == |paths|
    ensures forall i :: 0 <= i < |paths| ==> vs[i] == GetPath(m, paths[i])
  {
    seq(|paths|, i requires 0 <= i < |paths| => GetPath(m, paths[i]))
  }

  function ExtractMention(m: JsValue): Mention {
    Mention(CoalesceAll(Lookups(m, ThreadIdPaths)),
            CoalesceAll(Lookups(m, SenderIdPaths)),
            CoalesceAll(Lookups(m, ContentPaths)))
  }

  /** Each field of a decoded mention is the first value along its chain
      that is neither `null` nor `undefined` (an empty string counts as
      present), and is nullish only when every value along the chain is. */
  lemma ExtractMentionChains(m: JsValue)
    ensures forall k: nat :: IsFirstPresent(Lookups(m, ThreadIdPaths), k) ==>
      ExtractMention(m).threadId == GetPath(m, ThreadIdPaths[k])
    ensures forall k: nat :: IsFirstPresent(Lookups(m, SenderIdPaths), k) ==>
      ExtractMention(m).senderId == GetPath(m, SenderIdPaths[k])
    ensures forall k: nat :: IsFirstPresent(Lookups(m, ContentPaths), k) ==>
      ExtractMention(m).content == GetPath(m, ContentPaths[k])
    ensures Nullish(ExtractMention(m).threadId) <==>
      forall i :: 0 <= i < |ThreadIdPaths| ==> Nullish(GetPath(m, ThreadIdPaths[i]))
    ensures Nullish(ExtractMention(m).senderId) <==>
      forall i :: 0 <= i < |SenderIdPaths| ==> Nullish(GetPath(m, SenderIdPaths[i]))
    ensures Nullish(ExtractMention(m).content) <==>
      forall i :: 0 <= i < |ContentPaths| ==> Nullish(GetPath(m, ContentPaths[i]))
  {
    CoalesceAllFirstPresent(Lookups(m, ThreadIdPaths));
    CoalesceAllFirstPresent(Lookups(m, SenderIdPaths));
    CoalesceAllFirstPresent(Lookups(m, ContentPaths));
  }

  /** A top-level `threadId` wins over every fallback, even when it is the
      empty string; the routing guard then drops the mention although
      `data.threadId` may hold a usable id. */
  lemma EmptyThreadIdShadowsFallbacks(m: JsValue)
    requires Get(m, "threadId") == Str([])
    ensures ExtractMention(m).threadId == Str([])
    ensures !Routable(m)
  {
    ExtractMentionChains(m);
    assert IsFirstPresent(Lookups(m, ThreadIdPaths), 0);
  }

  /** `Array.isArray(r) ? r : r ? [r] : []`. */
  function MentionsOf(r: JsValue): (ms: seq<JsValue>)
    ensures r.Array? ==> ms == r.items
    ensures !r.Array? && Truthy(r) ==> ms == [r]
    ensures !Truthy(r) ==> ms == []
  {
    if r.Array? then r.items else if Truthy(r) then [r] else []
  }

  /** The routing guard: a mention is answered only when its thread and
      sender ids are both truthy. */
  predicate Routable(m: JsValue) {
    Truthy(ExtractMention(m).threadId) && Truthy(ExtractMention(m).senderId)
  }

  /** The mentions that are answered, in the order they arrived. */
  function AnsweredMentions(r: JsValue): (ms: seq<JsValue>)
    ensures forall i :: 0 <= i < |ms| ==> Routable(ms[i]) && ms[i] in MentionsOf(r)
    ensures forall m :: m in MentionsOf(r) && Routable(m) ==> m in ms
  {
    Filter(MentionsOf(r), Routable)
  }

  /** A single mention object that is routable is answered, and one that is
      not is dropped; an array of mentions is answered piecewise. */
  lemma AnsweredMentionsAppend(a: seq<JsValue>, b: seq<JsValue>)
    ensures AnsweredMentions(Array(a + b)) == AnsweredMentions(Array(a)) + AnsweredMentions(Array(b))
  {
    FilterAppend(a, b, Routable);
  }

  lemma AnsweredSingleMention(m: JsValue)
    requires m.Object?
    ensures AnsweredMentions(m) == (if Routable(m) then [m] else [])
  {
    assert [m][1..] == [];
  }

  // ---------------------------------------------------------------------
  // Replying

  /** The three payload shapes tried, in order. */
  function Payloads(threadId: JsValue, senderId: JsValue, answer: string): (ps: seq<JsValue>)
    ensures |ps| == 3
    ensures forall i :: 0 <= i < 3 ==> Get(ps[i], "content") == Str(answer)
  {
    [ Object(map["threadId" := threadId, "recipientId" := senderId, "content" := Str(answer)]),
      Object(map["thread_id" := threadId, "recipient_id" := senderId, "content" := Str(answer)]),
      Object(map["threadId" := threadId, "to" := senderId, "content" := Str(answer)]) ]
  }

  /** The field names under which each payload carries the thread and the
      recipient. */
  const ThreadKeys := ["threadId", "thread_id", "threadId"]
  const RecipientKeys := ["recipientId", "recipient_id", "to"]

  /** Every payload carries the thread and the recipient: reading them back
      gives the ids the mention carried. */
  lemma PayloadsCarryIds(threadId: JsValue, senderId: JsValue, answer: string)
    ensures forall i :: 0 <= i < 3 ==>
      Get(Payloads(threadId, senderId, answer)[i], ThreadKeys[i]) == threadId
      && Get(Payloads(threadId, senderId, answer)[i], RecipientKeys[i]) == senderId
  {
  }

  /** Sending a reply: try each payload in turn, stopping at the first the
      send tool accepts (`accepts(p)` is false when the call throws).
      `tried` counts the calls made. */
  method SendReply(payloads: seq<JsValue>, accepts: JsValue -> bool) returns (sent: bool, tried: nat)
    ensures sent <==> exists i :: 0 <= i < |payloads| && accepts(payloads[i])
    ensures tried <= |payloads|
    ensures sent ==> tried >= 1 && accepts(payloads[tried - 1])
    ensures forall i :: 0 <= i < tried - 1 ==> !accepts(payloads[i])
    ensures !sent ==> tried == |payloads|
  {
    sent := false;
    tried := 0;
    while tried < |payloads| && !sent
      invariant tried <= |payloads|
      invariant forall i :: 0 <= i < tried - 1 ==> !accepts(payloads[i])
      invariant !sent ==> forall i :: 0 <= i < tried ==> !accepts(payloads[i])
      invariant sent ==> tried >= 1 && accepts(payloads[tried - 1])
      decreases |payloads| - tried, if sent then 0 else 1
    {
      sent := accepts(payloads[tried]);
      tried := tried + 1;
    }
  }
}
