/** Facts about the concrete endpoint catalog of
    src/effects/genai-service.ts and what they mean for
    `resolveFalEndpoint`: the five entries normalise to five different
    names, a model name that normalises to one of them resolves to that
    entry, and a name with no letters or digits at all resolves to
    `fal-ai/veo3` (the entry with the shortest normalised form), never to
    the default endpoint. */
module FalCatalog {
  import opened Strings
  import opened EditDistance
  import opened FalEndpoint

  /** The first normalised word of each catalog entry. */
  const LeadingWords: seq<string> := ["nano", "veo3", "bytedance", "kling", "ideogram"]

  /** A name that starts with the provider prefix, a word and a separator
      has that word first among its normalised words. */
  lemma LeadingWord(x: string, w: string, c: char)
    requires |ProviderPrefix + w + [c]| <= |x| && x[..|ProviderPrefix + w + [c]|] == ProviderPrefix + w + [c]
    requires w != [] && AllIn(w, IsLowerAlnum) && 'f' !in w
    requires !IsLowerAlnum(c) && !('A' <= c <= 'Z') && c != 'f'
    ensures Words(x) != [] && Words(x)[0] == w
  {
    var rest := x[|ProviderPrefix + w + [c]|..];
    assert x == ProviderPrefix + (w + [c] + rest);
    NormalizeDropsProviderPrefix(w + [c] + rest);
    WordsCons(w, c, rest);
  }

  /** Two words joined by `-`. */
  lemma JoinTwo(ws: seq<string>)
    requires |ws| == 2
    ensures Join(ws, "-") == ws[0] + "-" + ws[1]
  {
    assert ws[1..] == [ws[1]];
  }

  /** Two words and a separator. */
  lemma TwoWordsPlain(x: string, w: string, c: char, w': string)
    requires x == w + [c] + w'
    requires w != [] && AllIn(w, IsLowerAlnum) && 'f' !in w
    requires w' != [] && AllIn(w', IsLowerAlnum) && 'f' !in w'
    requires !IsLowerAlnum(c) && !('A' <= c <= 'Z') && c != 'f'
    ensures Words(x) == [w, w']
  {
    WordsCons(w, c, w');
    WordsSingle(w');
  }

  /** The provider prefix followed by two words and a separator. */
  lemma TwoWords(x: string, w: string, c: char, w': string)
    requires x == ProviderPrefix + (w + [c] + w')
    requires w != [] && AllIn(w, IsLowerAlnum) && 'f' !in w
    requires w' != [] && AllIn(w', IsLowerAlnum) && 'f' !in w'
    requires !IsLowerAlnum(c) && !('A' <= c <= 'Z') && c != 'f'
    ensures Words(x) == [w, w']
  {
    NormalizeDropsProviderPrefix(w + [c] + w');
    TwoWordsPlain(w + [c] + w', w, c, w');
  }

  /** The provider prefix followed by one word. */
  lemma OneWord(x: string, w: string)
    requires x == ProviderPrefix + w
    requires w != [] && AllIn(w, IsLowerAlnum) && 'f' !in w
    ensures Words(x) == [w]
  {
    NormalizeDropsProviderPrefix(w);
    WordsSingle(w);
  }

  lemma SeedreamPrefix()
    ensures |ValidFalEndpoints[2]| >= 17 && ValidFalEndpoints[2][..17] == ProviderPrefix + "bytedance" + ['/']
  {
    assert ValidFalEndpoints[2] == "fal-ai/bytedance/seedream/v4/text-to-image";
    assert ValidFalEndpoints[2][..17] == "fal-ai/bytedance/";
  }

  lemma KlingPrefix()
    ensures |ValidFalEndpoints[3]| >= 13 && ValidFalEndpoints[3][..13] == ProviderPrefix + "kling" + ['-']
  {
    assert ValidFalEndpoints[3] == "fal-ai/kling-video/v2/master/text-to-video";
    assert ValidFalEndpoints[3][..13] == "fal-ai/kling-";
  }

  lemma NanoBananaWords()
    ensures Words(ValidFalEndpoints[0]) == ["nano", "banana"]
  {
    TwoWords(ValidFalEndpoints[0], "nano", '-', "banana");
  }

  lemma Veo3Words()
    ensures Words(ValidFalEndpoints[1]) == ["veo3"]
  {
    OneWord(ValidFalEndpoints[1], "veo3");
  }

  lemma SeedreamWords()
    ensures Words(ValidFalEndpoints[2]) != [] && Words(ValidFalEndpoints[2])[0] == "bytedance"
  {
    SeedreamPrefix();
    LeadingWord(ValidFalEndpoints[2], "bytedance", '/');
  }

  lemma KlingWords()
    ensures Words(ValidFalEndpoints[3]) != [] && Words(ValidFalEndpoints[3])[0] == "kling"
  {
    KlingPrefix();
    LeadingWord(ValidFalEndpoints[3], "kling", '-');
  }

  lemma IdeogramWords()
    ensures Words(ValidFalEndpoints[4]) == ["ideogram", "v3"]
  {
    TwoWords(ValidFalEndpoints[4], "ideogram", '/', "v3");
  }

  /** Every entry has words, and its first word is the listed one. */
  lemma CatalogLeadingWords(k: nat)
    requires k < |ValidFalEndpoints|
    ensures Words(ValidFalEndpoints[k]) != [] && Words(ValidFalEndpoints[k])[0] == LeadingWords[k]
  {
    if k == 0 { NanoBananaWords(); }
    else if k == 1 { Veo3Words(); }
    else if k == 2 { SeedreamWords(); }
    else if k == 3 { KlingWords(); }
    else { IdeogramWords(); }
  }

  /** Two entries with different first words normalise differently. */
  lemma NormalFormsDiffer(i: nat, j: nat)
    requires i < |ValidFalEndpoints| && j < |ValidFalEndpoints| && LeadingWords[i] != LeadingWords[j]
    ensures Normalize(ValidFalEndpoints[i]) != Normalize(ValidFalEndpoints[j])
  {
    CatalogLeadingWords(i);
    CatalogLeadingWords(j);
    NormalizeDeterminedByWords(ValidFalEndpoints[i], ValidFalEndpoints[j]);
  }

  /** The five entries normalise to five different names. */
  lemma CatalogNormalFormsDistinct()
    ensures forall i, j :: 0 <= i < j < |ValidFalEndpoints| ==>
              Normalize(ValidFalEndpoints[i]) != Normalize(ValidFalEndpoints[j])
  {
    forall i, j | 0 <= i < j < |ValidFalEndpoints|
      ensures Normalize(ValidFalEndpoints[i]) != Normalize(ValidFalEndpoints[j])
    {
      NormalFormsDiffer(i, j);
    }
  }

  /** A `-`-joined list of words is at least as long as its first word,
      and longer when a second word follows. */
  lemma JoinLength(ws: seq<string>)
    requires |ws| >= 1
    ensures |Join(ws, "-")| >= |ws[0]|
    ensures |ws| >= 2 ==> |Join(ws, "-")| > |ws[0]|
  {
  }

  /** `fal-ai/veo3` normalises to `veo3`; every other entry to a longer
      name. */
  lemma CatalogNormalLengths(k: nat)
    requires k < |ValidFalEndpoints|
    ensures k == 1 ==> Normalize(ValidFalEndpoints[k]) == "veo3"
    ensures k != 1 ==> |Normalize(ValidFalEndpoints[k])| > 4
  {
    CatalogLeadingWords(k);
    if k == 0 { NanoBananaWords(); }
    else if k == 1 { Veo3Words(); }
    else if k == 4 { IdeogramWords(); }
    JoinLength(Words(ValidFalEndpoints[k]));
  }

  /** A model name that normalises exactly like a catalog entry resolves to
      that entry. */
  lemma ResolveExactMatch(modelName: string, k: nat)
    requires k < |ValidFalEndpoints|
    requires Normalize(modelName) == Normalize(ValidFalEndpoints[k])
    ensures ResolveFalEndpoint(modelName) == ValidFalEndpoints[k]
  {
    var input := Normalize(modelName);
    CatalogNormalFormsDistinct();
    ScoreExactMatch(input, ValidFalEndpoints[k]);
    forall j | 0 <= j < |ValidFalEndpoints|
      ensures Score(input, ValidFalEndpoints[j]) <= Score(input, ValidFalEndpoints[k])
      ensures j != k ==> Score(input, ValidFalEndpoints[j]) < Score(input, ValidFalEndpoints[k])
    {
      ScoreExactMatch(input, ValidFalEndpoints[j]);
    }
    ResolveByScores(modelName, k);
  }

  /** Every catalog entry resolves to itself. */
  lemma ResolveCatalogEntry(k: nat)
    requires k < |ValidFalEndpoints|
    ensures ResolveFalEndpoint(ValidFalEndpoints[k]) == ValidFalEndpoints[k]
  {
    ResolveExactMatch(ValidFalEndpoints[k], k);
  }

  /** Against an input without words, `fal-ai/veo3` scores -4 and every
      other entry less. */
  lemma EmptyInputScores(k: nat)
    requires k < |ValidFalEndpoints|
    ensures k == 1 ==> Score([], ValidFalEndpoints[k]) == -4
    ensures k != 1 ==> Score([], ValidFalEndpoints[k]) < -4
  {
    CatalogLeadingWords(k);
    CatalogNormalLengths(k);
    ScoreOfEmpty(ValidFalEndpoints[k]);
  }

  /** A model name without a single ASCII letter or digit (the empty name,
      blanks, punctuation) resolves to `fal-ai/veo3`: every entry then
      scores minus the length of its normalised form, and `veo3` is the
      shortest. The default endpoint is not returned. */
  lemma ResolveWithoutWords(modelName: string)
    requires forall i :: 0 <= i < |modelName| ==> !IsLowerAlnum(modelName[i]) && !('A' <= modelName[i] <= 'Z')
    ensures ResolveFalEndpoint(modelName) == ValidFalEndpoints[1]
  {
    NormalizeWithoutAlnum(modelName);
    EmptyInputScores(1);
    forall j | 0 <= j < |ValidFalEndpoints|
      ensures Score([], ValidFalEndpoints[j]) <= Score([], ValidFalEndpoints[1])
      ensures j != 1 ==> Score([], ValidFalEndpoints[j]) < Score([], ValidFalEndpoints[1])
    {
      EmptyInputScores(j);
    }
    ResolveByScores(modelName, 1);
  }

  /** Every word of a `-`-joined list fits in the joined name; a word after
      the first one adds the first word and a hyphen. */
  lemma {:induction false} JoinLengthWord(ws: seq<string>, k: nat)
    requires k < |ws|
    ensures |Join(ws, "-")| >= |ws[k]|
    ensures k >= 1 ==> |Join(ws, "-")| >= |ws[0]| + 1 + |ws[k]|
  {
    if k >= 1 {
      JoinLengthWord(ws[1..], k - 1);
      assert Join(ws, "-") == ws[0] + "-" + Join(ws[1..], "-");
    }
  }

  /** The tokens of a normalised name are its words. */
  lemma TokensOfNormalize(x: string)
    requires Words(x) != []
    ensures Tokens(Normalize(x)) == set w | w in Words(x)
  {
    SplitJoinedWords(Words(x));
  }

  /** A single word `w`, scored against an endpoint with words: without `w`
      among them the score is at most 0; with `w` after a different first
      word the first word and a hyphen cost at least their length. */
  lemma SingleWordScore(w: string, endpoint: string)
    requires w != [] && AllIn(w, IsLowerAlnum)
    requires Words(endpoint) != []
    ensures w !in Words(endpoint) ==> Score(w, endpoint) <= 0
    ensures w in Words(endpoint) && Words(endpoint)[0] != w ==>
              Score(w, endpoint) <= 10 - (|Words(endpoint)[0]| + 1)
  {
    var ws := Words(endpoint);
    var candidate := Normalize(endpoint);
    SplitJoinedWords([w]);
    assert Tokens(w) == {w};
    TokensOfNormalize(endpoint);
    LevBounds(w, candidate);
    if w !in ws {
      assert Tokens(w) * Tokens(candidate) == {};
    } else if ws[0] != w {
      var k :| 0 <= k < |ws| && ws[k] == w;
      JoinLengthWord(ws, k);
      SubsetCardinality(Tokens(w) * Tokens(candidate), Tokens(w));
    }
  }

  /** An endpoint whose words are exactly `w` and then `v`, scored against
      `w` alone: one shared token, and `-v` to insert. */
  lemma FirstOfTwoWordsScore(w: string, v: string, endpoint: string)
    requires w != [] && AllIn(w, IsLowerAlnum) && v != [] && AllIn(v, IsLowerAlnum) && w != v
    requires Words(endpoint) == [w, v]
    ensures Score(w, endpoint) == 10 - (|v| + 1)
  {
    var candidate := Normalize(endpoint);
    var ws := Words(endpoint);
    JoinTwo(ws);
    assert candidate == w + ("-" + v);
    SplitJoinedWords([w]);
    assert Tokens(w) == {w};
    TokensOfNormalize(endpoint);
    assert forall t :: t in ws <==> t == w || t == v;
    assert (set t | t in ws) == {w, v};
    assert Tokens(w) * Tokens(candidate) == {w};
    LevExtend(w, "-" + v);
  }

  /** A name that is one lower-case word normalises to itself. */
  lemma NormalizeOneWord(w: string)
    requires w != [] && AllIn(w, IsLowerAlnum) && 'f' !in w
    ensures Normalize(w) == w
  {
    WordsSingle(w);
  }

  /** A one-word name `w` resolves to the entry whose words are `w` and a
      short `v`, when no other entry starts with `w` and every other
      entry's first word is longer than `v`. */
  lemma ResolveToTwoWordEntry(modelName: string, w: string, v: string, k: nat)
    requires Normalize(modelName) == w
    requires w != [] && AllIn(w, IsLowerAlnum) && 'f' !in w
    requires v != [] && AllIn(v, IsLowerAlnum) && w != v && |v| < 9
    requires k < |ValidFalEndpoints| && Words(ValidFalEndpoints[k]) == [w, v]
    requires forall j :: 0 <= j < |ValidFalEndpoints| && j != k ==>
               LeadingWords[j] != w && |LeadingWords[j]| > |v|
    ensures ResolveFalEndpoint(modelName) == ValidFalEndpoints[k]
  {
    FirstOfTwoWordsScore(w, v, ValidFalEndpoints[k]);
    forall j | 0 <= j < |ValidFalEndpoints|
      ensures Score(w, ValidFalEndpoints[j]) <= Score(w, ValidFalEndpoints[k])
      ensures j != k ==> Score(w, ValidFalEndpoints[j]) < Score(w, ValidFalEndpoints[k])
    {
      if j != k {
        CatalogLeadingWords(j);
        SingleWordScore(w, ValidFalEndpoints[j]);
      }
    }
    ResolveByScores(modelName, k);
  }

  /** A name that normalises to `ideogram` (`"ideogram"`, `"Ideogram"`,
      `" IDEOGRAM "`) resolves to `fal-ai/ideogram/v3`: it scores
      10 - 3 = 7 there, and every other entry scores less. */
  lemma ResolveIdeogram(modelName: string)
    requires Normalize(modelName) == "ideogram"
    ensures ResolveFalEndpoint(modelName) == ValidFalEndpoints[4]
  {
    IdeogramEntryFacts();
    IdeogramWords();
    ResolveToTwoWordEntry(modelName, "ideogram", "v3", 4);
  }

  /** What the resolution of `ideogram` needs to know about the other
      entries. */
  lemma IdeogramEntryFacts()
    ensures AllIn("ideogram", IsLowerAlnum) && 'f' !in "ideogram"
    ensures AllIn("v3", IsLowerAlnum)
    ensures forall j :: 0 <= j < |ValidFalEndpoints| && j != 4 ==>
              LeadingWords[j] != "ideogram" && |LeadingWords[j]| > |"v3"|
  {
  }

  /** `fal-ai/nano-banana` normalises to `nano-banana`. */
  lemma NanoBananaNormalForm()
    ensures Normalize(ValidFalEndpoints[0]) == "nano-banana"
  {
    NanoBananaWords();
    JoinTwo(Words(ValidFalEndpoints[0]));
  }

  /** Two words and a separator normalise to the words joined by `-`. */
  lemma NormalizeTwoWords(x: string, w: string, c: char, w': string)
    requires x == w + [c] + w'
    requires w != [] && AllIn(w, IsLowerAlnum) && 'f' !in w
    requires w' != [] && AllIn(w', IsLowerAlnum) && 'f' !in w'
    requires !IsLowerAlnum(c) && !('A' <= c <= 'Z') && c != 'f'
    ensures Normalize(x) == w + "-" + w'
  {
    TwoWordsPlain(x, w, c, w');
    JoinTwo(Words(x));
  }

  /** `"nano banana"`, with a blank, normalises to `nano-banana`. */
  lemma NanoBananaWithBlank(modelName: string)
    requires modelName == "nano banana"
    ensures Normalize(modelName) == "nano-banana"
  {
    NormalizeTwoWords(modelName, "nano", ' ', "banana");
  }

  /** A name that normalises to `nano-banana` (`"nano banana"`,
      `"Nano_Banana"`, `"fal-ai/nano-banana"`) resolves to
      `fal-ai/nano-banana`. */
  lemma ResolveNanoBanana(modelName: string)
    requires Normalize(modelName) == "nano-banana"
    ensures ResolveFalEndpoint(modelName) == ValidFalEndpoints[0]
  {
    NanoBananaNormalForm();
    ResolveExactMatch(modelName, 0);
  }

  /** `"veo3"` normalises to itself. */
  lemma Veo3Normalizes(modelName: string)
    requires modelName == "veo3"
    ensures Normalize(modelName) == "veo3"
  {
    NormalizeOneWord(modelName);
  }

  /** A name that normalises to `veo3` (`"veo3"`, `"VEO3"`, `"fal-ai/veo3"`)
      resolves to `fal-ai/veo3`. */
  lemma ResolveVeo3(modelName: string)
    requires Normalize(modelName) == "veo3"
    ensures ResolveFalEndpoint(modelName) == ValidFalEndpoints[1]
  {
    CatalogNormalLengths(1);
    ResolveExactMatch(modelName, 1);
  }
}
