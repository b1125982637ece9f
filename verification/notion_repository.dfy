/** The Notion repository that backs the live best-practice service: a page
    becomes a best practice with an insight, the relevant models and the
    output types, or is skipped; `getAll` and `search` query the database
    and keep the pages that map. */
module NotionRepository {
  import opened Wrappers
  import opened Strings
  import opened NotionPages

  const InsightProperty := "Insight 1"
  const ModelsProperty := "Model"
  const OutputTypeProperty := "Output type"

  datatype OutputType = Image | Video | Voice

  function OutputTypeName(t: OutputType): string {
    match t
    case Image => "image"
    case Video => "video"
    case Voice => "voice"
  }

  /** The type guard `v === "image" || v === "video" || v === "voice"`: the
      output type `v` names, if it names one. */
  function ParseOutputType(v: string): (t: Option<OutputType>)
    ensures t.Some? ==> OutputTypeName(t.value) == v
    ensures t.None? ==> forall u :: OutputTypeName(u) != v
  {
    if v == "image" then Some(Image)
    else if v == "video" then Some(Video)
    else if v == "voice" then Some(Voice)
    else None
  }

  lemma ParseOutputTypeName(t: OutputType)
    ensures ParseOutputType(OutputTypeName(t)) == Some(t)
  {
  }

  /** The record the mapper returns. The declared type also has a
      `multistep` flag, which this mapper never sets. */
  datatype BestPractice = BestPractice(insight: string, relevantModels: seq<string>, outputType: seq<OutputType>)

  // ---------------------------------------------------------------------
  // Delimited lists

  predicate IsDelimiter(c: char) {
    c == ';' || c == ',' || c == '\n'
  }

  predicate NotDelimiter(c: char) {
    !IsDelimiter(c)
  }

  /** `s.split(/[;,\n]+/)`: the pieces between maximal runs of delimiters. A
      run at either end leaves an empty piece there, and a string without
      delimiters (the empty one included) is its own only piece. */
  function SplitOnDelimiters(s: string): (parts: seq<string>)
    ensures |parts| >= 1
    ensures forall k :: 0 <= k < |parts| ==> AllIn(parts[k], NotDelimiter)
    decreases |s|
  {
    var i := LeadingRun(s, NotDelimiter);
    if i == |s| then
      assert s[..i] == s;
      [s]
    else
      var n := LeadingRun(s[i..], IsDelimiter);
      assert n >= 1 by { assert s[i..][0] == s[i]; }
      var rest := SplitOnDelimiters(s[i + n..]);
      assert forall k :: 1 <= k <= |rest| ==> ([s[..i]] + rest)[k] == rest[k - 1];
      [s[..i]] + rest
  }

  /** `.filter(Boolean)` on strings. */
  predicate NonEmpty(s: string) {
    s != []
  }

  /** `s.split(/[;,\n]+/).map(clean).filter(Boolean)`. */
  function Entries(s: string, clean: string -> string): seq<string> {
    Filter(MapSeq(SplitOnDelimiters(s), clean), NonEmpty)
  }

  /** The runs of a string whose first delimiter run is `s[i..i + n]`:
      the piece before it, if any, then the runs after it. */
  lemma RunsAroundDelimiters(s: string, i: nat, n: nat)
    requires i + n <= |s| && n >= 1
    requires AllIn(s[..i], NotDelimiter)
    requires forall j :: i <= j < i + n ==> IsDelimiter(s[j])
    ensures Runs(s, NotDelimiter) == (if i == 0 then [] else [s[..i]]) + Runs(s[i + n..], NotDelimiter)
  {
    var u := s[i..];
    assert u[n..] == s[i + n..];
    assert forall j :: 0 <= j < n ==> !NotDelimiter(u[j]) by {
      assert forall j :: 0 <= j < n ==> u[j] == s[i + j];
    }
    RunsSkipPrefix(u, n, NotDelimiter);
    if i == 0 {
      assert u == s;
    } else {
      assert s == s[..i] + u;
      LeadingRunOfWord(s[..i], u, NotDelimiter);
      assert s[0] == s[..i][0];
    }
  }

  /** The non-empty pieces of the split are exactly the maximal runs of
      non-delimiters: the split differs from the runs only by the empty
      pieces a leading or trailing delimiter run leaves. */
  lemma {:induction false} SplitKeepsRuns(s: string)
    ensures Filter(SplitOnDelimiters(s), NonEmpty) == Runs(s, NotDelimiter)
    decreases |s|
  {
    var i := LeadingRun(s, NotDelimiter);
    if i == |s| {
      assert s[..i] == s;
      if s != [] {
        RunsOfWord(s, NotDelimiter);
      }
    } else {
      var n := LeadingRun(s[i..], IsDelimiter);
      assert n >= 1 by { assert s[i..][0] == s[i]; }
      assert forall j :: i <= j < i + n ==> IsDelimiter(s[j]) by {
        assert forall j :: i <= j < i + n ==> s[i..][..n][j - i] == s[j];
      }
      var t := s[i + n..];
      var parts := SplitOnDelimiters(t);
      assert SplitOnDelimiters(s) == [s[..i]] + parts;
      FilterCons(s[..i], parts, NonEmpty);
      SplitKeepsRuns(t);
      RunsAroundDelimiters(s, i, n);
    }
  }

  /** Cleaning maps the empty piece to the empty piece, so dropping empty
      pieces before cleaning changes nothing. */
  lemma {:induction false} CleanDropsEmpty(parts: seq<string>, clean: string -> string)
    requires clean([]) == []
    ensures Filter(MapSeq(parts, clean), NonEmpty)
         == Filter(MapSeq(Filter(parts, NonEmpty), clean), NonEmpty)
  {
    if parts != [] {
      var p := parts[0];
      var tail := parts[1..];
      CleanDropsEmpty(tail, clean);
      var mapped := MapSeq(parts, clean);
      assert mapped[0] == clean(p) && mapped[1..] == MapSeq(tail, clean);
      if p != [] {
        var kept := Filter(parts, NonEmpty);
        assert kept == [p] + Filter(tail, NonEmpty);
        var mk := MapSeq(kept, clean);
        assert mk[0] == clean(p) && mk[1..] == MapSeq(Filter(tail, NonEmpty), clean);
      }
    }
  }

  /** The entries of a string are its cleaned runs of non-delimiters, with
      the ones that clean to nothing dropped. */
  lemma EntriesOfRuns(s: string, clean: string -> string)
    requires clean([]) == []
    ensures Entries(s, clean) == Filter(MapSeq(Runs(s, NotDelimiter), clean), NonEmpty)
  {
    CleanDropsEmpty(SplitOnDelimiters(s), clean);
    SplitKeepsRuns(s);
  }

  /** Words that cleaning leaves alone, separated by delimiters, come back
      as the entries. */
  lemma EntriesOfInterleave(ws: seq<string>, seps: string, clean: string -> string)
    requires |ws| >= 1 && |seps| == |ws| - 1
    requires IsRunList(ws, NotDelimiter)
    requires forall i :: 0 <= i < |seps| ==> IsDelimiter(seps[i])
    requires forall k :: 0 <= k < |ws| ==> clean(ws[k]) == ws[k]
    requires clean([]) == []
    ensures Entries(Interleave(ws, seps), clean) == ws
  {
    var s := Interleave(ws, seps);
    EntriesOfRuns(s, clean);
    RunsOfInterleave(ws, seps, NotDelimiter);
    assert MapSeq(ws, clean) == ws;
    FilterAll(ws, NonEmpty);
  }

  // ---------------------------------------------------------------------
  // Relevant models

  /** A list entry: non-empty, without delimiters, and without white space
      at either end. */
  predicate IsEntry(e: string) {
    && e != []
    && AllIn(e, NotDelimiter)
    && !IsJsWhitespace(e[0])
    && !IsJsWhitespace(e[|e| - 1])
  }

  predicate IsEntryOrEmpty(e: string) {
    e == [] || IsEntry(e)
  }

  /** A trimmed piece without delimiters is an entry or empty. */
  lemma TrimmedPieces(parts: seq<string>)
    requires forall k :: 0 <= k < |parts| ==> AllIn(parts[k], NotDelimiter)
    ensures forall k :: 0 <= k < |parts| ==> IsEntryOrEmpty(MapSeq(parts, Trim)[k])
  {
    forall k | 0 <= k < |parts|
      ensures IsEntryOrEmpty(MapSeq(parts, Trim)[k])
    {
      TrimKeepsChars(parts[k], NotDelimiter);
    }
  }

  /** The model names listed in a text: split, trimmed, empties dropped. */
  function ModelList(text: string): (r: seq<string>)
    ensures forall k :: 0 <= k < |r| ==> IsEntry(r[k])
  {
    var parts := SplitOnDelimiters(text);
    TrimmedPieces(parts);
    FilterPreserves(MapSeq(parts, Trim), NonEmpty, IsEntryOrEmpty);
    Entries(text, Trim)
  }

  /** `relevantModels`: the option names of a `multi_select`, the trimmed
      non-empty delimited entries of a `rich_text`, and nothing otherwise. */
  function RelevantModels(p: Option<Property>): (r: seq<string>)
    ensures p.Some? && p.value.MultiSelect? ==> r == p.value.names
    ensures p.Some? && p.value.RichText? ==> forall k :: 0 <= k < |r| ==> IsEntry(r[k])
    ensures p.None? || p.value.Title? || p.value.OtherProperty? ==> r == []
  {
    match p
    case Some(MultiSelect(names)) => names
    case Some(RichText(items)) =>
      var text := PlainText(items);
      if text == [] then [] else ModelList(text)
    case _ => []
  }

  /** Entries written into one `rich_text` fragment, separated by any
      delimiters, are read back as they were written. */
  lemma RelevantModelsRoundTrip(ws: seq<string>, seps: string)
    requires |ws| >= 1 && |seps| == |ws| - 1
    requires forall k :: 0 <= k < |ws| ==> IsEntry(ws[k])
    requires forall i :: 0 <= i < |seps| ==> IsDelimiter(seps[i])
    ensures RelevantModels(Some(RichText([Interleave(ws, seps)]))) == ws
  {
    PlainTextOfInterleave(ws, seps);
    forall k | 0 <= k < |ws|
      ensures Trim(ws[k]) == ws[k]
    {
      TrimOfTrimmed(ws[k]);
    }
    assert Trim([]) == [];
    EntriesOfInterleave(ws, seps, Trim);
  }

  // ---------------------------------------------------------------------
  // Output types

  /** `name.toLowerCase().trim()`. */
  function TrimOfLower(s: string): string {
    Trim(Lower(s))
  }

  /** `s.trim().toLowerCase()`. */
  function LowerOfTrim(s: string): string {
    Lower(Trim(s))
  }

  /** The output types among the option names of a `multi_select`: the
      names that lower-case and trim to a type name, in their order. */
  function SelectedTypes(names: seq<string>): (r: seq<OutputType>)
    ensures |r| <= |names|
  {
    MapPresent(MapSeq(names, TrimOfLower), ParseOutputType)
  }

  /** Every selected type is named by an option, up to case and white
      space, and every option that names a type has that type selected. */
  lemma SelectedTypesNamed(names: seq<string>)
    ensures forall k :: 0 <= k < |SelectedTypes(names)| ==>
      exists i :: 0 <= i < |names| && TrimOfLower(names[i]) == OutputTypeName(SelectedTypes(names)[k])
    ensures forall i, t :: 0 <= i < |names| && TrimOfLower(names[i]) == OutputTypeName(t) ==> t in SelectedTypes(names)
  {
    var values := MapSeq(names, TrimOfLower);
    var r := SelectedTypes(names);
    MapPresentMembers(values, ParseOutputType);
    forall k | 0 <= k < |r|
      ensures exists i :: 0 <= i < |names| && TrimOfLower(names[i]) == OutputTypeName(r[k])
    {
      var i :| 0 <= i < |values| && ParseOutputType(values[i]) == Some(r[k]);
      assert TrimOfLower(names[i]) == OutputTypeName(r[k]);
    }
    forall i, t | 0 <= i < |names| && TrimOfLower(names[i]) == OutputTypeName(t)
      ensures t in r
    {
      ParseOutputTypeName(t);
      assert ParseOutputType(values[i]) == Some(t);
    }
  }

  /** The output types listed in a text: its delimited entries, trimmed and
      lower-cased, that name a type, in their order. */
  function ListedTypes(text: string): seq<OutputType> {
    MapPresent(Entries(text, LowerOfTrim), ParseOutputType)
  }

  /** Every listed type is named by an entry of the text, and every type an
      entry names is listed. */
  lemma ListedTypesNamed(text: string)
    ensures forall k :: 0 <= k < |ListedTypes(text)| ==>
      OutputTypeName(ListedTypes(text)[k]) in Entries(text, LowerOfTrim)
    ensures forall t :: t in ListedTypes(text) <==> OutputTypeName(t) in Entries(text, LowerOfTrim)
  {
    var entries := Entries(text, LowerOfTrim);
    var r := ListedTypes(text);
    MapPresentMembers(entries, ParseOutputType);
    forall k | 0 <= k < |r|
      ensures OutputTypeName(r[k]) in entries
    {
      var i :| 0 <= i < |entries| && ParseOutputType(entries[i]) == Some(r[k]);
    }
    forall t | OutputTypeName(t) in entries
      ensures t in r
    {
      var i :| 0 <= i < |entries| && entries[i] == OutputTypeName(t);
      ParseOutputTypeName(t);
      assert ParseOutputType(entries[i]) == Some(t);
    }
  }

  /** `outputType`: the whitelisted values of a `multi_select` or a
      `rich_text` property, and nothing for any other. */
  function OutputTypes(p: Option<Property>): (r: seq<OutputType>)
    ensures p.None? || p.value.Title? || p.value.OtherProperty? ==> r == []
  {
    match p
    case Some(MultiSelect(names)) => SelectedTypes(names)
    case Some(RichText(items)) =>
      var text := PlainText(items);
      if text == [] then [] else ListedTypes(text)
    case _ => []
  }

  /** The three type names are lower-case words, which trimming and
      lower-casing leave alone. */
  lemma OutputTypeNameIsWord(t: OutputType)
    ensures IsEntry(OutputTypeName(t))
    ensures TrimOfLower(OutputTypeName(t)) == OutputTypeName(t)
    ensures LowerOfTrim(OutputTypeName(t)) == OutputTypeName(t)
  {
    var w := OutputTypeName(t);
    assert forall i :: 0 <= i < |w| ==> 'a' <= w[i] <= 'z';
    LowercaseWord(w);
  }

  lemma SelectedTypeNames(ts: seq<OutputType>)
    ensures SelectedTypes(MapSeq(ts, OutputTypeName)) == ts
  {
    var names := MapSeq(ts, OutputTypeName);
    var values := MapSeq(names, TrimOfLower);
    forall i | 0 <= i < |ts|
      ensures ParseOutputType(values[i]) == Some(ts[i])
    {
      OutputTypeNameIsWord(ts[i]);
      ParseOutputTypeName(ts[i]);
    }
    MapPresentTotal(values, ParseOutputType, ts);
  }

  /** Listing output types by name in a `multi_select` reads them back in
      the same order. */
  lemma OutputTypesRoundTrip(ts: seq<OutputType>)
    ensures OutputTypes(Some(MultiSelect(MapSeq(ts, OutputTypeName)))) == ts
  {
    SelectedTypeNames(ts);
  }

  /** The type names, separated by delimiters, are their own entries. */
  lemma TypeNamesAreEntries(ts: seq<OutputType>, seps: string)
    requires |ts| >= 1 && |seps| == |ts| - 1
    requires forall i :: 0 <= i < |seps| ==> IsDelimiter(seps[i])
    ensures Entries(Interleave(MapSeq(ts, OutputTypeName), seps), LowerOfTrim) == MapSeq(ts, OutputTypeName)
  {
    var names := MapSeq(ts, OutputTypeName);
    forall k | 0 <= k < |names|
      ensures IsEntry(names[k]) && LowerOfTrim(names[k]) == names[k]
    {
      OutputTypeNameIsWord(ts[k]);
    }
    assert LowerOfTrim([]) == [];
    EntriesOfInterleave(names, seps, LowerOfTrim);
  }

  lemma ListedTypeNames(ts: seq<OutputType>, seps: string)
    requires |ts| >= 1 && |seps| == |ts| - 1
    requires forall i :: 0 <= i < |seps| ==> IsDelimiter(seps[i])
    ensures ListedTypes(Interleave(MapSeq(ts, OutputTypeName), seps)) == ts
  {
    var names := MapSeq(ts, OutputTypeName);
    forall k | 0 <= k < |names|
      ensures ParseOutputType(names[k]) == Some(ts[k])
    {
      ParseOutputTypeName(ts[k]);
    }
    TypeNamesAreEntries(ts, seps);
    MapPresentTotal(names, ParseOutputType, ts);
  }

  /** Type names separated by delimiters have no white space to trim. */
  lemma TypeListText(ts: seq<OutputType>, seps: string)
    requires |ts| >= 1 && |seps| == |ts| - 1
    ensures Interleave(MapSeq(ts, OutputTypeName), seps) != []
    ensures PlainText([Interleave(MapSeq(ts, OutputTypeName), seps)]) == Interleave(MapSeq(ts, OutputTypeName), seps)
  {
    var names := MapSeq(ts, OutputTypeName);
    forall k | 0 <= k < |names|
      ensures names[k] != []
    {
      OutputTypeNameIsWord(ts[k]);
    }
    OutputTypeNameIsWord(ts[0]);
    OutputTypeNameIsWord(ts[|ts| - 1]);
    PlainTextOfInterleave(names, seps);
  }

  /** Output types written into one `rich_text` fragment, separated by any
      delimiters, are read back in the same order. */
  lemma OutputTypesRichTextRoundTrip(ts: seq<OutputType>, seps: string)
    requires |ts| >= 1 && |seps| == |ts| - 1
    requires forall i :: 0 <= i < |seps| ==> IsDelimiter(seps[i])
    ensures OutputTypes(Some(RichText([Interleave(MapSeq(ts, OutputTypeName), seps)]))) == ts
  {
    TypeListText(ts, seps);
    ListedTypeNames(ts, seps);
  }

  /** Case does not matter in `multi_select` output types. */
  lemma OutputTypesIgnoreCase(names: seq<string>)
    ensures OutputTypes(Some(MultiSelect(MapSeq(names, Lower)))) == OutputTypes(Some(MultiSelect(names)))
  {
    var lowered := MapSeq(names, Lower);
    forall i | 0 <= i < |names|
      ensures TrimOfLower(lowered[i]) == TrimOfLower(names[i])
    {
      LowerIdempotent(names[i]);
    }
    assert MapSeq(lowered, TrimOfLower) == MapSeq(names, TrimOfLower);
  }

  // ---------------------------------------------------------------------
  // Pages

  /** The text fragments of an insight property: `rich_text` and `title`
      are accepted, any other type is not. */
  function InsightFragments(p: Property): (items: Option<seq<string>>)
    ensures items.Some? <==> p.RichText? || p.Title?
    ensures p.RichText? ==> items == Some(p.richText)
    ensures p.Title? ==> items == Some(p.title)
  {
    match p
    case RichText(items) => Some(items)
    case Title(items) => Some(items)
    case _ => None
  }

  /** `mapToBestPractice`. */
  function MapToBestPractice(page: Page): (r: Option<BestPractice>)
    ensures r.Some? ==> IsFullPage(page) && InsightProperty in page.properties
    ensures r.Some? ==> InsightFragments(page.properties[InsightProperty]).Some?
    ensures r.Some? ==> IsEntryText(r.value.insight)
    ensures r.Some? ==> r.value.relevantModels == RelevantModels(PropertyOf(page, ModelsProperty))
    ensures r.Some? ==> r.value.outputType == OutputTypes(PropertyOf(page, OutputTypeProperty))
  {
    if !IsFullPage(page) then None
    else
      match PropertyOf(page, InsightProperty)
      case None => None
      case Some(property) =>
        match InsightFragments(property)
        case None => None
        case Some(items) =>
          var insight := PlainText(items);
          if insight == [] then None
          else
            Some(BestPractice(insight,
                              RelevantModels(PropertyOf(page, ModelsProperty)),
                              OutputTypes(PropertyOf(page, OutputTypeProperty))))
  }

  /** A non-empty text without white space at either end. */
  predicate IsEntryText(s: string) {
    s != [] && !IsJsWhitespace(s[0]) && !IsJsWhitespace(s[|s| - 1])
  }

  /** A page maps to null exactly when it is partial, lacks the insight
      property, has an insight of another type than `title` or
      `rich_text`, or has an insight that is all white space. */
  lemma MapToBestPracticeNull(page: Page)
    ensures MapToBestPractice(page).None? <==>
      || !IsFullPage(page)
      || InsightProperty !in page.properties
      || InsightFragments(page.properties[InsightProperty]).None?
      || AllWhitespace(Join(InsightFragments(page.properties[InsightProperty]).value, " "))
  {
  }

  /** The insight is the joined, trimmed insight text. */
  lemma MapToBestPracticeInsight(page: Page)
    requires MapToBestPractice(page).Some?
    ensures MapToBestPractice(page).value.insight
         == PlainText(InsightFragments(page.properties[InsightProperty]).value)
  {
  }

  // ---------------------------------------------------------------------
  // The repository

  /** `buildSearchFilter`: the trimmed query against the insight title, the
      model text and the output-type options. */
  function BuildSearchFilter(query: string): (f: SearchFilter)
    ensures |f.clauses| == 3
    ensures forall k :: 0 <= k < 3 ==> f.clauses[k].contains == query
    ensures f.clauses[0].property == InsightProperty && f.clauses[0].kind == TitleKind
    ensures f.clauses[1].property == ModelsProperty && f.clauses[1].kind == RichTextKind
    ensures f.clauses[2].property == OutputTypeProperty && f.clauses[2].kind == MultiSelectKind
  {
    Or([Clause(InsightProperty, TitleKind, query),
        Clause(ModelsProperty, RichTextKind, query),
        Clause(OutputTypeProperty, MultiSelectKind, query)])
  }

  /** `getAll`: every page of the database that maps, in page order. */
  function GetAll(env: map<string, string>,
                  query: Option<SearchFilter> -> Result<seq<Page>, string>): (r: Result<seq<BestPractice>, RepositoryError>)
    ensures EnsureConfiguration(env).Fail? ==> r == Err(ConfigurationError(MissingConfig(env)))
    ensures EnsureConfiguration(env).Pass? && query(None).Err? ==>
      r == Err(NotionQueryError(query(None).error))
    ensures r.Ok? ==> query(None).Ok? && r.value == MapPresent(query(None).value, MapToBestPractice)
    ensures r.Ok? ==> |r.value| <= |query(None).value|
  {
    GetAllWith(env, query, MapToBestPractice)
  }

  /** `search(text)`: `getAll` for a blank text, otherwise the pages the
      filtered query returns for the trimmed text that map. */
  function Search(env: map<string, string>, text: string,
                  query: Option<SearchFilter> -> Result<seq<Page>, string>): (r: Result<seq<BestPractice>, RepositoryError>)
    ensures EnsureConfiguration(env).Fail? ==> r == Err(ConfigurationError(MissingConfig(env)))
    ensures AllWhitespace(text) ==> r == GetAll(env, query)
    ensures !AllWhitespace(text) && EnsureConfiguration(env).Pass? ==>
      var pages := query(Some(BuildSearchFilter(Trim(text))));
      && (pages.Err? ==> r == Err(NotionQueryError(pages.error)))
      && (pages.Ok? ==> r == Ok(MapPresent(pages.value, MapToBestPractice)))
  {
    SearchWith(env, text, query, BuildSearchFilter, MapToBestPractice)
  }

  /** The best practices come in the order of the pages they map from. */
  lemma GetAllKeepsPageOrder(env: map<string, string>,
                             query: Option<SearchFilter> -> Result<seq<Page>, string>,
                             a: seq<Page>, b: seq<Page>)
    requires EnsureConfiguration(env).Pass?
    requires query(None) == Ok(a + b)
    ensures GetAll(env, query) == Ok(MapPresent(a, MapToBestPractice) + MapPresent(b, MapToBestPractice))
  {
    MapPresentAppend(a, b, MapToBestPractice);
  }
}
