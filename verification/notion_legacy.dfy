/** The earlier Notion repository and its mock: a page becomes a best
    practice with an insight and the relevant models, read from a
    `rich_text` insight and a `multi_select` of models; `getAll` and
    `search` work as in the newer repository, with a two-clause filter. */
module LegacyNotionRepository {
  import opened Wrappers
  import opened Strings
  import opened NotionPages

  const InsightProperty := "Insight"
  const ModelsProperty := "Relevant Models"

  datatype BestPractice = BestPractice(insight: string, relevantModels: seq<string>)

  // ---------------------------------------------------------------------
  // The mock

  const MidjourneyModel := "midjourney-v7"

  const MockValues: seq<BestPractice> := [
    BestPractice("Midjourney v7 is the best at all types of images at the moment.", [MidjourneyModel]),
    BestPractice("Midjourney v7 gives the best results when prompted in a JSON format like { \"subject\": \"tea pot\", \"lighting\": \"bright outdoor\", ... }", [MidjourneyModel])
  ]

  /** The mock's `getAll`: the two fixed records, both about the same
      model. */
  function MockGetAll(): (r: Result<seq<BestPractice>, RepositoryError>)
    ensures r.Ok? && |r.value| == 2
    ensures forall k :: 0 <= k < |r.value| ==> r.value[k].relevantModels == [MidjourneyModel]
  {
    Ok(MockValues)
  }

  /** The mock's `search`: the query is ignored. */
  function MockSearch(query: string): (r: Result<seq<BestPractice>, RepositoryError>)
    ensures r == MockGetAll()
  {
    Ok(MockValues)
  }

  // ---------------------------------------------------------------------
  // Pages

  /** `relevantModels`: the option names of a `multi_select`, and nothing
      for a missing property or any other type. */
  function Models(p: Option<Property>): (r: seq<string>)
    ensures p.Some? && p.value.MultiSelect? ==> r == p.value.names
    ensures !(p.Some? && p.value.MultiSelect?) ==> r == []
  {
    match p
    case Some(MultiSelect(names)) => names
    case _ => []
  }

  /** `mapToBestPractice`: only a `rich_text` insight is read. */
  function MapToBestPractice(page: Page): (r: Option<BestPractice>)
    ensures r.Some? ==> IsFullPage(page) && InsightProperty in page.properties
    ensures r.Some? ==> page.properties[InsightProperty].RichText?
    ensures r.Some? ==> r.value.insight == PlainText(page.properties[InsightProperty].richText)
    ensures r.Some? ==> r.value.insight != []
    ensures r.Some? ==> r.value.relevantModels == Models(PropertyOf(page, ModelsProperty))
  {
    if !IsFullPage(page) then None
    else
      match PropertyOf(page, InsightProperty)
      case Some(RichText(items)) =>
        var insight := PlainText(items);
        if insight == [] then None
        else Some(BestPractice(insight, Models(PropertyOf(page, ModelsProperty))))
      case _ => None
  }

  /** A page maps to null exactly when it is partial, lacks a `rich_text`
      insight, or has an insight that is all white space. */
  lemma MapToBestPracticeNull(page: Page)
    ensures MapToBestPractice(page).None? <==>
      || !IsFullPage(page)
      || InsightProperty !in page.properties
      || !page.properties[InsightProperty].RichText?
      || AllWhitespace(Join(page.properties[InsightProperty].richText, " "))
  {
  }

  // ---------------------------------------------------------------------
  // The repository

  /** `buildSearchFilter`: the trimmed query against the insight text and
      the model options. */
  function BuildSearchFilter(query: string): (f: SearchFilter)
    ensures |f.clauses| == 2
    ensures forall k :: 0 <= k < 2 ==> f.clauses[k].contains == query
    ensures f.clauses[0].property == InsightProperty && f.clauses[0].kind == RichTextKind
    ensures f.clauses[1].property == ModelsProperty && f.clauses[1].kind == MultiSelectKind
  {
    Or([Clause(InsightProperty, RichTextKind, query),
        Clause(ModelsProperty, MultiSelectKind, query)])
  }

  /** `getAll`: every page of the database that maps, in page order. */
  function GetAll(env: map<string, string>,
                  query: Option<SearchFilter> -> Result<seq<Page>, string>): (r: Result<seq<BestPractice>, RepositoryError>)
    ensures EnsureConfiguration(env).Fail? ==> r == Err(ConfigurationError(MissingConfig(env)))
    ensures EnsureConfiguration(env).Pass? && query(None).Err? ==>
      r == Err(NotionQueryError(query(None).error))
    ensures r.Ok? ==> query(None).Ok? && r.value == MapPresent(query(None).value, MapToBestPractice)
    ensures r.Ok? ==> |r.value| <= |query(None).value|
  {
    GetAllWith(env, query, MapToBestPractice)
  }

  /** `search(text)`: `getAll` for a blank text, otherwise the pages the
      filtered query returns for the trimmed text that map. */
  function Search(env: map<string, string>, text: string,
                  query: Option<SearchFilter> -> Result<seq<Page>, string>): (r: Result<seq<BestPractice>, RepositoryError>)
    ensures EnsureConfiguration(env).Fail? ==> r == Err(ConfigurationError(MissingConfig(env)))
    ensures AllWhitespace(text) ==> r == GetAll(env, query)
    ensures !AllWhitespace(text) && EnsureConfiguration(env).Pass? ==>
      var pages := query(Some(BuildSearchFilter(Trim(text))));
      && (pages.Err? ==> r == Err(NotionQueryError(pages.error)))
      && (pages.Ok? ==> r == Ok(MapPresent(pages.value, MapToBestPractice)))
  {
    SearchWith(env, text, query, BuildSearchFilter, MapToBestPractice)
  }

  /** The best practices come in the order of the pages they map from. */
  lemma GetAllKeepsPageOrder(env: map<string, string>,
                             query: Option<SearchFilter> -> Result<seq<Page>, string>,
                             a: seq<Page>, b: seq<Page>)
    requires EnsureConfiguration(env).Pass?
    requires query(None) == Ok(a + b)
    ensures GetAll(env, query) == Ok(MapPresent(a, MapToBestPractice) + MapPresent(b, MapToBestPractice))
  {
    MapPresentAppend(a, b, MapToBestPractice);
  }
}
