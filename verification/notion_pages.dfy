/** What the two Notion-backed best-practice repositories share: the shape of
    a queried page, the configuration check, the plain-text join, the search
    filter datatype, and the query-then-map pipeline behind `getAll` and
    `search`. The Notion database query is a parameter: it takes the filter
    (or none) and yields the pages or the message of a `NotionQueryError`. */
module NotionPages {
  import opened Wrappers
  import opened Strings

  /** A page property, as far as the mappers look at it: the `plain_text` of
      each fragment of a `title` or `rich_text`, the option names of a
      `multi_select`, or the type name of anything else. */
  datatype Property =
    | Title(title: seq<string>)
    | RichText(richText: seq<string>)
    | MultiSelect(names: seq<string>)
    | OtherProperty(kind: string)

  /** A query result: a full page carries `properties`, a partial page does
      not. */
  datatype Page =
    | FullPage(properties: map<string, Property>)
    | PartialPage

  /** `"properties" in page`. */
  predicate IsFullPage(page: Page) {
    page.FullPage?
  }

  /** `page.properties[name]`, `undefined` being `None`. A property object
      is always truthy, so `!property` is exactly `None?`. */
  function PropertyOf(page: Page, name: string): (p: Option<Property>)
    requires IsFullPage(page)
    ensures p.Some? <==> name in page.properties
    ensures p.Some? ==> p.value == page.properties[name]
  {
    if name in page.properties then Some(page.properties[name]) else None
  }

  /** `items.map(i => i.plain_text).join(" ").trim()`. */
  function PlainText(fragments: seq<string>): (t: string)
    ensures t == [] <==> AllWhitespace(Join(fragments, " "))
    ensures t == [] || (!IsJsWhitespace(t[0]) && !IsJsWhitespace(t[|t| - 1]))
  {
    Trim(Join(fragments, " "))
  }

  /** The plain text of a single fragment that neither starts nor ends with
      white space is the fragment itself. */
  lemma PlainTextOfOne(s: string)
    requires s == [] || (!IsJsWhitespace(s[0]) && !IsJsWhitespace(s[|s| - 1]))
    ensures PlainText([s]) == s
  {
    assert Join([s], " ") == s;
    TrimOfTrimmed(s);
  }

  /** Non-empty words separated by single characters, the first word not
      starting and the last not ending with white space, are one fragment's
      own plain text. */
  lemma PlainTextOfInterleave(ws: seq<string>, seps: string)
    requires |ws| >= 1 && |seps| == |ws| - 1
    requires forall k :: 0 <= k < |ws| ==> ws[k] != []
    requires !IsJsWhitespace(ws[0][0]) && !IsJsWhitespace(ws[|ws| - 1][|ws[|ws| - 1]| - 1])
    ensures Interleave(ws, seps) != []
    ensures PlainText([Interleave(ws, seps)]) == Interleave(ws, seps)
  {
    InterleaveEnds(ws, seps);
    PlainTextOfOne(Interleave(ws, seps));
  }

  // ---------------------------------------------------------------------
  // Configuration

  const TokenVar := "NOTION_API_TOKEN"
  const DatabaseVar := "NOTION_BEST_PRACTICES_DB_ID"
  const TokenFallback := "TODO_NOTION_API_TOKEN"
  const DatabaseFallback := "TODO_DATABASE_ID"
  const Placeholder := "TODO"

  /** `process.env[name] ?? fallback`: an empty value is kept. */
  function ConfigValue(env: map<string, string>, name: string, fallback: string): (v: string)
    ensures name in env ==> v == env[name]
    ensures name !in env ==> v == fallback
  {
    if name in env then env[name] else fallback
  }

  function Token(env: map<string, string>): string {
    ConfigValue(env, TokenVar, TokenFallback)
  }

  function DatabaseId(env: map<string, string>): string {
    ConfigValue(env, DatabaseVar, DatabaseFallback)
  }

  /** `!value || value.includes("TODO")`. */
  predicate Unconfigured(value: string) {
    value == [] || Contains(value, Placeholder)
  }

  /** The names of the unusable settings, token first. */
  function MissingConfig(env: map<string, string>): seq<string> {
    Missing(Unconfigured(Token(env)), Unconfigured(DatabaseId(env)))
  }

  /** The missing-name list for the given verdicts on the token and the
      database id: each name is listed exactly when its setting is
      unusable, the token first. */
  function Missing(token: bool, database: bool): (missing: seq<string>)
    ensures TokenVar in missing <==> token
    ensures DatabaseVar in missing <==> database
    ensures missing == [] <==> !token && !database
    ensures |missing| == 2 ==> missing == [TokenVar, DatabaseVar]
    ensures forall i :: 0 <= i < |missing| ==> missing[i] == TokenVar || missing[i] == DatabaseVar
  {
    assert TokenVar != DatabaseVar by { assert |TokenVar| != |DatabaseVar|; }
    (if token then [TokenVar] else []) + (if database then [DatabaseVar] else [])
  }

  /** `ensureConfiguration`: fails with the missing names, or passes. */
  function EnsureConfiguration(env: map<string, string>): (o: Outcome<seq<string>>)
    ensures o.Pass? <==> !Unconfigured(Token(env)) && !Unconfigured(DatabaseId(env))
    ensures o.Fail? ==> o.error == MissingConfig(env) && o.error != []
  {
    var missing := MissingConfig(env);
    if |missing| > 0 then Fail(missing) else Pass
  }

  lemma FallbacksArePlaceholders(token: string, database: string)
    requires token == TokenFallback && database == DatabaseFallback
    ensures Contains(token, Placeholder) && Contains(database, Placeholder)
  {
    assert OccursAt(token, Placeholder, 0);
    assert OccursAt(database, Placeholder, 0);
  }

  /** An unset variable falls back to a `TODO` placeholder, which the check
      reports as missing: the repository never queries Notion unless both
      variables are set. */
  lemma UnsetIsMissing(env: map<string, string>)
    ensures TokenVar !in env ==> TokenVar in MissingConfig(env)
    ensures DatabaseVar !in env ==> DatabaseVar in MissingConfig(env)
    ensures TokenVar !in env || DatabaseVar !in env ==> EnsureConfiguration(env).Fail?
  {
    FallbacksArePlaceholders(TokenFallback, DatabaseFallback);
  }

  // ---------------------------------------------------------------------
  // Queries

  /** The type of the property a filter clause tests. */
  datatype PropertyKind = TitleKind | RichTextKind | MultiSelectKind

  /** `{ property, <kind>: { contains } }`. */
  datatype Clause = Clause(property: string, kind: PropertyKind, contains: string)

  /** `{ or: clauses }`. */
  datatype SearchFilter = Or(clauses: seq<Clause>)

  datatype RepositoryError =
    | ConfigurationError(missing: seq<string>)
    | NotionQueryError(message: string)

  /** `xs.map(f).filter(v => v !== null)`. */
  function MapPresent<A, B>(xs: seq<A>, f: A -> Option<B>): (r: seq<B>)
    ensures |r| <= |xs|
  {
    if xs == [] then []
    else
      match f(xs[0])
      case Some(v) => [v] + MapPresent(xs[1..], f)
      case None => MapPresent(xs[1..], f)
  }

  /** Every kept value is the image of an input, and the image of every
      input that does not map to null is kept. */
  lemma {:induction false} MapPresentMembers<A, B>(xs: seq<A>, f: A -> Option<B>)
    ensures forall k :: 0 <= k < |MapPresent(xs, f)| ==>
      exists i :: 0 <= i < |xs| && f(xs[i]) == Some(MapPresent(xs, f)[k])
    ensures forall i :: 0 <= i < |xs| && f(xs[i]).Some? ==> f(xs[i]).value in MapPresent(xs, f)
  {
    if xs != [] {
      var tail := xs[1..];
      MapPresentMembers(tail, f);
      assert forall i :: 0 <= i < |tail| ==> tail[i] == xs[i + 1];
      var r := MapPresent(xs, f);
      var rest := MapPresent(tail, f);
      if f(xs[0]).Some? {
        assert r == [f(xs[0]).value] + rest;
        forall k | 0 <= k < |r|
          ensures exists i :: 0 <= i < |xs| && f(xs[i]) == Some(r[k])
        {
          if k == 0 {
            assert f(xs[0]) == Some(r[0]);
          } else {
            assert r[k] == rest[k - 1];
            var j :| 0 <= j < |tail| && f(tail[j]) == Some(rest[k - 1]);
            assert f(xs[j + 1]) == Some(r[k]);
          }
        }
      } else {
        assert r == rest;
        forall k | 0 <= k < |r|
          ensures exists i :: 0 <= i < |xs| && f(xs[i]) == Some(r[k])
        {
          var j :| 0 <= j < |tail| && f(tail[j]) == Some(rest[k]);
          assert f(xs[j + 1]) == Some(r[k]);
        }
      }
      forall i | 0 <= i < |xs| && f(xs[i]).Some?
        ensures f(xs[i]).value in r
      {
        if i > 0 {
          assert xs[i] == tail[i - 1];
        }
      }
    } else {
      assert MapPresent(xs, f) == [];
    }
  }

  /** Mapping and dropping nulls distributes over concatenation, so the kept
      values are in page order. */
  lemma {:induction false} MapPresentAppend<A, B>(a: seq<A>, b: seq<A>, f: A -> Option<B>)
    ensures MapPresent(a + b, f) == MapPresent(a, f) + MapPresent(b, f)
  {
    if a == [] {
      assert a + b == b;
    } else {
      assert (a + b)[0] == a[0];
      assert (a + b)[1..] == a[1..] + b;
      MapPresentAppend(a[1..], b, f);
    }
  }

  /** When every input maps to a value, the result is those values in
      input order: nothing is dropped or reordered. */
  lemma {:induction false} MapPresentTotal<A, B>(xs: seq<A>, f: A -> Option<B>, ys: seq<B>)
    requires |xs| == |ys|
    requires forall i :: 0 <= i < |xs| ==> f(xs[i]) == Some(ys[i])
    ensures MapPresent(xs, f) == ys
  {
    if xs != [] {
      assert forall i :: 0 <= i < |xs| - 1 ==> xs[1..][i] == xs[i + 1] && ys[1..][i] == ys[i + 1];
      MapPresentTotal(xs[1..], f, ys[1..]);
      assert ys == [ys[0]] + ys[1..];
    }
  }

  /** Query with the given filter after checking the configuration, and map
      the pages, dropping the ones that map to null. */
  function Load<B>(env: map<string, string>,
                   query: Option<SearchFilter> -> Result<seq<Page>, string>,
                   filter: Option<SearchFilter>,
                   mapper: Page -> Option<B>): (r: Result<seq<B>, RepositoryError>)
    ensures EnsureConfiguration(env).Fail? ==> r == Err(ConfigurationError(MissingConfig(env)))
    ensures EnsureConfiguration(env).Pass? && query(filter).Err? ==>
      r == Err(NotionQueryError(query(filter).error))
    ensures EnsureConfiguration(env).Pass? && query(filter).Ok? ==> r.Ok?
    ensures r.Ok? ==> query(filter).Ok? && r.value == MapPresent(query(filter).value, mapper)
  {
    match EnsureConfiguration(env)
    case Fail(missing) => Err(ConfigurationError(missing))
    case Pass =>
      match query(filter)
      case Err(message) => Err(NotionQueryError(message))
      case Ok(pages) => Ok(MapPresent(pages, mapper))
  }

  /** `getAll`: the unfiltered query. */
  function GetAllWith<B>(env: map<string, string>,
                         query: Option<SearchFilter> -> Result<seq<Page>, string>,
                         mapper: Page -> Option<B>): Result<seq<B>, RepositoryError>
  {
    Load(env, query, None, mapper)
  }

  /** `search(text)`: after the configuration check, a query that trims to
      nothing is `getAll`; any other is the filtered query for the trimmed
      text. */
  function SearchWith<B>(env: map<string, string>,
                         text: string,
                         query: Option<SearchFilter> -> Result<seq<Page>, string>,
                         buildFilter: string -> SearchFilter,
                         mapper: Page -> Option<B>): (r: Result<seq<B>, RepositoryError>)
    ensures EnsureConfiguration(env).Fail? ==> r == Err(ConfigurationError(MissingConfig(env)))
    ensures AllWhitespace(text) ==> r == GetAllWith(env, query, mapper)
    ensures !AllWhitespace(text) ==> r == Load(env, query, Some(buildFilter(Trim(text))), mapper)
  {
    match EnsureConfiguration(env)
    case Fail(missing) => Err(ConfigurationError(missing))
    case Pass =>
      var trimmed := Trim(text);
      if trimmed == [] then GetAllWith(env, query, mapper)
      else Load(env, query, Some(buildFilter(trimmed)), mapper)
  }

  /** Trimming the query text first changes nothing. */
  lemma SearchOfTrimmed<B>(env: map<string, string>, text: string,
                           query: Option<SearchFilter> -> Result<seq<Page>, string>,
                           buildFilter: string -> SearchFilter,
                           mapper: Page -> Option<B>)
    ensures SearchWith(env, Trim(text), query, buildFilter, mapper)
         == SearchWith(env, text, query, buildFilter, mapper)
  {
    TrimIdempotent(text);
  }
}
