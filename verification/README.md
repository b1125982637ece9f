# LIORA core, modelled in Dafny

LIORA is a generative-media agent. It reads best practices from a Notion
database, picks a fal.ai model for an image or video request, charges the
request through the Coral payment API, and talks to other agents over Coral.
This project models the pure decision logic of that system and proves what
it promises:

- **Endpoint resolution** (`src/effects/genai-service.ts`): `normalize`,
  the table-filling `levenshtein`, `tokenOverlap` and the one-argument
  `resolveFalEndpoint` over the five-entry catalog (modules `FalEndpoint`,
  `EditDistance`, `FalCatalog`).
- **The Notion best-practice repositories**: the newer one
  (`src/effects/best-practice-repository/notion-repository.ts`, module
  `NotionRepository`), the older one with its mock
  (`src/effects/best-practice-repository.ts`, module
  `LegacyNotionRepository`), and what the two share (module `NotionPages`):
  - the configuration check;
  - the page → best-practice mapper;
  - the search filter;
  - `getAll` and the blank-query branch of `search`.
- **The Coral agent entrypoint** (`src/coral/coral-agent-entrypoint.ts`,
  module `Coral`):
  - `listToolKeys`;
  - `findTool` with its `norm`;
  - `extractMention`;
  - the mention-list normalisation and the routing guard;
  - the order in which reply payloads are tried.
- **The payment client** (`src/effects/payment-service.ts`, module
  `PaymentService`): the mock, the configuration check, the trailing-slash
  strip, the claim URL, and the classification of the response.

Modules `Strings`, `JsValues` and `Wrappers` hold the JavaScript string
operations, JavaScript values and `Option`/`Result` types the rest relies on.

Some JavaScript semantics are modelled exactly:

- `String.prototype.trim` removes the full JavaScript white-space set, not just ASCII blanks.
- `a ?? b` keeps `""`; only `null` and `undefined` fall through.
- `split(/[;,\n]+/)` yields empty pieces only at the two ends.
- `toLowerCase().trim()` and `trim().toLowerCase()` are kept apart, as the `multi_select` and `rich_text` branches of `mapToBestPractice` write them.
- `sort()` without a comparator orders strings by their UTF-16 code units. A character above U+FFFF counts as its surrogate pair, so it sorts before U+E000–U+FFFF.

The following are parameters:

- the process environment, as a `map<string, string>`;
- the Notion database query, as a function from an optional filter to pages or an error message;
- `fetch`, `JSON.parse` and `encodeURIComponent`;
- the acceptance predicate of the send tool.

Where the code and its documentation or tests disagree, the model follows the code:

- **Empty endpoint name.** A name with no letter or digit, the empty string included, resolves to `fal-ai/veo3`, not to `DEFAULT_FAL_ENDPOINT`. The default can never be returned (`ResolveWithoutWords`, `ResolveFalEndpoint`).
- **Doubled payment error prefix.** `claim`'s own `[PaymentClaimError] …` is thrown inside the `try`, so the `catch` wraps it once more. A rejected claim therefore fails with `[PaymentClaimRequestError] [PaymentClaimError] … (status N)`, and `ClaimRejected` states exactly that.
- **Empty tool key.** In `findTool`, a matching key that is the empty string is falsy, so the search moves on to the next candidate. `FindTool` does the same.
- **Missing `multistep`.** The newer mapper returns a record without the `multistep` field its declared type has. The modelled record has no such field.

## Model

| member | source | states |
|---|---|---|
| FalEndpoint.ReplaceProviderPrefix | src/effects/genai-service.ts:33 | replacing `fal-ai/` by a blank only introduces blanks: every output character is a blank or one of the input's |
| FalEndpoint.ReplaceWithoutPrefix | src/effects/genai-service.ts:33 | a name without an `f` or without a `/` has no `fal-ai/` to replace and is unchanged |
| FalEndpoint.NormalizeIsNormalForm | src/effects/genai-service.ts:30-37 | a normalised name has only `a-z`, `0-9` and `-`, and no leading, trailing or doubled hyphen |
| FalEndpoint.NormalizeIdempotent | src/effects/genai-service.ts:30-37 | normalising a normalised name changes nothing |
| FalEndpoint.NormalizeIgnoresCase | src/effects/genai-service.ts:30-37 | lower-casing a name first does not change its normal form |
| FalEndpoint.NormalizeDropsProviderPrefix | src/effects/genai-service.ts:30-37 | `normalize("fal-ai/" + s) == normalize(s)`, and the words are the same too |
| FalEndpoint.NormalizeWithoutAlnum | src/effects/genai-service.ts:30-37 | a name without any ASCII letter or digit normalises to the empty string |
| FalEndpoint.ReplaceWithoutOccurrence | src/effects/genai-service.ts:33 | a name in which `fal-ai/` does not occur is unchanged by the replacement |
| FalEndpoint.NormalizeOfWords | src/effects/genai-service.ts:30-37 | lower-case words with any separators, optionally after `fal-ai/`, normalise to the words joined by `-`, as long as `fal-ai/` does not occur in the words and separators themselves |
| FalEndpoint.NormalizeDeterminedByWords | src/effects/genai-service.ts:30-37 | two names normalise alike exactly when their `[a-z0-9]` words are the same |
| FalEndpoint.SplitJoinedWords | src/effects/genai-service.ts:57-58 | splitting a normalised name on `-` gives back its words |
| FalEndpoint.TokenOverlap | src/effects/genai-service.ts:56-64 | the overlap is the size of the intersection of the two sets of distinct `-`-tokens |
| FalEndpoint.SharedCountIsIntersection | src/effects/genai-service.ts:59-62 | the counting loop over the distinct tokens of `a` counts exactly the tokens also in `b` |
| FalEndpoint.TokenOverlapSymmetricBounded | src/effects/genai-service.ts:56-64 | the overlap is symmetric and at most the token count of either side |
| FalEndpoint.EmptyOverlap | src/effects/genai-service.ts:56-64 | `""` splits to the one token `""`, which shares nothing with a normalised name that has words |
| FalEndpoint.ScoreOfEmpty | src/effects/genai-service.ts:73-75 | against an input without words, an endpoint's score is minus the length of its normal form |
| FalEndpoint.ScoreExactMatch | src/effects/genai-service.ts:73-75 | no score exceeds ten times the input's token count, and that maximum is reached exactly by an endpoint normalising to the input |
| FalEndpoint.ScanFrom | src/effects/genai-service.ts:71-80 | the strict-`>` scan returns the first catalog entry with the highest score |
| FalEndpoint.ResolveFalEndpoint | src/effects/genai-service.ts:66-83 | the result is always a catalog entry, never the default, and it is the first entry with the highest `10 * overlap - distance` |
| FalEndpoint.DefaultNotInCatalog | src/effects/genai-service.ts:19-28 | the default endpoint is not one of the catalog entries |
| FalEndpoint.FirstBestUnique | src/effects/genai-service.ts:76-79 | because ties keep the earlier entry, only one entry can be the first best |
| FalEndpoint.CatalogDistinct | src/effects/genai-service.ts:22-28 | the five catalog entries are pairwise distinct |
| FalEndpoint.ScanCharacterization | src/effects/genai-service.ts:68-80 | over any catalog of distinct entries, the scan returns entry `k` exactly when `k` is the first best |
| FalEndpoint.ResolveCharacterization | src/effects/genai-service.ts:66-83 | the resolver returns entry `k` if and only if `k` is the first entry with the highest score |
| FalEndpoint.ResolveByScores | src/effects/genai-service.ts:75-79 | an entry scoring at least as high as all entries, and strictly higher than the earlier ones, is the result |
| EditDistance.NextRow | src/effects/genai-service.ts:43-52 | the inner loop turns row `i - 1` of the table into row `i` of the recursive edit distance |
| EditDistance.Levenshtein | src/effects/genai-service.ts:39-54 | the table-filling algorithm returns the recursive edit distance of the two strings |
| EditDistance.LevSelf | src/effects/genai-service.ts:39-54 | a string is at distance 0 from itself |
| EditDistance.LevEmpty | src/effects/genai-service.ts:41-42 | against the empty string the distance is the other string's length, on either side |
| EditDistance.LevZero | src/effects/genai-service.ts:39-54 | the distance is 0 if and only if the strings are equal |
| EditDistance.LevBounds | src/effects/genai-service.ts:39-54 | the distance lies between the difference of the lengths and the larger length |
| EditDistance.DistSymmetric | src/effects/genai-service.ts:43-52 | every table cell equals the transposed cell of the table for the swapped strings |
| EditDistance.LevSymmetric | src/effects/genai-service.ts:39-54 | the distance does not depend on the order of its arguments |
| EditDistance.LevExtend | src/effects/genai-service.ts:39-54 | extending a string by `t` puts it at distance exactly `|t|` |
| FalCatalog.CatalogNormalFormsDistinct | src/effects/genai-service.ts:22-37 | the five catalog entries normalise to five different names |
| FalCatalog.CatalogNormalLengths | src/effects/genai-service.ts:22-37 | `fal-ai/veo3` normalises to `veo3`; every other entry normalises to something longer |
| FalCatalog.ResolveExactMatch | src/effects/genai-service.ts:66-83 | a name that normalises like catalog entry `k` resolves to entry `k` |
| FalCatalog.ResolveCatalogEntry | src/effects/genai-service.ts:66-83 | every catalog entry passed verbatim resolves to itself |
| FalCatalog.EmptyInputScores | src/effects/genai-service.ts:66-83 | against an input without words, `fal-ai/veo3` scores -4 and every other entry scores less |
| FalCatalog.ResolveWithoutWords | src/effects/genai-service.ts:66-83 | a name without an ASCII letter or digit, the empty name included, resolves to `fal-ai/veo3` |
| FalCatalog.SingleWordScore | src/effects/genai-service.ts:73-75 | a one-word input scores at most 0 against an endpoint lacking that word, and at most 10 minus the first word's length plus one against an endpoint where it follows a different first word |
| FalCatalog.ResolveToTwoWordEntry | src/effects/genai-service.ts:66-83 | a one-word name that is the first of an entry's two words, with no other entry sharing it, resolves to that entry |
| FalCatalog.NanoBananaWithBlank | src/effects/genai-service.test.ts:10-13 | `"nano banana"` normalises to `nano-banana` |
| FalCatalog.ResolveNanoBanana | src/effects/genai-service.test.ts:10-13 | every name normalising to `nano-banana` resolves to `fal-ai/nano-banana` |
| FalCatalog.Veo3Normalizes | src/effects/genai-service.test.ts:15-18 | `"veo3"` normalises to itself |
| FalCatalog.ResolveVeo3 | src/effects/genai-service.test.ts:15-18 | every name normalising to `veo3` resolves to `fal-ai/veo3` |
| FalCatalog.ResolveIdeogram | src/effects/genai-service.test.ts:20-23 | every name normalising to `ideogram` resolves to `fal-ai/ideogram/v3` |
| Strings.Lower | src/effects/genai-service.ts:32 | lower-casing keeps the length and maps each ASCII capital to its small letter, leaving other characters alone |
| Strings.LowerIdempotent | src/effects/genai-service.ts:32 | lower-casing twice is lower-casing once, and leaves no ASCII capital |
| Strings.Trim | src/effects/best-practice-repository/notion-repository.ts:126 | `trim` removes white space at both ends only: the result sits inside the input between white space, neither of its ends is white space, and it is empty exactly when the input is all white space |
| Strings.TrimUnique | src/effects/best-practice-repository/notion-repository.ts:126 | those conditions determine the trimmed string uniquely |
| Strings.TrimIdempotent | src/effects/best-practice-repository/notion-repository.ts:215 | trimming a trimmed string changes nothing |
| Strings.Contains | src/effects/best-practice-repository/notion-repository.ts:37 | `includes` holds exactly when the needle occurs at some position |
| Strings.Runs | src/effects/genai-service.ts:35-37 | the runs of a class of characters are non-empty and made of that class only |
| Strings.RunsOfJoin | src/effects/genai-service.ts:35-37 | words joined by a separator outside their class come back as the runs of the joined string |
| Strings.RunsOfInterleave | src/effects/genai-service.ts:35-37 | words separated by any characters outside their class come back as the runs |
| Strings.Split | src/effects/genai-service.ts:57 | `split` on one character yields at least one piece, none containing the separator |
| Strings.JoinSplit | src/effects/genai-service.ts:57 | joining the pieces with the separator gives back the string |
| Strings.SplitJoin | src/effects/genai-service.ts:57 | splitting a join of separator-free pieces gives back the pieces |
| Strings.Filter | src/effects/best-practice-repository/notion-repository.ts:146 | `filter` keeps exactly the elements that pass, and never lengthens the list |
| Strings.FilterAppend | src/effects/best-practice-repository/notion-repository.ts:146 | filtering distributes over concatenation, so kept elements stay in order |
| Strings.MapSeq | src/effects/best-practice-repository/notion-repository.ts:145 | `map` keeps the length and applies the function element by element |
| JsValues.CoalesceAllFirstPresent | src/coral/coral-agent-entrypoint.ts:157-162 | a `??` chain is its first non-nullish operand, and it is nullish exactly when every operand is |
| Coral.Keys | src/coral/coral-agent-entrypoint.ts:125 | `Object.keys` lists every tool's key, in insertion order |
| Coral.CodeUnits | src/coral/coral-agent-entrypoint.ts:16 | a character is one code unit below U+10000 and otherwise a high and a low surrogate that determine it |
| Coral.Utf16Injective | src/coral/coral-agent-entrypoint.ts:16 | different keys have different UTF-16 encodings, so comparing encodings orders the keys totally |
| Coral.LessEqAntisymmetric | src/coral/coral-agent-entrypoint.ts:16 | two keys that are each at most the other are the same key |
| Coral.SurrogatesSortFirst | src/coral/coral-agent-entrypoint.ts:16 | U+10000 is encoded `D800 DC00` and is sorted before U+E000 |
| Coral.Insert | src/coral/coral-agent-entrypoint.ts:16 | inserting into a sorted list keeps it sorted and adds exactly the one element |
| Coral.Sort | src/coral/coral-agent-entrypoint.ts:16 | `sort()` gives a sorted permutation of the keys |
| Coral.SortedUnique | src/coral/coral-agent-entrypoint.ts:16 | a multiset of keys has only one sorted arrangement |
| Coral.ListToolKeysSorted | src/coral/coral-agent-entrypoint.ts:15-16 | the listing is the keys in ascending order joined with `", "` |
| Coral.ListToolKeysOrderFree | src/coral/coral-agent-entrypoint.ts:15-16 | the listing does not depend on the order of the keys |
| Coral.Norm | src/coral/coral-agent-entrypoint.ts:126 | `norm` never lengthens its input |
| Coral.NormIsFilterOfLower | src/coral/coral-agent-entrypoint.ts:126 | `norm` is lower-casing followed by deleting every character outside `a-z0-9` |
| Coral.NormIdempotent | src/coral/coral-agent-entrypoint.ts:126 | `norm` of a normalised name changes nothing |
| Coral.NormIgnoresCase | src/coral/coral-agent-entrypoint.ts:126 | lower-casing first does not change `norm` |
| Coral.FirstMatch | src/coral/coral-agent-entrypoint.ts:129 | `keys.find` returns the first key whose `norm` contains the target, or nothing when no key does |
| Coral.FindTool | src/coral/coral-agent-entrypoint.ts:121-133 | a found entry is one of the tools, with a non-empty key whose `norm` contains some candidate's `norm`; nothing is found exactly when every candidate misses |
| Coral.FindToolFirstHit | src/coral/coral-agent-entrypoint.ts:127-131 | the result is the hit of the first candidate that hits; earlier candidates contribute nothing |
| Coral.CandidateHitIff | src/coral/coral-agent-entrypoint.ts:128-130 | a candidate misses only when no key's `norm` contains its `norm` or an empty key does; when the first key that matches is non-empty, its entry is the hit |
| Coral.FindToolNone | src/coral/coral-agent-entrypoint.ts:125-132 | with no empty key, nothing is found exactly when no candidate's `norm` occurs in any key's `norm` |
| Coral.FindToolSameNorm | src/coral/coral-agent-entrypoint.ts:127-131 | candidates that normalise alike add nothing after the first |
| Coral.WaitSpellingsAgree | src/coral/coral-agent-entrypoint.ts:171-175 | `wait_for_mentions`, `wait-for-mentions` and `waitForMentions` normalise alike |
| Coral.SendSpellingsAgree | src/coral/coral-agent-entrypoint.ts:176-180 | `send_message`, `send-message` and `sendMessage` normalise alike |
| Coral.WaitToolLookup | src/coral/coral-agent-entrypoint.ts:171-175 | looking the wait tool up under its three spellings is the same as looking it up under the first |
| Coral.SendToolLookup | src/coral/coral-agent-entrypoint.ts:176-180 | looking the send tool up under its three spellings is the same as looking it up under the first |
| Coral.Lookups | src/coral/coral-agent-entrypoint.ts:157-162 | each operand of a fallback chain is the optional-chained read along its path |
| Coral.ExtractMentionChains | src/coral/coral-agent-entrypoint.ts:156-168 | each decoded field is the first non-nullish value along its chain, and nullish only when every value is |
| Coral.EmptyThreadIdShadowsFallbacks | src/coral/coral-agent-entrypoint.ts:157-158 | an empty top-level `threadId` wins over every fallback, so the mention is not routable |
| Coral.MentionsOf | src/coral/coral-agent-entrypoint.ts:201-205 | an array stays itself, a truthy non-array becomes a singleton, a falsy value becomes empty |
| Coral.AnsweredMentions | src/coral/coral-agent-entrypoint.ts:212-217 | the answered mentions are exactly the routable ones among the normalised mentions |
| Coral.AnsweredMentionsAppend | src/coral/coral-agent-entrypoint.ts:212-217 | answered mentions keep their arrival order |
| Coral.AnsweredSingleMention | src/coral/coral-agent-entrypoint.ts:201-217 | a single mention object is answered exactly when it is routable |
| Coral.Payloads | src/coral/coral-agent-entrypoint.ts:232-236 | three payload shapes are tried, each carrying the answer as `content` |
| Coral.PayloadsCarryIds | src/coral/coral-agent-entrypoint.ts:232-236 | each payload carries the thread id and the sender as recipient, under its own field names |
| Coral.SendReply | src/coral/coral-agent-entrypoint.ts:238-247 | payloads are tried in order up to the first one accepted; `sent` is false exactly when all are refused |
| PaymentService.ClaimMock | src/effects/payment-service.ts:20-23 | the mock succeeds with budget 100 and price 1 whatever the amount |
| PaymentService.EnvValue | src/effects/payment-service.ts:29-30 | an unset variable reads as the empty string |
| PaymentService.MissingConfig | src/effects/payment-service.ts:28-32 | `CORAL_API_URL` and then `CORAL_SESSION_ID`, each listed exactly when empty |
| PaymentService.ConfigError | src/effects/payment-service.ts:34-38 | the configuration error is `[ConfigurationError] Missing config: ` followed by the missing names joined with `", "`, and there is none exactly when both are set |
| PaymentService.StripTrailingSlashes | src/effects/payment-service.ts:41 | the base URL is a prefix of the configured URL, does not end in `/`, and only slashes were cut |
| PaymentService.StripUnique | src/effects/payment-service.ts:41 | those conditions determine the base URL uniquely |
| PaymentService.StripIdempotent | src/effects/payment-service.ts:41 | stripping twice is stripping once |
| PaymentService.StripExtraSlash | src/effects/payment-service.ts:41 | an extra trailing slash on the configured URL changes nothing |
| PaymentService.ClaimUrl | src/effects/payment-service.ts:41-44 | the claim URL is the configured URL cut just before its trailing slashes, then `/api/v1/internal/claim/` and the encoded session id, so the slash before the path is never doubled |
| PaymentService.ClaimUrlShape | src/effects/payment-service.ts:41-44 | the URL is the same with or without a trailing slash on the configured URL |
| PaymentService.RequestBody | src/effects/payment-service.ts:61-63 | the request body carries the amount under `amount.amount` and `"coral"` under `amount.type` |
| PaymentService.NatToString | src/effects/payment-service.ts:73 | a status renders as a non-empty run of decimal digits without a leading zero |
| PaymentService.NatToStringRoundTrip | src/effects/payment-service.ts:83 | reading the rendered status back gives the status |
| PaymentService.ParseBody | src/effects/payment-service.ts:66-67 | an empty response text reads as `{}`; anything else is parsed |
| PaymentService.SuccessShape | src/effects/payment-service.ts:46-49 | the success schema accepts exactly objects with numeric `remainingBudget` and `coralUsdPrice`, and yields those two numbers |
| PaymentService.ErrorShape | src/effects/payment-service.ts:51-54 | the error schema accepts exactly the objects with a string `message` and a `stackTrace` that is absent or an array of strings, and yields the message |
| PaymentService.ClaimErrorText | src/effects/payment-service.ts:83 | a claim error starts with `[PaymentClaimError] ` and ends with ` (status N)` |
| PaymentService.Classify | src/effects/payment-service.ts:66-83 | a parse failure is passed on; a 2xx body that fits the success schema gives its two numbers, and any other 2xx body gives `Invalid success payload shape` with the status; success needs a 2xx status, and every failure of a parsed body starts with `[PaymentClaimError] ` and carries the status |
| PaymentService.Claim | src/effects/payment-service.ts:26-89 | a configuration error is returned as is; every other failure starts with `[PaymentClaimRequestError] ` |
| PaymentService.ClaimSucceeds | src/effects/payment-service.ts:56-77 | a claim succeeds exactly when both variables are set and the call answers 2xx with a body fitting the success schema; the result is that body's two numbers |
| PaymentService.ClassifyRejected | src/effects/payment-service.ts:79-83 | a non-2xx status fails with the body's `message` if it fits the error schema, else `HTTP <status>` |
| PaymentService.ClaimRejected | src/effects/payment-service.ts:79-85 | a rejected claim fails with the request-error prefix in front of the claim-error text |
| PaymentService.ClaimInvalidShape | src/effects/payment-service.ts:66-85 | a 2xx response whose body does not fit the success schema fails with the request-error prefix in front of the invalid-shape claim error |
| PaymentService.EmptyBodyIsEmptyObject | src/effects/payment-service.ts:66-83 | an empty body behaves as `{}`: `HTTP <status>` on a rejection, an invalid-shape error on a 2xx |
| NotionPages.PropertyOf | src/effects/best-practice-repository/notion-repository.ts:101 | a property is present exactly when the page has one under that name, and it is that property |
| NotionPages.PlainText | src/effects/best-practice-repository/notion-repository.ts:123-126 | the joined and trimmed text is empty exactly when the joined fragments are all white space, and otherwise has no white space at either end |
| NotionPages.PlainTextOfOne | src/effects/best-practice-repository/notion-repository.ts:123-126 | one fragment without white space at its ends is its own plain text |
| NotionPages.PlainTextOfInterleave | src/effects/best-practice-repository/notion-repository.ts:138-141 | non-empty words joined by separators, with no white space at the outer ends, are their own plain text |
| NotionPages.ConfigValue | src/effects/best-practice-repository/notion-repository.ts:21-24 | a set variable is used even when empty; an unset one takes the fallback |
| NotionPages.Missing | src/effects/best-practice-repository/notion-repository.ts:36-45 | `NOTION_API_TOKEN` and then `NOTION_BEST_PRACTICES_DB_ID`, each listed exactly when its verdict is "unusable", and nothing else |
| NotionPages.EnsureConfiguration | src/effects/best-practice-repository/notion-repository.ts:34-51 | the check passes exactly when both values are non-empty and free of `TODO`, and otherwise fails with the non-empty missing list |
| NotionPages.FallbacksArePlaceholders | src/effects/best-practice-repository/notion-repository.ts:21-24 | both fallback values contain `TODO` |
| NotionPages.UnsetIsMissing | src/effects/best-practice-repository.ts:37-67 | an unset variable falls back to a placeholder that the check reports, so the check fails |
| NotionPages.MapPresent | src/effects/best-practice-repository/notion-repository.ts:208-210 | mapping and dropping nulls never lengthens the list |
| NotionPages.MapPresentMembers | src/effects/best-practice-repository/notion-repository.ts:208-210 | every kept value is the mapping of some page, and every page that maps contributes its value |
| NotionPages.MapPresentAppend | src/effects/best-practice-repository/notion-repository.ts:208-210 | mapping and dropping nulls distributes over concatenation, so page order is kept |
| NotionPages.MapPresentTotal | src/effects/best-practice-repository/notion-repository.ts:208-210 | when every page maps, the result is exactly the mapped values in page order |
| NotionPages.Load | src/effects/best-practice-repository/notion-repository.ts:204-211 | a configuration failure is reported before any query; a query failure is reported; otherwise the mapped pages are returned |
| NotionPages.SearchWith | src/effects/best-practice-repository/notion-repository.ts:212-224 | a blank query is `getAll`; any other query runs the filter built from the trimmed text |
| NotionPages.SearchOfTrimmed | src/effects/best-practice-repository/notion-repository.ts:215-220 | trimming the query before searching changes nothing |
| NotionRepository.ParseOutputType | src/effects/best-practice-repository/notion-repository.ts:156 | the type guard accepts a value exactly when it is the name of an output type, and yields that type |
| NotionRepository.ParseOutputTypeName | src/effects/best-practice-repository/notion-repository.ts:156 | every output type's name passes the guard as that type |
| NotionRepository.SplitOnDelimiters | src/effects/best-practice-repository/notion-repository.ts:143-144 | `split(/[;,\n]+/)` yields at least one piece, none containing `;`, `,` or a newline |
| NotionRepository.SplitKeepsRuns | src/effects/best-practice-repository/notion-repository.ts:143-146 | the non-empty pieces of the split are exactly the maximal runs of non-delimiters, in order |
| NotionRepository.EntriesOfRuns | src/effects/best-practice-repository/notion-repository.ts:143-146 | the entries of a text are its cleaned delimiter-free runs with empties dropped |
| NotionRepository.EntriesOfInterleave | src/effects/best-practice-repository/notion-repository.ts:143-146 | words that cleaning leaves alone, written with any delimiters between them, come back as the entries |
| NotionRepository.TrimmedPieces | src/effects/best-practice-repository/notion-repository.ts:145 | a trimmed delimiter-free piece is empty or a proper entry |
| NotionRepository.ModelList | src/effects/best-practice-repository/notion-repository.ts:142-147 | every listed model is non-empty, delimiter-free and has no white space at either end |
| NotionRepository.RelevantModels | src/effects/best-practice-repository/notion-repository.ts:133-149 | `multi_select` gives the option names in order, `rich_text` gives proper entries only, anything else gives `[]` |
| NotionRepository.RelevantModelsRoundTrip | src/effects/best-practice-repository/notion-repository.ts:137-147 | entries written into one `rich_text` fragment with any delimiters between them are read back exactly |
| NotionRepository.SelectedTypes | src/effects/best-practice-repository/notion-repository.ts:153-156 | the selected types are no more than the options |
| NotionRepository.SelectedTypesNamed | src/effects/best-practice-repository/notion-repository.ts:153-156 | each selected type is named by some option after lower-casing and trimming, and every option that names a type selects it |
| NotionRepository.ListedTypesNamed | src/effects/best-practice-repository/notion-repository.ts:162-167 | a type is listed exactly when a cleaned entry of the text names it, and every listed type is named by an entry |
| NotionRepository.OutputTypes | src/effects/best-practice-repository/notion-repository.ts:151-170 | a missing property, or one that is neither `multi_select` nor `rich_text`, gives no output type |
| NotionRepository.OutputTypeNameIsWord | src/effects/best-practice-repository/notion-repository.ts:156 | `image`, `video` and `voice` are entries that lower-casing and trimming leave alone |
| NotionRepository.SelectedTypeNames | src/effects/best-practice-repository/notion-repository.ts:153-156 | options named after output types select exactly those types, in order |
| NotionRepository.OutputTypesRoundTrip | src/effects/best-practice-repository/notion-repository.ts:151-156 | output types listed by name in a `multi_select` are read back exactly, duplicates and order kept |
| NotionRepository.TypeNamesAreEntries | src/effects/best-practice-repository/notion-repository.ts:163-166 | type names written with delimiters between them are their own entries |
| NotionRepository.ListedTypeNames | src/effects/best-practice-repository/notion-repository.ts:162-167 | type names written with delimiters between them list exactly those types |
| NotionRepository.TypeListText | src/effects/best-practice-repository/notion-repository.ts:158-161 | a delimited list of type names is non-empty and is its own plain text |
| NotionRepository.OutputTypesRichTextRoundTrip | src/effects/best-practice-repository/notion-repository.ts:157-168 | output types written into one `rich_text` fragment with any delimiters between them are read back exactly |
| NotionRepository.OutputTypesIgnoreCase | src/effects/best-practice-repository/notion-repository.ts:154-156 | lower-casing the `multi_select` options first does not change the output types |
| NotionRepository.InsightFragments | src/effects/best-practice-repository/notion-repository.ts:106-117 | an insight is read from a `rich_text` or a `title` property, and from nothing else |
| NotionRepository.MapToBestPractice | src/effects/best-practice-repository/notion-repository.ts:93-177 | a mapped page is full and has a readable insight; the insight is non-empty with no white space at the ends; models and output types come from their properties |
| NotionRepository.MapToBestPracticeNull | src/effects/best-practice-repository/notion-repository.ts:96-131 | a page maps to null exactly when it is partial, lacks `Insight 1`, has an insight that is neither `title` nor `rich_text`, or whose text is all white space |
| NotionRepository.MapToBestPracticeInsight | src/effects/best-practice-repository/notion-repository.ts:123-126 | the insight is the fragments joined with `" "` and trimmed |
| NotionRepository.BuildSearchFilter | src/effects/best-practice-repository/notion-repository.ts:186-201 | an `or` of three clauses on the same text: `Insight 1` as title, `Model` as rich text, `Output type` as multi-select |
| NotionRepository.GetAll | src/effects/best-practice-repository/notion-repository.ts:204-211 | configuration and query errors are reported; otherwise every page that maps, none added |
| NotionRepository.Search | src/effects/best-practice-repository/notion-repository.ts:212-224 | a blank query is `getAll`; otherwise the pages of the filtered query for the trimmed text that map, or the query error |
| NotionRepository.GetAllKeepsPageOrder | src/effects/best-practice-repository/notion-repository.ts:208-210 | best practices come in the order of the pages they map from |
| LegacyNotionRepository.MockGetAll | src/effects/best-practice-repository.ts:182-192 | the mock yields two records, both about `midjourney-v7` |
| LegacyNotionRepository.MockSearch | src/effects/best-practice-repository.ts:32-35 | the mock search ignores its query and yields what `getAll` does |
| LegacyNotionRepository.Models | src/effects/best-practice-repository.ts:127-130 | `multi_select` option names in order, and `[]` for any other or missing property |
| LegacyNotionRepository.MapToBestPractice | src/effects/best-practice-repository.ts:103-136 | a mapped page is full with a `rich_text` insight; the insight is its non-empty trimmed text and the models come from `Relevant Models` |
| LegacyNotionRepository.MapToBestPracticeNull | src/effects/best-practice-repository.ts:106-125 | a page maps to null exactly when it is partial, lacks a `rich_text` `Insight` (a `title` is rejected), or its text is all white space |
| LegacyNotionRepository.BuildSearchFilter | src/effects/best-practice-repository.ts:145-156 | an `or` of two clauses on the same text: `Insight` as rich text, `Relevant Models` as multi-select |
| LegacyNotionRepository.GetAll | src/effects/best-practice-repository.ts:159-166 | configuration and query errors are reported; otherwise every page that maps, none added |
| LegacyNotionRepository.Search | src/effects/best-practice-repository.ts:167-179 | a blank query is `getAll`; otherwise the pages of the filtered query for the trimmed text that map, or the query error |
| LegacyNotionRepository.GetAllKeepsPageOrder | src/effects/best-practice-repository.ts:163-165 | best practices come in the order of the pages they map from |

## Left out

- The three-argument resolver (output type, image input) and its image-to-image and image-to-video endpoints are not part of this model; the resolver modelled takes only the model name.
- The two long catalog entries (seedream, kling) are characterised only by their first normalised word, so `"Kling"` is not proved to resolve anywhere in particular. By hand it scores -5 against `fal-ai/veo3` and -20 against the kling entry, so the expectation at `src/effects/genai-service.test.ts:5-8` does not hold for the code modelled here.
- JavaScript `toLowerCase` on non-ASCII text: only ASCII letters are lower-cased. Strings are sequences of Unicode scalar values. Only the key sort looks at their UTF-16 encoding. `levenshtein` indexes code units, but it only ever receives normalised names, which are ASCII.
- Numbers in the payment payloads are `real`; `NaN` and infinities are not modelled.
- `Object.keys` order is taken to be the order in which the tools are listed.
- The Notion query is a parameter: its pagination and the `object === "page"` filter are left out, and so is the message prefix of its error.
- The process environment is an explicit map. `search` runs the configuration check twice on a blank query, which is unobservable here.
- `invokeTool`, the agent loop, sleeps, retries, the MCP connection and all logging are I/O.
- The mock of the newer repository (`src/effects/best-practice-repository/best-practice-repository.ts:31-49`) is not part of this model; the older mock is.
- NotionPages.MapPresent: its membership facts are stated in the lemma `MapPresentMembers`, not on the function.
- NotionRepository.SelectedTypes: its membership facts are stated in `SelectedTypesNamed`, and its exact result for type names in `SelectedTypeNames`.
- NotionRepository.OutputTypes: the `multi_select` and `rich_text` branches are stated in the lemmas `SelectedTypesNamed`, `ListedTypesNamed`, `OutputTypesRoundTrip` and `OutputTypesRichTextRoundTrip`.
