# Verified models of the commerce platform's client and server logic

This project models, in Dafny 4.11, the parts of the platform whose behaviour is more than one
branch, and proves what they promise. One module stands for one source file, or for a file and the
specification its code is proved against.

- **TokenRefresh.dfy, ApiClient.dfy** - the admin client's token refresh. Any number of calls
  share one stored token pair and the module-level slot `refreshInFlight`, against a server that
  rotates refresh tokens. TokenRefresh is a state machine; one step is one network delivery (or a
  start, login or logout) with every continuation it releases, since the microtask queue is drained
  before the next task and the waiters of a promise are queued together (section 27.2.1.8 of
  ECMA-262). ApiClient is the imperative client: fields updated in place, waiters resumed one by one
  in the order they came; each method is proved to take exactly the machine's step. Assumed: one tab,
  one page load, working storage, and a server that never hands out a refresh token twice.
- **JsonText.dfy, JsonLd.dfy** - script-safe JSON. JsonText holds `JSON.stringify` over UTF-16 code
  units (section 25.5.2 of ECMA-262, lone surrogates included) and a reader for the grammar of
  RFC 8259; JsonLd the five split/join passes.
- **CategoryTree.dfy** - flattening, subtree ids, the parents that the form offers, re-parenting.
- **AnalyticsCsv.dfy** - the CSV writer, against a reader for section 2 of RFC 4180.
- **NotificationMeta.dfy** - template previews.
- **Slug.dfy** - the slug normaliser, the slug grammar and the unique-slug search. Case folding is a
  parameter that must leave lower-case letters, digits and hyphens alone; all texts are covered.
- **VariantSelector.dfy** - variant selection as a machine driven by clicks on enabled swatches.
- **MetricKeys.dfy, MetricLogs.dfy, Doubles.dfy, Averages.dfy, Metrics.dfy, MetricTotals.dfy** - the
  metrics registry, its keys, its averages in doubles (binary64 of IEEE 754), the request interceptor
  and the security events that feed it, and what its numbers say after any run of these and of the
  calls that other services make (outbox, e-mail, refunds, payments). The collation order of
  `localeCompare` is a parameter, a strict total order.
- **Reorder.dfy** - drag-and-drop reordering in two lists.
- **SeedText.dfy** - the greedy line wrap and the colour hash of the catalog seed.
- **Money.dfy** - money strings, their exact conversion, and the clean-up of typed amounts.
- **Options.dfy, Sequences.dfy, JsStrings.dfy, Decimals.dfy** - shared: optional values, sequence
  facts, the `split`/`join`/`trim` library calls, decimal numerals.

## What the proofs say about the code

Several things one would like to hold of the code do not hold on every input. The code is modelled as
it is; each case has the exact condition, and where useful an example.

- A refresh whose fetch fails is never cleared from the slot (api-client.ts:76-78 skips the reset when
  the await throws): every later 401 of that page load throws the old network error, logins included,
  and no refresh is sent again (`UnauthorizedIsRefreshedIffNotJammed`, `JammedForEver`, `JamIsReachable`).
- Tokens stored by a login while a refresh is pending are lost when that refresh fulfils, whether it brings
  new tokens or is refused. They can be lost before they were posted exactly if a refresh is pending when the
  login succeeds (`LoginCanBeLostIff`, `LoginTokensKeptIff`; a run is `LoginCanLoseItsTokens`). If that
  refresh fulfils they are never posted (`PendingRefreshReplacesLogin`).
- The comment above `sanitizeCell` says that numbers pass through as they are; the code prefixes a
  negative number too. The model follows the code (`CellComesBackIff`, `NegativeNumberIsPrefixed`).
- A slug cut at 200 characters right after a hyphen does not meet the slug grammar and is not a fixed
  point (`SlugifyMatchesIff`, `SlugifyIdempotentIff`, `CutCanBreakThePattern`).
- A chosen value cannot be taken back: a shopper who has reached a variant that differs from every
  other one in two or more options can never show another (`StuckIffNoNeighbour`, `ShopperCanBeStuck`). In
  general another variant can be shown exactly if a chain of one-option changes leads to it
  (`ShownFromIffChain`).
- Metric keys do not tell all label records apart: a value that reads `x,k=y` looks like two labels when
  `k` sorts right after its name (`SplitLabelCollides`, exact in `KeyIsSharedIff`). A comma alone does no harm
  (`KeyIsInjective`), and the records of the request and security metrics are told apart whatever the route
  holds (`SameNamesKeyIff`, `RunIsFiledAsLogged`).
- Average durations are computed in doubles: an exact tie between two hundredths can go either way.
  23 ms over 40 requests are 57.5 hundredths and are reported as 57 (`TieCanGoDown`). Up to a sum of
  22 million million ms the reported hundredth is always a nearest one (`MeanIsNearest`).
- A text that fits the allowed lines can lose its last words, since the wrap stops as soon as the last
  of two lines or more is begun. Filling them, it is shown whole exactly if that line is a single word
  (`ShownWholeIff`, `FittingTextCanLoseAWord`).
- The suffix of a unique slug comes after the cut, so the result can be longer than 200 characters
  (`CandidateTooLongIff`).
- A reorder payload is a permutation only while the dragged item is in the list (`PermutationIff`).
  Otherwise the last item is missing from it, which the DTO never notices and the service only if the
  dragged item is not stored any more (`LostItemIsNoticedIff`).

## Model

| member | source | states |
|---|---|---|
| `TokenRefresh.NoRefreshTokenSentTwice` | apps/admin/src/lib/api-client.ts:40-58 | over every run of calls, 401s, refresh outcomes, logins and logouts no refresh token is posted twice |
| `TokenRefresh.RunKeepsInv` | apps/admin/src/lib/api-client.ts:40-82 | every reachable state: a stored token that was posted is the slot's refresh's, pending refreshes sit in the slot with a waiter, fetches and waits match the retry flag |
| `TokenRefresh.OneRefreshServesAllWaiters` | apps/admin/src/lib/api-client.ts:75-82 | at most one refresh is pending in any reachable state and every waiting call waits on a pending one |
| `TokenRefresh.FetchesAndWaitsAreBounded` | apps/admin/src/lib/api-client.ts:60-82 | a call waits at most once, fetches at most twice, and a second time only after a wait |
| `TokenRefresh.SettledRefresh` | apps/admin/src/lib/api-client.ts:126-133 | on every run, when a refresh settles no waiter is left, and the slot is empty exactly if it fulfilled |
| `TokenRefresh.WaiterOutcome` | apps/admin/src/lib/api-client.ts:76-82 | on every run a waiter retries once with exactly the access token the refresh wrote, or reports its 401, or rethrows |
| `TokenRefresh.UnauthorizedIsRefreshedIffNotJammed` | apps/admin/src/lib/api-client.ts:75-78 | on every run a retryable 401 leads to a live refresh (or finds no tokens) exactly if the slot holds no rejected promise |
| `TokenRefresh.CallReports` | apps/admin/src/lib/api-client.ts:75-92 | on every run a call has returned exactly if its fetch was answered 200 to 299; has thrown a status exactly if it was answered with that one and could not be refreshed, or, for 401, its refresh was refused or found no tokens; has thrown a network error exactly if its fetch failed or its refresh was rejected |
| `TokenRefresh.FirstBearer` | apps/admin/src/lib/api-client.ts:61-71 | on every run the first fetch of a call carries the access token stored when it started |
| `TokenRefresh.StoredIsLastWritten` | apps/admin/src/lib/api-client.ts:51-57 | on every run the storage holds what the last login, logout or fulfilled refresh wrote |
| `TokenRefresh.PostedExactly` | apps/admin/src/lib/api-client.ts:42-50 | on every run the stored refresh token is posted exactly when a retryable 401 finds the slot empty, and nothing else is posted |
| `TokenRefresh.JammedForEver` | apps/admin/src/lib/api-client.ts:76-78 | once a refresh was rejected the slot and the log of posted tokens never change again, on any run |
| `TokenRefresh.JamIsReachable` | apps/admin/src/lib/api-client.ts:46-50 | a page with stored tokens gets there by one call, its 401 and one network failure |
| `TokenRefresh.LoginTokensKeptIff` | apps/admin/src/lib/api-client.ts:51-57 | on every run the tokens of a login are still stored, while no other login and no logout comes, exactly if no refresh has fulfilled since |
| `TokenRefresh.LoginCanBeLostIff` | apps/admin/src/lib/api-client.ts:145-156 | some run loses a login's tokens before they were ever posted, without another login or a logout, exactly if a refresh is pending when the login succeeds |
| `TokenRefresh.LoginCanLoseItsTokens` | apps/admin/src/lib/api-client.ts:51-54 | such a run: a call, its 401, a login, and the refusal of the refresh begun before it |
| `TokenRefresh.PendingRefreshReplacesLogin` | apps/admin/src/lib/api-client.ts:51-57 | on every run a refresh begun before a login that fulfils after it replaces what is stored, and the login's tokens were never posted |
| `TokenRefresh.NoCallIsStranded` | apps/admin/src/lib/api-client.ts:60-93 | every unfinished call of a reachable state has a delivery that moves it on |
| `TokenRefresh.DeliveriesAreBounded` | apps/admin/src/lib/api-client.ts:60-93 | without new calls a run has no more deliveries than the work its state holds, so calls finish |
| `AdminClient.ApiClient.constructor` | apps/admin/src/lib/api-client.ts:40 | a fresh page: stored tokens, empty slot, no call |
| `AdminClient.ApiClient.Start` | apps/admin/src/lib/api-client.ts:60-73 | starting a call is the machine's step |
| `AdminClient.ApiClient.RefreshTokens` | apps/admin/src/lib/api-client.ts:42-50 | reads the stored pair and posts its refresh token, or returns a promise of null |
| `AdminClient.ApiClient.AwaitRefresh` | apps/admin/src/lib/api-client.ts:76-82 | awaiting the slot queues the call or resumes it at once, as the machine's join |
| `AdminClient.ApiClient.OnResponse` | apps/admin/src/lib/api-client.ts:75-92 | a response to the main fetch is the machine's step |
| `AdminClient.ApiClient.OnFetchFailed` | apps/admin/src/lib/api-client.ts:66-73 | a main fetch that fails ends its call and touches nothing else |
| `AdminClient.ApiClient.Continue` | apps/admin/src/lib/api-client.ts:77-82 | one waiter's continuation: clears the slot unless the await threw, then retries or gives up |
| `AdminClient.ApiClient.SettlePromise` | apps/admin/src/lib/api-client.ts:77-82 | the waiters run one after the other in the order they came; together they are the machine's settling |
| `AdminClient.ApiClient.OnRefreshAnswered` | apps/admin/src/lib/api-client.ts:51-54 | a refusal clears the stored tokens and resumes the waiters with null |
| `AdminClient.ApiClient.OnRefreshBody` | apps/admin/src/lib/api-client.ts:55-57 | the new tokens are stored before any waiter resumes |
| `AdminClient.ApiClient.OnRefreshFailed` | apps/admin/src/lib/api-client.ts:46-50 | a failed refresh resumes the waiters with the error and leaves the slot |
| `AdminClient.ApiClient.OnLoginSucceeded` | apps/admin/src/lib/api-client.ts:145-156 | a login stores its tokens and touches nothing else |
| `AdminClient.ApiClient.OnLogout` | apps/admin/src/lib/api-client.ts:158-160 | a logout clears the stored tokens and touches nothing else |
| `JsonText.ParseOfStringify` | apps/web/src/lib/json-ld.ts:22 | the text `JSON.stringify` writes reads back as the value, for every JSON value and every string |
| `JsonText.StringifyIsPaired` | apps/web/src/lib/json-ld.ts:22 | whatever lone surrogates the strings hold, the text written has surrogates in pairs only |
| `JsonText.QuoteUnitLength` | apps/web/src/lib/json-ld.ts:22 | the seven short escapes, the six-unit escapes of other control characters and lone surrogates, and nothing else is escaped |
| `JsonLd.PassesAreOneMap` | apps/web/src/lib/json-ld.ts:23-27 | on every text the five passes in a row are one map that replaces each unsafe code unit on its own |
| `JsonLd.EscapingKeepsMeaning` | apps/web/src/lib/json-ld.ts:9-14 | the passes do not change what any JSON text denotes, escaped backslashes and foreign writers included |
| `JsonLd.SafeJsonLdKeepsValue` | apps/web/src/lib/json-ld.ts:21-29 | the escaped text denotes exactly the value given |
| `JsonLd.SafeJsonLdHasNoUnsafeUnit` | apps/web/src/lib/json-ld.ts:21-29 | it contains none of the five unsafe code units |
| `CategoryTree.RebuildOfFlatten` | apps/admin/src/lib/category-tree.ts:10-15 | ids, names and the whole shape can be rebuilt from the flattened list |
| `CategoryTree.BlockIsSubtree` | apps/admin/src/lib/category-tree.ts:10-15 | each entry with the deeper entries right after it is exactly its node's flattened subtree |
| `CategoryTree.SubtreeCollector.Visit` | apps/admin/src/lib/category-tree.ts:20-25 | the visitor adds the subtree's ids, or those below the root it looks for |
| `CategoryTree.CollectSubtreeIds` | apps/admin/src/lib/category-tree.ts:18-27 | the set built by the visitor is the set of subtree ids |
| `CategoryTree.SubtreeIdsMeaning` | apps/admin/src/lib/category-tree.ts:17-27 | an id is collected exactly if it lies in the subtree of a node with the root id |
| `CategoryTree.OfferParents` | apps/admin/src/pages/categories/CategoryFormModal.tsx:60-61 | the form's options, computed with the collected ids |
| `CategoryTree.OfferedIffOutsideSubtree` | apps/admin/src/pages/categories/CategoryFormModal.tsx:56-61 | an existing id is withheld exactly if it is the edited category or a descendant |
| `CategoryTree.OptionsAreNodes` | apps/admin/src/pages/categories/CategoryFormModal.tsx:60-61 | the options are, in preorder, the id, name and depth of exactly the nodes outside the edited category's subtree |
| `CategoryTree.MoveOutside` | apps/admin/src/pages/categories/CategoryFormModal.tsx:56-61 | moving under a category outside the subtree is a forest with the same categories and the one parent changed |
| `CategoryTree.MoveInside` | apps/admin/src/pages/categories/CategoryFormModal.tsx:56-61 | no forest has the parents that a move into the own subtree would give |
| `CategoryTree.OfferedIffForest` | apps/admin/src/pages/categories/CategoryFormModal.tsx:56-61 | an existing category is offered exactly if the move leaves the categories a forest |
| `AnalyticsCsv.ToCsv` | apps/api/src/modules/analytics/analytics-csv.util.ts:23-29 | the loop writes the text of the whole grid |
| `AnalyticsCsv.CsvReadsBack` | apps/api/src/modules/analytics/analytics-csv.util.ts:11-29 | an RFC 4180 reader returns exactly the guarded grid, whatever the cells hold, if and only if there is a header |
| `AnalyticsCsv.ReadsBackAt` | apps/api/src/modules/analytics/analytics-csv.util.ts:23-29 | row i under header j reads back as the text that row has for that header, empty where it has none, with one quote in front exactly if it starts with one of the six characters; headers likewise |
| `AnalyticsCsv.QuotedIff` | apps/api/src/modules/analytics/analytics-csv.util.ts:14-20 | a cell is written in quotes, the inner ones doubled, exactly if it holds a quote, a comma or a line break |
| `AnalyticsCsv.NoFormulaReadsBack` | apps/api/src/modules/analytics/analytics-csv.util.ts:1-9 | whatever is exported, the reader gets records back, and no field of them starts with a formula prefix |
| `AnalyticsCsv.CellComesBackIff` | apps/api/src/modules/analytics/analytics-csv.util.ts:11-21 | a cell's text comes back unchanged exactly if it starts no formula, numbers included |
| `AnalyticsCsv.NegativeNumberIsPrefixed` | apps/api/src/modules/analytics/analytics-csv.util.ts:6-14 | a negative number is prefixed, against the comment |
| `AnalyticsCsv.EndsInLineBreakIff` | apps/api/src/modules/analytics/analytics-csv.util.ts:24-28 | the text ends in a line break exactly if a single column is empty in the last row |
| `NotificationMeta.RenderTemplatePreview` | apps/admin/src/lib/notification-meta.ts:79-88 | the loop of passes; of a well-formed template it returns the simultaneous substitution |
| `NotificationMeta.PassOnPieces` | apps/admin/src/lib/notification-meta.ts:82-85 | one pass replaces whole tokens and only the exactly spelled ones |
| `NotificationMeta.BlankOnPieces` | apps/admin/src/lib/notification-meta.ts:86 | the final pass blanks every token, with or without inner spaces, and nothing else |
| `NotificationMeta.TokenLengthIff` | apps/admin/src/lib/notification-meta.ts:86 | the pattern matches at the start of any text exactly if that starts with a token of letters, digits, underscores and points, and exactly that token |
| `NotificationMeta.PassesAreSimultaneous` | apps/admin/src/lib/notification-meta.ts:82-86 | any list of passes and the blanking equal one simultaneous substitution |
| `NotificationMeta.PassOrderDoesNotMatter` | apps/admin/src/lib/notification-meta.ts:80-86 | order and repetition of the supported names do not matter |
| `NotificationMeta.PreviewIsSimultaneous` | apps/admin/src/lib/notification-meta.ts:51-88 | so for the placeholders of every notification type |
| `NotificationMeta.PlaceholdersShow` | apps/admin/src/lib/notification-meta.ts:51-77 | the example that each of the seven placeholders shows in templates of each type, and nothing where it is not supported |
| `Slug.SlugifyJoinsWords` | apps/api/src/common/utils/slug.util.ts:2-11 | the slug is the maximal runs of letters and digits of the folded text without quotes, joined by single hyphens, or the first 200 characters of that |
| `Slug.SlugifyShape` | apps/api/src/common/utils/slug.util.ts:2-11 | letters, digits and hyphens, no leading and no doubled hyphen, at most 200 characters |
| `Slug.PatternIffNormal` | apps/api/src/common/validators/slug.validator.ts:3 | the grammar, segments joined by hyphens, is the character-wise normal form |
| `Slug.SlugifyMatchesIff` | apps/api/src/common/utils/slug.util.ts:9-10 | a non-empty slug meets the grammar exactly if the cut did not fall after a hyphen |
| `Slug.PatternIsFixed` | apps/api/src/common/validators/slug.validator.ts:3 | every string of the grammar of at most 200 characters is its own slug |
| `Slug.SlugifyIdempotentIff` | apps/api/src/common/utils/slug.util.ts:2-11 | slugging again changes nothing exactly if the cut did not fall after a hyphen |
| `Slug.SlugifyThriceIsTwice` | apps/api/src/common/utils/slug.util.ts:2-11 | three times is twice, for every text |
| `Slug.CutCanBreakThePattern` | apps/api/src/common/utils/slug.util.ts:10 | a text of the grammar, 201 characters long, whose slug is not |
| `Slug.GenerateUniqueSlug` | apps/api/src/common/utils/slug.util.ts:18-32 | returns the text's slug, or item for an empty one, if it is free; otherwise that, a hyphen and the number of probes made, the first free one, within one more probe than there are taken slugs; when it is longer than 200 |
| `Slug.CandidatesAreDistinct` | apps/api/src/common/utils/slug.util.ts:28 | different suffixes give different candidates |
| `Slug.CandidateMatchesIff` | apps/api/src/common/utils/slug.util.ts:22-31 | a candidate meets the grammar exactly if the root does |
| `Slug.CandidateTooLongIff` | apps/api/src/common/utils/slug.util.ts:22-29 | a candidate is longer than the cut of 200 exactly if it has a suffix for whose digits the root leaves no room |
| `VariantSelection.VariantSelector.SelectValue` | apps/web/src/components/VariantSelector.tsx:37-51 | one value is set, and the callback gets the match displayed afterwards |
| `VariantSelection.VariantSelector.MatchedVariant` | apps/web/src/components/VariantSelector.tsx:26-35 | nothing is shown exactly if the number of chosen values is not that of the options or no variant covers them; otherwise a variant that covers them, and none before it in the list does |
| `VariantSelection.VariantSelector.IsValueAvailable` | apps/web/src/components/VariantSelector.tsx:53-59 | the loop decides whether some variant has the value and all values chosen for other options |
| `VariantSelection.ReachableIsCovered` | apps/web/src/components/VariantSelector.tsx:71-80 | every non-empty selection reachable by enabled swatches is covered by a variant |
| `VariantSelection.FullSelectionMatches` | apps/web/src/components/VariantSelector.tsx:26-35 | every reachable selection of all options shows a variant with all its values |
| `VariantSelection.PartialSelectionCanGrow` | apps/web/src/components/VariantSelector.tsx:53-80 | with one value per option, an open option always has an enabled swatch |
| `VariantSelection.EveryVariantIsReachable` | apps/web/src/components/VariantSelector.tsx:37-59 | every variant can be selected in any order of the options |
| `VariantSelection.SwatchEnabledIff` | apps/web/src/components/VariantSelector.tsx:53-59 | from a full selection a swatch is enabled exactly if it leads to some variant's full selection |
| `VariantSelection.StuckIffNoNeighbour` | apps/web/src/components/VariantSelector.tsx:37-59 | a shown variant can be left exactly if another differs from it in one option only |
| `VariantSelection.StuckForEver` | apps/web/src/components/VariantSelector.tsx:37-80 | otherwise every run of clicks stays there |
| `VariantSelection.ShownFromIffChain` | apps/web/src/components/VariantSelector.tsx:37-80 | from one variant's full selection another's can be reached exactly if a chain of variants links them in which neighbours differ in one option at most |
| `VariantSelection.ShopperCanBeStuck` | apps/web/src/components/VariantSelector.tsx:37-80 | a two-option product of which that is true |
| `MetricKeys.KeyIgnoresInsertionOrder` | apps/api/src/common/metrics/metrics.service.ts:52-58 | the key depends on the label record, not on the order of its properties |
| `MetricKeys.KeyOfSorted` | apps/api/src/common/metrics/metrics.service.ts:52-58 | of labels in order the key is the name and, in braces, each name=value between commas; without labels just the name |
| `MetricKeys.OrderExists` | apps/api/src/common/metrics/metrics.service.ts:54 | the order by code units is a strict total order, as is assumed of the collation |
| `MetricKeys.KeyIsInjective` | apps/api/src/common/metrics/metrics.service.ts:52-58 | equal keys come from the same name and labels, if names hold no separator and no value a comma that an equals sign follows |
| `MetricKeys.SplitLabelCollides` | apps/api/src/common/metrics/metrics.service.ts:55-57 | a label whose value reads `x,k=y` shares its key with the two labels it reads as, whenever `k` sorts right after its name |
| `MetricKeys.KeyIsSharedIff` | apps/api/src/common/metrics/metrics.service.ts:52-58 | among records with separator-free names a key is shared exactly if there are two labels or more, or the one value hides another label |
| `MetricKeys.SameNamesKeyIff` | apps/api/src/common/metrics/metrics.service.ts:52-58 | records with the same label names, one of them with any value at all, have the same key exactly if they are the same |
| `MetricLogs.SumsAndCountsAgree` | apps/api/src/common/metrics/metrics.service.ts:30-34 | sums and counts are kept for the same keys, and no count is zero |
| `MetricLogs.ToldApartAgrees` | apps/api/src/common/metrics/metrics.service.ts:21-34 | if no call's key is mistaken for another, what is filed under a name and labels is what the log of calls says of them |
| `MetricLogs.RegistryAgreesWithLog` | apps/api/src/common/metrics/metrics.service.ts:21-34 | so for every log and query with plain names and labels |
| `MetricLogs.OwnLabelsAgree` | apps/api/src/common/metrics/metrics.service.ts:21-34 | a metric always called with its own label names, one value free, is filed as logged, whatever else is called, names holding no brace |
| `Metrics.MetricsService.IncrementCounter` | apps/api/src/common/metrics/metrics.service.ts:25-28 | keeps the three maps those of the log, longer by one increment |
| `Metrics.MetricsService.RecordDuration` | apps/api/src/common/metrics/metrics.service.ts:30-34 | keeps the three maps those of the log, longer by one duration |
| `Doubles.RoundingExists` | apps/api/src/common/metrics/metrics.service.ts:44 | rounding to the nearest double, halves up, meets the assumption under which averages are claimed |
| `Averages.MeanIsNearest` | apps/api/src/common/metrics/metrics.service.ts:43-44 | the two roundings to doubles never miss the nearest hundredth of the mean, for sums up to 22 million million ms |
| `Averages.TieCanGoDown` | apps/api/src/common/metrics/metrics.service.ts:44 | 23 ms over 40 requests, an exact tie, come out as 57 hundredths, however doubles round ties |
| `Averages.AverageIsMean` | apps/api/src/common/metrics/metrics.service.ts:43-44 | the number reported is the double of some hundredths; up to the stated sum they are nearest ones and it is within half a hundredth, and one rounding, of the exact mean |
| `Averages.AverageIsNear` | apps/api/src/common/metrics/metrics.service.ts:43-44 | the same bound with its numbers |
| `Metrics.MetricsService.Snapshot` | apps/api/src/common/metrics/metrics.service.ts:37-50 | the counters, and for each timed key such an average of its durations |
| `Metrics.RequestLoggingInterceptor.Finish` | apps/api/src/common/interceptors/request-logging.interceptor.ts:50-58 | a finished request is logged by its two or three calls, in order |
| `Metrics.SecurityEventsService.Emit` | apps/api/src/common/security/security-events.service.ts:49-59 | an event is logged by one call |
| `Metrics.Replay` | apps/api/src/common/interceptors/request-logging.interceptor.ts:34-39 | any run of requests, security events and other services' calls leaves a registry that agrees with the run's log |
| `MetricTotals.RunIsFiledAsLogged` | apps/api/src/common/interceptors/request-logging.interceptor.ts:48-58 | after any run, other services' calls and routes with any characters included, the registry agrees with the log on every request and security metric |
| `MetricTotals.RouteNumbers` | apps/api/src/common/interceptors/request-logging.interceptor.ts:50-58 | after any run a route's counters, count and time are those of its requests |
| `MetricTotals.RequestTotals` | apps/api/src/common/interceptors/request-logging.interceptor.ts:52-58 | status classes add up to the duration count exactly if all statuses were 100 to 599; errors are the 5xx exactly if none was 600 or more |
| `MetricTotals.SecurityTotals` | apps/api/src/common/security/security-events.service.ts:58 | the security counters together count every emitted event once |
| `MetricTotals.OtherNumber` | apps/api/src/common/metrics/metrics.service.ts:25-28 | after any run a counter of another service that is always called with the same labels holds the number of its calls |
| `MetricTotals.FailureNumber` | apps/api/src/modules/payments/payment.service.ts:413 | so for each of the six failure counters of the outbox, e-mail, refund and payment services |
| `MetricTotals.RouteKeys` | apps/api/src/common/interceptors/request-logging.interceptor.ts:52-58 | the text of a route's three keys |
| `MetricTotals.SecurityKeys` | apps/api/src/common/security/security-events.service.ts:58 | the text of the eleven security keys |
| `MetricTotals.FailureKeys` | apps/api/src/modules/payments/payment.service.ts:413 | the text of the six failure keys |
| `Reorder.DragList.HandleDrop` | apps/admin/src/components/media/MediaGallery.tsx:133-143 | the guard and the cleared drag; with both items in the list the dragged one is at the target's place, the others keep their order, and all are numbered |
| `Reorder.PermutationIff` | apps/admin/src/components/media/MediaGallery.tsx:136-140 | the payload lists the same items exactly if the dragged one is in the list |
| `Reorder.OnlyDraggedMoves` | apps/admin/src/pages/homepage-slides/HomepageSlidesPage.tsx:120-125 | the dragged item lands at the target's old index and all others keep their order |
| `Reorder.OppositeMoveUndoes` | apps/admin/src/pages/homepage-slides/HomepageSlidesPage.tsx:118-128 | dragging back onto the item at the old place restores the list |
| `Reorder.DragThereAndBack` | apps/admin/src/components/media/MediaGallery.tsx:129-143 | a drag, its drop, and the drag back onto the item at the old place: the second payload is the original list |
| `Reorder.PayloadMeetsDtoIff` | apps/api/src/common/dto/reorder-items.dto.ts:4-24 | of any list of different items the payload meets the DTO exactly if there are at most 200 and the ids sent have the form, the dragged one in the list or not |
| `Reorder.PayloadFoundIff` | apps/api/src/modules/product-images/product-images.service.ts:135-142 | the service finds all items sent exactly if the dragged one and the others are stored |
| `Reorder.LostItemIsNoticedIff` | apps/api/src/modules/product-images/product-images.service.ts:135-142 | a dragged item missing from the list pushes the last one out of the payload; the DTO accepts that always, the service exactly if the dragged item is still stored |
| `SeedText.WrapText` | apps/api/prisma/seed-catalog-v2.ts:732-748 | the loop shows the unlimited greedy layout below the limit; at the limit, of the last line only its first word |
| `SeedText.LayoutOfIsGreedy` | apps/api/prisma/seed-catalog-v2.ts:736-745 | layout lines fit or are single words, and no line could have taken the next word |
| `SeedText.WrapShowsPrefix` | apps/api/prisma/seed-catalog-v2.ts:732-748 | at most maxLines lines showing a prefix of the words; all of them if the limit is not hit |
| `SeedText.WrapShowsLayout` | apps/api/prisma/seed-catalog-v2.ts:732-748 | each line shown is that line of the layout, or on the last one allowed its first word |
| `SeedText.ShownLinesFit` | apps/api/prisma/seed-catalog-v2.ts:738-748 | each line shown fits the width or is a single word of the text |
| `SeedText.AllWordsShownIff` | apps/api/prisma/seed-catalog-v2.ts:732-748 | of any text all words are shown exactly if the lines after the limit hold none and the last allowed one, reached, only the one it was begun for |
| `SeedText.ShownWholeIff` | apps/api/prisma/seed-catalog-v2.ts:738-746 | a text without empty words is shown whole exactly if its layout has fewer lines than allowed, or as many and one is allowed or the last is a single word |
| `SeedText.FittingTextCanLoseAWord` | apps/api/prisma/seed-catalog-v2.ts:743 | a text that fits on two lines of seven, of which the last word is dropped |
| `SeedText.HashColor` | apps/api/prisma/seed-catalog-v2.ts:714-726 | the rolling hash is the polynomial in 31 modulo 2 to the 32, exact in doubles, and picks an existing pair |
| `SeedText.PolynomialConcat` | apps/api/prisma/seed-catalog-v2.ts:714-720 | the polynomial of a text is that of its start times a power of 31 plus that of its end |
| `Money.MinorUnitsAreExact` | apps/api/src/common/utils/money.util.ts:11-13 | the hundredfold of any decimal with at most two places, either sign, is an integer, the one returned |
| `Money.MinorUnitsAreSafeIff` | apps/api/prisma/schema.prisma:1165 | the result lies below ten to the twelve, so exact as a number, exactly if the amount fits its column |
| `Money.MinorUnitsKeepOrder` | apps/api/src/modules/payments/payment.service.ts:385-389 | order and equality of decimals of any two scales are those of their minor units |
| `Money.ToMinorUnitsIsExact` | apps/api/src/common/utils/money.util.ts:3-13 | the minor units of an accepted string are 100 times its whole part plus its fraction in hundredths |
| `Money.ToMinorUnitsIsSafe` | apps/api/src/common/validators/decimal.validator.ts:11-15 | of an accepted string it is at least 0 and below ten to the twelve |
| `Money.ToMinorUnitsKeepsOrder` | apps/api/src/common/utils/money.util.ts:11-13 | order and equality of accepted strings are those of their minor units |
| `Money.PrintRoundTrip` | apps/api/src/common/utils/money.util.ts:3-10 | printing with two decimals and converting gives the number back |
| `Money.ReprintIsSameAmount` | apps/api/src/common/utils/money.util.ts:3-10 | converting and printing gives an accepted string of the same amount |
| `Money.SanitizeIsIdempotent` | apps/admin/src/pages/products/ProductFormPage.tsx:66-68 | cleaning up twice is cleaning up once |
| `Money.SanitizeTurnsCommaIntoPoint` | apps/admin/src/pages/products/ProductFormPage.tsx:66-68 | of any text with a comma: the digits and points before the first one, a point, the digits and points after it |
| `Money.SanitizeWithoutComma` | apps/admin/src/pages/products/ProductFormPage.tsx:66-68 | of any other text: its digits and points |
| `Money.TypedAmountIsRead` | apps/admin/src/pages/products/ProductFormPage.tsx:61-68 | digits, a comma and digits, with a currency or spaces around, become the decimal string |
| `Money.SanitizeKeepsAccepted` | apps/admin/src/pages/products/ProductFormPage.tsx:61-68 | accepted amounts and weights are left as they are |

## Left out

- Request bodies, headers, blobs, file names and the bodies of error answers: `request` and `downloadFile` are one automaton, of which a call keeps its status.
- Several tabs, page reloads during a refresh and unavailable storage: they lose the slot, so the claims are per page load.
- Values `JSON.stringify` drops or converts (`undefined`, functions, `toJSON`) and number formatting: a number is its lexeme.
- The HTML tokenizer: the claim is the absence of the unsafe code units.
- Templates with nested or stray braces: one blanking pass gives them no clean meaning.
- `MinorUnitsOf`: is defined on decimals with at most two places, which the amount columns and the money validator guarantee; what Prisma.Decimal does with other text is not part of this model.
- `Averages`: the rounding to doubles is any one that takes results to a nearest double (`RoundingExists` shows that there is one); sums and counts, integers below 2^53, are exact. Overflow, and how near the hundredth is beyond a sum of 22 million million, are not modelled.
- HTTP methods are tokens without commas (section 5.6.2 of RFC 9110), which the server's parser sees to.
- `localeCompare` answers 0 for some different strings; label names are assumed to be told apart by it (`OrderExists` shows one such order).
- `SubtreeCollector`: the recursion of the visitor is modelled on values of the tree; JavaScript object identity of nodes is not.
- Outside `JsonText`, `JsonLd` and `HashColor` a text is a sequence of characters; JavaScript counts a character beyond the Basic Multilingual Plane twice, so wrap widths differ on such text.
- Moving a category keeps sibling order out: stored rows name a parent, and the moved category is hung as last child.
- Rendering, styling, query caching, prices and availability badges; slow-request and severity logging.
- Order, payment, inventory and returns services, but for the calls they make to the metrics registry. Other calls are for metrics of their own, whose names hold no brace.
- Reordering: the permission checks, the transaction and what the rows hold after it.
