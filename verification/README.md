# Riffy: verified model of the read-side analysis

Riffy answers every request from a baseline upstream and compares, off the client's path, what a control
(baseline replica) and a candidate (new code) answered. This project models in Dafny how the three responses
become a stored sample, how samples are compared when the query API is asked, and how a difference becomes a
regression verdict, and proves what an operator relies on: a diff loses nothing, no difference is reported that is
not there and none is missed, ignore rules hide exactly what they name, the two read paths tell the same story,
concurrent rule edits are not lost, and the sample store is a faithful window on what the consumer accepted.

Verify with `dafny verify dfyconfig.toml` (Dafny 4.11).

## How the model is organised

| file | what it models |
|---|---|
| `Strings.dfy`, `Sequences.dfy`, `Wrappers.dfy` | decimal digits, `split`/join, `str` ordering and sorting, choosing by position, `Option`/`Result` |
| `Json.dfy` | JSON values and their compact text |
| `Diffing.dfy`, `Patching.dfy` | the recursive diff, `set_difference`, the diff as a patch and its mirror image |
| `Flattening.dfy`, `FlatteningFacts.dfy`, `FlatteningPaths.dfy`, `FlatteningOrders.dfy`, `FlatteningKeys.dfy`, `FlatteningVocabularies.dfy` | dot-paths: what is inserted in which order, what it says about the values, when paths are unambiguous and how to decide it, what is lost when they are not |
| `Suppression.dfy`, `RuleUpdates.dfy` | ignore rules; concurrent replacement of the shared rule set |
| `Classifying.dfy` | percentages, thresholds and verdicts |
| `Samples.dfy` | header normalisation, assembling a raw sample |
| `Readings.dfy`, `ReadingFacts.dfy`, `Engine.dfy`, `EngineFacts.dfy` | diffing one sample, `aggregate`, `detail`, and what they promise together |
| `ReservedNames.dfy` | the names `:status` and `:headers`: which body keys run into them, and what happens then |
| `Queries.dfy` | the `exclude` parameter, path summaries, page clamping, the not-found answers |
| `Storing.dfy`, `Consuming.dfy`, `Pipeline.dfy` | the in-memory store, the consumer, and the whole way from accepted message to shown difference |

Conventions:

- A function is the specification; a method with the same job follows the source's loops and is proved equal to it
  (`ComputeDiff`, `ComputeSetDifference`, `FlattenInto`, `GlobMatch`, `FromConfig`, `Aggregate`, `Detail`,
  `CommitTicket`, `Drain`, ...). Loops over hash maps pick keys in an arbitrary order, so what is proved holds for
  every iteration order.
- `FlattenBy` is the result of flattening for a given key order at every object node; `FlattenInto` is proved to
  return it for the order it took, and `IsFlattening` says "for some order". Readings keep of that only which leaves
  may be recorded at a path (`MayRecord`); the set of paths is a function (`DiffPaths`, `DivergingPaths`).
- Concurrency is modelled as lists of atomic actions: every interleaving is one list. `RuleUpdates` has load,
  rebuild and compare-and-swap as separate steps; `Storing` has the id increment and the locked push as separate
  steps. The classes `DiffEngine`, `InMemorySampleStore` and `Consumer` update their fields in place; the store's
  methods are proved to be exactly those steps.
- Time, endpoint routing, regex compilation, decompression and JSON parsing are parameters (`Codec`, `RegexNew`,
  `Config.resolve`, `now`). Two assumptions about them are named predicates that the lemmas needing them require:
  `ReadsBack` (the text of the header objects that the consumer serialises parses back) and `ChecksAgree` (the body
  parser accepts what the write-time check accepted). `EmptyExactly` says what happens without the second.

## Where the code and its documentation disagree

- `src/compare/flatten.rs:20` and `docs/architecture.md:126` say that body fields cannot collide with `:status` and the
  header paths. JSON allows such keys and the code does not exclude them. A body field `:status` is reported as the
  status, which bypasses the percentage thresholds (`StatusFieldClash`); and where a body field `:headers` meets a
  header, the header's difference overwrites the body's (`HeadersFieldClash`). `ReservedNamesExactly` gives the exact
  condition: no key in use is `:status` or `:headers` or starts with `:headers.`. `ColonNamespaceSafe` does the same for
  the claim that no body path starts with ':'.
- `src/analysis/engine.rs:251` says that stored headers that cannot be read yield no header differences. Unreadable
  baseline headers count as none, so every header of the other side is reported as extra: `UnreadableHeadersExactly`
  gives the exact condition.
- A flattened map can drop a difference when a key contains dots: `DottedKeyLosesLeaf`. `LosesNoLeafExactly` gives
  the exact condition on the keys in use: no two ways down that part at two different keys spell the same path.
  `KeyHarmlessExactly` decides it for one key beside clean ones. Harmless keys do not combine: "a." and ".b" can each
  be used alone, but not together (`HarmlessKeysClash`). For any finite set of keys, alone or beside clean ones,
  `UsableAlone` and `UsableBesideClean` decide the condition.
- The two read paths report different times of last update when the consumer's clock steps back between two messages
  of an endpoint: `ClockBackDisagrees`. `LastUpdatedAgrees` gives the exact condition on the samples of one read, and
  `TimesAgreeExactly` the one on a whole run: the times always agree iff no commit for the endpoint is stamped earlier
  than the one before it since the last delete (or the store keeps one sample only).
- A client that follows `has_more` (docs/architecture.md:154) gets stuck at, or repeats part of, the page at the offset cap when there are more
  matches than the cap leaves room for; `BrowsingTilesExactly` gives the exact bound.

## Model

| member | source | states |
|---|---|---|
| Json.TextInjective | src/compare/diff.rs:109-111 | values with the same compact text (escapes, sorted keys, exact numbers) are equal, which is what lets string keys stand for values in the multiset count |
| Json.TextCancel | src/compare/diff.rs:109-111 | inside a document the text of a value can be told apart from whatever delimiter-led text follows it |
| Strings.SortedUnique | src/analysis/engine.rs:118-127 | a set of strings has one ascending listing, so sorting does not depend on the order in which paths are collected |
| Strings.LtExactly | src/analysis/engine.rs:125 | strings are ordered as `str` is: a proper prefix first, otherwise by the first character that differs |
| Strings.OfNatValue | src/compare/flatten.rs:95 | array positions are written as their decimal number |
| Diffing.FieldReported | src/compare/diff.rs:26-63 | an object diff reports a key iff the sides disagree on it, as missing, extra or by the child diff |
| Diffing.SetDifferenceMultiset | src/compare/diff.rs:90-107 | the leftover of `a` against `b` is, as a multiset, `a` minus `b` |
| Diffing.SetDifferenceKeepsLast | src/compare/diff.rs:90-107 | the leftover is the order-preserving subsequence of `a` that keeps, of each value, the last surplus occurrences |
| Diffing.SetDifferenceLengths | src/compare/diff.rs:66-71 | the two leftovers account for exactly the difference in length |
| Diffing.OneSidedTestSuffices | src/compare/diff.rs:73-75 | at equal length the leftover is empty iff the arrays are permutations of each other |
| Diffing.ArrayClassification | src/compare/diff.rs:65-88 | unequal arrays: size report iff lengths differ, ordering report iff permutations, else a non-empty report of exactly the differing indices in ascending order with their diffs |
| Diffing.ComputeDiff | src/compare/diff.rs:5-24 | the recursive procedure, with its loops below it, computes the specified tree |
| Diffing.ComputeDiffObjects | src/compare/diff.rs:26-63 | the two loops fill the map with exactly the reported keys, in whatever order keys come |
| Diffing.ComputeDiffArrays | src/compare/diff.rs:65-88 | the three-way array comparison computes the specified report |
| Diffing.ComputeSetDifference | src/compare/diff.rs:90-107 | counting and then decrementing a map keyed by text computes multiset subtraction on values |
| Patching.PatchRebuildsRight | src/compare/diff.rs:5-107 | applying the diff to the left value gives the right value, up to order in arrays reported by size or ordering |
| Patching.PatchIsExact | src/compare/diff.rs:5-107 | with no size or ordering node in the tree the patch gives exactly the right value |
| Patching.DiffMirrored | src/compare/diff.rs:5-88 | the diff with sides swapped is the mirror image at every depth |
| Flattening.FlattenInto | src/compare/flatten.rs:50-139 | the recursive insertion gives the result for the key order it took, and so records every leaf of the tree at its joined path, overwriting only shared paths |
| Flattening.FlattenByInserts | src/compare/flatten.rs:50-139 | for every key order, each leaf's path holds the diff of a leaf that leads there and no other entry changes |
| Flattening.Flatten | src/compare/flatten.rs:36-40 | flattening from a prefix starts from an empty map and gives the result for some key order |
| Flattening.FlattenValue | src/compare/flatten.rs:141-144 | the set of reported paths is a function of the two values, even where the recorded contents depend on iteration order |
| FlatteningFacts.LeavesSound | src/compare/flatten.rs:50-139 | every leaf truly describes what walking its position finds in both values |
| FlatteningFacts.LeavesComplete | src/compare/flatten.rs:50-139 | wherever the values disagree there is a leaf at that position, above it or below it |
| FlatteningFacts.LeafBelowDisagrees | src/compare/flatten.rs:50-139 | a leaf at or below a position proves that the values disagree there |
| FlatteningFacts.EmptyIffEqual | src/compare/flatten.rs:141-144 | nothing is reported iff the values are equal, with no assumption on keys |
| FlatteningFacts.LeavesExactly | src/compare/diff.rs:5-107 | a leaf stands exactly where the sides differ and are compared no further: not both objects, nor arrays of one length that are no permutations of each other, after places that are |
| FlatteningFacts.LeafExactly | src/compare/flatten.rs:50-139 | a leaf at such a place holds the full account of both sides: their types, values, and for arrays of different length the late occurrences of each side as sequences, and no other account |
| FlatteningPaths.PathOfSegs | src/compare/flatten.rs:42-48 | for clean segments the joined path splits back into them |
| FlatteningPaths.LeavesPrefixFree | src/compare/flatten.rs:50-139 | no leaf lies at or below another |
| FlatteningPaths.PathsDistinct | src/compare/flatten.rs:42-48 | with clean keys distinct leaves get distinct paths and no reported path is an ancestor of another |
| FlatteningPaths.NoLeafLost | src/compare/flatten.rs:50-139 | with clean keys the map holds every leaf at its own path and nothing else, and has as many entries as the tree has leaves |
| FlatteningPaths.FlatteningUnique | src/compare/flatten.rs:65-69 | with clean keys the map does not depend on hash map iteration order |
| FlatteningPaths.FlatteningExactly | src/compare/flatten.rs:50-144 | with clean keys a map entry is exactly a path that names such a place, with that account |
| FlatteningPaths.EntriesSound | src/compare/flatten.rs:50-144 | with clean keys every entry describes the place its path names, and the values disagree there and above |
| FlatteningPaths.EntriesComplete | src/compare/flatten.rs:50-144 | with clean keys every disagreement has an entry at, above or below it |
| FlatteningPaths.DiffPathsSymmetric | src/compare/flatten.rs:141-144 | the reported paths are the same whichever value is put first |
| FlatteningPaths.NoColonPath | src/compare/flatten.rs:20-21 | values without a key that puts ':' first are never reported at a path starting with ':' |
| FlatteningPaths.ColonNamespaceSafe | src/compare/flatten.rs:20-25 | the ':' namespace is safe from a body, whatever it is compared with, iff the body has no such key |
| FlatteningOrders.LeafLostExactly | src/compare/flatten.rs:50-139 | for any keys and any order the map has at most one entry per leaf, and exactly one per leaf iff no two leaves lead to one path |
| FlatteningOrders.AnyLeafCanWin | src/compare/flatten.rs:65-69 | of the leaves that share a path any one is what some key order records there |
| FlatteningOrders.OrderIrrelevantExactly | src/compare/flatten.rs:65-69 | the map is independent of iteration order iff leaves that share a path record the same |
| FlatteningOrders.DottedKeyLosesLeaf | src/compare/flatten.rs:65-69 | a dotted key makes two leaves share a path: one of them is lost in every order, and two orders lose different ones |
| FlatteningKeys.LosesNoLeafExactly | src/compare/flatten.rs:42-48 | for any vocabulary of keys, no leaf is ever lost between values over it iff no two ways down that part at two different keys spell the same path |
| FlatteningKeys.AmbiguousExactly | src/compare/flatten.rs:42-48 | a vocabulary with the empty key has such a clash iff it has any other key; one without it iff two ways down that open with different keys spell the same dot-free pieces |
| FlatteningKeys.KeyHarmlessExactly | src/compare/flatten.rs:42-48 | a single key can be used beside clean keys without any leaf being lost iff it is not empty and, if it has dots, has an empty segment |
| FlatteningKeys.HarmlessKeysClash | src/compare/flatten.rs:42-48 | two keys that are harmless alone, "a." and ".b", can lose a leaf together |
| FlatteningVocabularies.VocabularyDecided | src/compare/flatten.rs:42-48 | for a vocabulary whose dotted keys are finitely many, no leaf is ever lost iff the fixpoint computation over the tails of its dotted keys finds no overlap that can be settled |
| FlatteningVocabularies.UsableAloneExactly | src/compare/flatten.rs:42-48 | a finite set of keys can be used without any leaf ever being lost iff it passes the computed test |
| FlatteningVocabularies.UsableBesideCleanExactly | src/compare/flatten.rs:42-48 | the same for a finite set of keys beside all clean ones |
| Suppression.GlobMatch | src/analysis/suppress.rs:129-143 | the two-iterator loop decides equal segment counts with each segment equal or `*` |
| Suppression.SubtreeIsSegmentPrefix | src/analysis/suppress.rs:109-112 | a subtree rule matches iff its segments are a prefix of the path's |
| Suppression.AncestorPrefixesExact | src/analysis/suppress.rs:122-126 | the ancestor prefixes are exactly the joins of the non-empty segment prefixes, shortest first |
| Suppression.ClosedUnderDescendants | src/analysis/suppress.rs:108-119 | subtree and regex rules, for any regex, also match everything below what they match |
| Suppression.GlobStopsAtItsDepth | src/analysis/suppress.rs:128-143 | a glob never matches a path and one strictly below it |
| Suppression.SuppressedIffCovered | src/analysis/suppress.rs:61-119 | a path is suppressed iff one of the endpoint's patterns covers its segments in its mode |
| Suppression.FromConfig | src/analysis/suppress.rs:27-39 | configuration is rejected iff some pattern does not compile; otherwise each endpoint has the patterns of its last entry that has any |
| Suppression.WithEndpointReadsBack | src/analysis/suppress.rs:61-86 | installed patterns are read back unchanged, other endpoints are untouched, and it fails iff a pattern does not compile |
| Suppression.CompileAppend | src/analysis/suppress.rs:89-106 | compiling a concatenation compiles the parts and fails iff a part fails |
| Suppression.CompilesExactly | src/analysis/suppress.rs:89-106 | patterns compile iff the regular expressions among them do |
| Suppression.ForEndpointExactly | src/analysis/suppress.rs:46-52 | an ad-hoc rule set hides from its endpoint exactly what its patterns cover, and nothing from another endpoint |
| Suppression.ConfigSuppressesExactly | src/analysis/suppress.rs:27-39 | configured rules hide from an endpoint exactly what the patterns of its last entry with any cover |
| Suppression.PreviewEqualsSaveRules | src/analysis/suppress.rs:46-86 | stored rules plus an ad-hoc set suppress the same paths as saving both together |
| RuleUpdates.NoUpdateLost | src/analysis/engine.rs:87-98 | in every interleaving the shared rules are the committed updates in commit order, each endpoint has what was last committed for it, every accepted update is committed once or carried by one writer, recompiling never panics, and a rejected pattern changes nothing |
| RuleUpdates.FailedSwapMeansProgress | src/analysis/engine.rs:90-96 | a swap fails only because another update was committed since this writer loaded |
| RuleUpdates.UninterruptedUpdate | src/analysis/engine.rs:87-98 | an update nobody interrupts replaces exactly the endpoint's patterns |
| RuleUpdates.UpdateFinishes | src/analysis/engine.rs:87-98 | a writer at any point of its update commits it on top of the current rules if let run for a load and two rounds, however out of date what it loaded is |
| RuleUpdates.ReadSeesOneSnapshot | src/analysis/engine.rs:138-201 | a read interleaved with updates, `aggregate` or `detail`, tallies, counts and matches all its samples under the one rule set current when it started |
| RuleUpdates.ReadAnswersItsRequest | src/analysis/engine.rs:129-201 | a read started anywhere in a run answers for exactly the samples, endpoint, extra rules and path it was started with, under the rules shared at that moment |
| Classifying.VerdictByCrossMultiplication | src/analysis/classify.rs:12-52 | the verdict without divisions: excess over noise, over the relative share of both counts and over the absolute share of all samples |
| Classifying.PercentagesBounded | src/analysis/classify.rs:12-27 | both percentages lie between 0 and 100 when no count exceeds the total |
| Classifying.PercentagesExactly | src/analysis/classify.rs:12-27 | the percentages are the difference of the counts, whichever is larger, in hundredths of both counts and of all samples |
| Classifying.OnlyRightEvidenceMoves | src/analysis/classify.rs:48-52 | for any thresholds, one sample makes a regression only by diverging on candidate and not control, and such a sample never clears one |
| Classifying.ReplacementRaisesExactly | src/analysis/classify.rs:48-52 | one sample in place of another can make a regression iff it ranks higher: candidate only, then neither side, then both, then control only |
| Samples.Assemble | src/consumer/sample.rs:11-126 | a sample is kept iff the baseline's body, and that of each side with the same status, decodes, fits the cap and is JSON; it then records status, decoded body and headers of each side as far as they are compared, and the request |
| Samples.HeadersToJsonForm | src/upstream/header.rs:26-51 | every header but the hop-by-hop, volatile and secret ones is recorded, a single value as a string and several as an array in order |
| Samples.HeadersToJsonExact | src/upstream/header.rs:26-51 | header normalisation forgets exactly the ignored headers |
| Readings.DiffOne | src/analysis/engine.rs:301-340 | the entries are exactly the diverging paths that no rule suppresses, each with a diff that may be recorded there |
| Readings.DiffMatching | src/analysis/engine.rs:310-321 | body and prefixed header differences are merged, headers winning where they share a path |
| Readings.DiffSample | src/analysis/engine.rs:240-299 | raw and noise maps of one sample; a baseline that does not parse gives neither |
| Readings.CountsExactly | src/analysis/engine.rs:141-148 | counts are the numbers of samples that diverge on the candidate and on the control |
| Readings.MatchingExactly | src/analysis/engine.rs:182-201 | the matches are the samples that diverge on either side, each once and in order |
| ReadingFacts.HeaderPlaceExactly | src/upstream/header.rs:26-51 | recorded headers differ at the name of each header that differs, or at the numbers of the values that differ where both sides have several, equally many and not the same ones |
| ReadingFacts.ShowsExactly | src/analysis/engine.rs:240-340 | an assembled sample shows a raw difference at exactly these paths: ":status" alone if the statuses differ; otherwise every place where the bodies differ and every place where the headers differ, and no other; less what rules hide; likewise noise |
| ReadingFacts.RecordsExactly | src/analysis/engine.rs:301-340 | what may be recorded at a path is the two statuses, or the full account of the headers there, or else of the bodies |
| ReadingFacts.DisagreementReported | src/analysis/engine.rs:310-321 | wherever two bodies disagree a path at, above or below it is reported, whatever the headers do |
| ReadingFacts.HeaderDifferenceReported | src/analysis/engine.rs:315-321 | a recorded header that differs is reported at its name or at one of its values, whatever the bodies do |
| ReadingFacts.KeepsExactly | src/analysis/engine.rs:336-339 | a path is kept iff no stored and no ad-hoc pattern of the endpoint covers it |
| ReadingFacts.UnreadableHeadersExactly | src/analysis/engine.rs:251-253 | baseline headers that cannot be read leave the body compared, and show no header difference iff the candidate's headers cannot be read either or are none |
| Engine.DiffEngine.Aggregate | src/analysis/engine.rs:129-162 | none iff there are no samples; otherwise the exact counts of every path where some sample diverges, no other path, and the latest timestamp |
| Engine.DiffEngine.Detail | src/analysis/engine.rs:164-225 | exact counts and verdict, the page of all matches at offset and limit, and whether more remain, with saturating bounds |
| Engine.DiffEngine.SetSuppress | src/analysis/engine.rs:87-98 | accepted iff all patterns compile, and then exactly the endpoint's rules are replaced |
| Engine.PageOfBuffer | src/analysis/engine.rs:178-204 | cutting the page out of the bounded buffer is cutting it out of all matches, and one extra entry decides has_more |
| EngineFacts.OnlyDivergingSampleMovesVerdict | src/analysis/engine.rs:100-116 | adding a sample to any list turns a path into a regression only if it diverges there on candidate and not control, status included, and never clears one |
| EngineFacts.EvictionMovesVerdict | src/analysis/engine.rs:100-116 | when an arriving sample drives out the oldest, a path, status included, becomes a regression only if the arriving one ranks above the evicted one there, and stops being one only if it ranks below |
| EngineFacts.StatusIgnoresThresholds | src/analysis/engine.rs:107-110 | the status field regresses exactly when zero thresholds would make it, whatever the endpoint's thresholds |
| EngineFacts.VerdictExactly | src/analysis/engine.rs:100-116 | a path other than the status is a regression iff the numbers of diverging samples exceed the thresholds of its endpoint, its own or else the default ones; the status iff more samples diverge on the candidate |
| EngineFacts.VerdictShownExactly | src/analysis/engine.rs:118-225 | that is the verdict a detail shows, and membership in the list of regressions |
| EngineFacts.ShownPercentagesBounded | src/analysis/engine.rs:208-224 | percentages shown in a detail lie between 0 and 100 |
| EngineFacts.SuppressionCommutes | src/analysis/engine.rs:336-339 | counting under rules is counting without rules and then dropping the suppressed paths |
| EngineFacts.PreviewEqualsSave | src/analysis/engine.rs:129-148 | the tallies previewed with extra patterns are those after saving them with the stored ones |
| EngineFacts.PreviewEqualsSaveDetail | src/analysis/engine.rs:164-225 | the detail previewed with extra patterns has the counts, percentages, verdict, time, matching samples and has_more of the one after saving them |
| EngineFacts.ReadPathsAgree | src/analysis/engine.rs:63-225 | detail has the counts of aggregate, is a regression iff listed by regressions, and is the 404 case at offset 0 exactly for paths aggregate does not list |
| EngineFacts.LatestBounds | src/analysis/engine.rs:150-154 | the aggregate's time of last update is the greatest timestamp and belongs to a sample |
| EngineFacts.LastUpdatedAgrees | src/analysis/engine.rs:150-175 | both read paths give the same time of last update iff no sample is later than the one that comes first |
| EngineFacts.PagesTile | src/analysis/engine.rs:203-204 | following has_more page by page, without the handler's cap on offsets, yields every match once and in order |
| EngineFacts.NoDivergenceExact | src/analysis/engine.rs:301-334 | a side diverges nowhere iff it did not answer or agrees in status, body and headers as far as they are present |
| EngineFacts.EmptyExactly | src/analysis/engine.rs:240-299 | when an assembled sample shows no raw difference and no noise, with no assumption on the body parser |
| EngineFacts.NoFalseNoDifference | src/consumer/sample.rs:85-115 | an assembled sample shows no raw difference iff the candidate did not answer or status, parsed body and compared headers equal the baseline's; likewise noise |
| ReservedNames.ReservedNamesExactly | src/compare/flatten.rs:20-25 | bodies over a vocabulary of keys never share a path with headers nor use the status field, whatever is compared, iff no key of it is a reserved name or spells a header path; only keys that open a body matter, and headers a response can carry suffice to clash |
| ReservedNames.NamespacesDisjoint | src/compare/flatten.rs:20-25 | bodies that open with no reserved key share no path with headers and never use the status field |
| ReservedNames.StatusFieldClash | src/analysis/engine.rs:107-110 | a body field named ":status" is reported under the reserved status name |
| ReservedNames.HeadersFieldClash | src/analysis/engine.rs:310-321 | a body field ":headers" can differ at a header's path; then exactly the header's difference is recorded and the body's is lost |
| ReservedNames.HeadersRuleHidesHeaders | src/compare/flatten.rs:23-25 | one `:headers` subtree rule hides every header difference and nothing outside the ':' namespace |
| Queries.ExcludeReadsBack | src/http/query.rs:23-35 | a comma-joined pattern list is parsed back iff every pattern is trimmed, non-empty and comma-free |
| Queries.PaddedPatternsRead | src/http/query.rs:23-35 | a comma-separated list is read as its patterns without the blanks around them, in order, without empty ones |
| Queries.ExcludeHidesExactly | src/http/query.rs:23-35 | the exclude parameter hides from its endpoint exactly what its patterns cover, and is refused iff an expression among them does not compile |
| Queries.RegressionsMatchSummaries | src/http/query.rs:54-74 | the regressing summaries are, in order, the paths `regressions` returns, and the count shown is their number |
| Queries.ListPaths | src/http/query.rs:88-97 | bad request iff a pattern does not compile, not found iff there are no samples, else the summaries of the aggregate |
| Queries.ShowDetail | src/http/query.rs:122-159 | bad request, not found exactly for an unmatched path on the first page, else the detail at the clamped limit and offset |
| Queries.ListedExactly | src/http/query.rs:54-97 | the list states the number of samples, the latest timestamp, and in ascending order exactly the paths where samples diverge, with how many and the verdict |
| Queries.DetailExactly | src/http/query.rs:122-159 | the detail states how many samples diverge at the path on either side, the verdict, and of the diverging samples in order those of the page asked for |
| Queries.PageBoundsExactly | src/http/query.rs:127-131 | the page size is the one asked for from 1 to 100, the nearer bound otherwise, 20 by default; the offset is the one asked for up to 100000 |
| Queries.ListedIffFound | src/http/query.rs:82-159 | a path is listed iff its first detail page is found, with the same counts and verdict |
| Queries.ClampedOffsetExact | src/http/query.rs:127-131 | the offset cap returns another page than asked for iff it is exceeded while there are matches beyond it |
| Queries.BrowsingTilesExactly | src/http/query.rs:127-131 | following has_more through the handler from the start yields every match once and in order iff the matches end within the last page that starts no later than the offset cap |
| Storing.StoreRefinesLog | src/storage/memory.rs:51-94 | over every interleaving each queue is the last `cap` commits since the endpoint's last delete, ids are distinct and below the counter, and a fetch is the newest-first window filter of that suffix |
| Storing.FetchedIsRetrievable | src/storage/memory.rs:79-84 | any id a fetch returned retrieves that very sample |
| Storing.FetchIsContiguous | src/storage/memory.rs:65-77 | with commits in timestamp order a fetch is a contiguous, newest-first cut of the queue |
| Storing.InWindowExactly | src/storage/memory.rs:65-77 | a fetch picks, in order, exactly the samples within the window |
| Storing.FullQueueMovesVerdict | src/storage/memory.rs:56-61 | a commit to a full queue moves a verdict up only if the new sample ranks above the one it drives out, and down only if below, as long as the window holds them all |
| Storing.TimesAgreeNow | src/storage/memory.rs:65-77 | in any state the two read paths agree on the time of last update for every reader iff the newest stored sample has the greatest timestamp |
| Storing.TimesAgreeExactly | src/storage/memory.rs:51-94 | over every interleaving the two read paths agree on the time of last update after every step and for every reader iff the store keeps one sample only or no commit for the endpoint is stamped earlier than the one before it since its last delete |
| Storing.InOrderChronological | src/storage/memory.rs:51-94 | that order of the log leaves the queue in timestamp order, and for an endpoint that is never deleted it is the same condition |
| Storing.WithinWindow | src/storage/memory.rs:43-46 | the window admits a sample until a whole second after it has passed, because ages are truncated to seconds |
| Storing.InMemorySampleStore.WithRetention | src/storage/memory.rs:34-41 | an empty store with capacity and window of at least one |
| Storing.InMemorySampleStore.TakeTicket | src/storage/memory.rs:52-54 | the atomic increment that hands out a fresh id, keeping the invariant |
| Storing.InMemorySampleStore.CommitTicket | src/storage/memory.rs:56-61 | push and trim from the front, keeping the invariant |
| Storing.InMemorySampleStore.AppendSample | src/storage/memory.rs:51-63 | both steps of an append, adding one commit to the log |
| Storing.InMemorySampleStore.FetchSamples | src/storage/memory.rs:65-77 | the newest-first window filter of the last `cap` commits since the last delete |
| Storing.InMemorySampleStore.GetSample | src/storage/memory.rs:79-84 | a stored sample of the endpoint with that id, or none if no stored sample has it |
| Storing.InMemorySampleStore.ListEndpoints | src/storage/memory.rs:86-88 | exactly the endpoints with a commit since their last delete |
| Storing.InMemorySampleStore.DeleteEndpoint | src/storage/memory.rs:90-93 | forgets the endpoint's samples and no others |
| Consuming.AcceptedHandledOnceInOrder | src/consumer/mod.rs:72-76 | at every moment what was handled and what is queued is what was accepted, once each and in order, within the channel's capacity |
| Consuming.DrainedStoreHoldsLast | src/consumer/mod.rs:72-96 | once drained, the commits are exactly what the accepted messages assemble to, numbered in order, and each queue holds the last `cap` for its endpoint |
| Consuming.SampleOf | src/consumer/mod.rs:79-89 | a message leaves a sample iff its path resolves and the bodies to compare can be stored, whether or not candidate and control answered, and the sample is its record |
| Consuming.CommittedExactly | src/consumer/mod.rs:72-96 | once drained, the commits are, one each and in order, the records of the accepted messages that leave a sample, under their endpoint, with their handling time and consecutive ids, and nothing else |
| Consuming.ShedsExactly | src/http/forward.rs:219 | a message is shed iff as many accepted ones as the channel holds wait to be handled |
| Consuming.AlwaysDrainable | src/consumer/mod.rs:72-77 | from any point of any run the consumer can drain the channel |
| Consuming.Consumer.Handle | src/consumer/mod.rs:79-96 | one message adds the sample it resolves and assembles to, or nothing |
| Consuming.Consumer.Drain | src/consumer/mod.rs:72-77 | the receive loop empties the channel and commits, in order, what its messages assemble to |
| Pipeline.FetchedWasReceived | src/consumer/mod.rs:79-96 | every fetched sample was assembled, up to its id, from an accepted message |
| Pipeline.ShownIffDifferent | src/analysis/engine.rs:240-340 | in every run a fetched sample shows a raw difference iff the message it came from has a differing candidate response; likewise noise |
| Pipeline.ShownExactly | src/analysis/engine.rs:240-340 | in every run a fetched sample shows exactly the paths at which the candidate of the accepted message it records answered differently and that no rule hides; likewise noise for the control |
| Pipeline.ClockForwardNewestFirst | src/storage/memory.rs:65-77 | while the consumer's clock does not step back, fetches come newest first |
| Pipeline.TimesAgreeExactly | src/consumer/mod.rs:72-96 | in every run of the consumer the two read paths always agree on the time of last update iff the store keeps one sample only or no stored message was handled at an earlier time than the one before it |
| Pipeline.ClockBackDisagrees | src/consumer/mod.rs:79-96 | after any run that left nothing queued, two messages of one endpoint handled with a clock that steps back make the two read paths disagree |

## Left out

- HTTP serving, the upstream client, sampling, timers, metrics, tracing, the command line, configuration loading and default thresholds: plumbing over libraries that are not part of this model.
- `src/storage/redis.rs`: its behaviour rests on the Redis server; the in-memory store carries the same interface.
- Endpoint routing, regex matching, decompression and JSON parsing: parameters of the model, as said above.
- Floating point: percentages and thresholds are exact reals. JSON floats are identified with their printed text, so `0.0` and `-0.0`, which the source holds equal although their texts differ, are distinct here.
- Machine widths: counts, ids, statuses and timestamps are unbounded, except `usize` saturation in `detail`; the window is assumed to fit a signed 64-bit number of seconds.
- Header values are strings: the lossy UTF-8 decoding of header bytes is not modelled.
- Header names are arbitrary strings: that HTTP restricts their characters is not modelled, so a body key such as `:headers.a b` counts as reserved although no header on the wire is named `a b`.
- Rendering the request as a curl command, `sample_view`, the overview over all endpoints in `list_paths`, and the dashboard: they add no decision of their own.
- `PathSummary` lists are built from sorted keys rather than sorted in place: `sort_by` is library code, and `SortedUnique` shows that its result is determined.
