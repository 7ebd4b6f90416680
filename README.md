# root-dict: morpheme decomposition and the learning dictionary, in Dafny

root-dict is a browser dictionary. It explains an English word by cutting it
into morphemes: at most one prefix, a stem made of one or more roots, and at
most one suffix. Each piece carries a Chinese gloss. This project models the
three pieces of its logic that do not touch the page or the network, and
proves properties about them.

- **The recursive segmentation engine** (`enhanced_root_analyzer_slim.js`,
  module `SlimAnalyzer`). Whole-word overrides come first. Then it strips the
  first matching prefix and the first matching suffix, in table order. Last,
  it decomposes the stem recursively: an exact root; a compound override; the
  first table root of length at least 3 found anywhere in the stem, with
  recursion on the text before and after it; and a midpoint bisection. The
  code is pure, so the model is functions. The main theorem is coverage: for a
  word without hyphens, the components' texts, with their affix marker
  removed, concatenate to exactly the lower-cased word.
- **The learning dictionary** (`enhanced_api.js`, module `EnhancedApi`). Class
  `EnhancedDictionary` holds the learning state (search history, per-key
  usage counters, user corrections) and the live pattern tables. Its
  analyzer uses loops: the first-match prefix and suffix, then the
  longest-match root, with an inferred root when none occurs. It records
  every search and counts every table entry it uses. A correction writes its
  root into the live root table. The methods are imperative Dafny, each
  proved against a function of the old state. Lemmas about those functions
  cover:
  - the counters;
  - the stable top-ten sort;
  - the import/export round trip;
  - the way a correction feeds later root searches.
- **The page script's pure parts** (`app.js`, module `App`):
  - the fallback analyzer `basicAnalyze`, a method proved to rearrange the
    letters of the word and nothing else;
  - the favourites list `Storage`, a class over a sequence;
  - the candidate list of `findSimilarWords`: spelling matches first, then
    words that share a root, at most ten, never the query, no word twice;
  - `getSourceLabel`.

Shared modules:
- `Text` models the JavaScript string operations the code relies on.
- `Tables` models components and the insertion-ordered tables.

JavaScript objects iterate in insertion order, and that order decides both
first-match affix stripping and tie-breaking between roots of equal length.
So every table is a sequence of key/value pairs.

Points where the code behaves differently from what its names or the other
analyzers suggest; the model follows the code:
- **Slim partial match.** `analyzeRoot` takes the *first* root of length at
  least 3 that occurs in the stem (table order), not the longest one.
  `SlimAnalyzer.FirstPartialRoot` states this.
- **Correction index.** `correctRoot` stores a correction under any index. It
  does not check the index against a decomposition.
- **Coverage.** Coverage holds only for words without a hyphen. The clean
  text of a component drops its first `-`, which is meant for affix markers
  such as `un-`. A hyphen that belongs to the word itself is dropped the same
  way when it lands in a root or fragment component: a stem "a-b" analyzed
  as one component covers "ab". In `analyzeWordRoots` the rest of the stem around the matched
  root is dropped, so coverage is a property of the slim engine and
  `basicAnalyze` only. For `basicAnalyze`, the leftover text is kept as a
  component, and the result is a rearrangement of the letters.
- **Corrections in `inferRoot`.** A user correction does not supply a gloss.
  Corrections are stored by component index, so the `meaning` read at
  enhanced_api.js:271 is always `undefined`. The model returns
  `Unglossed(remaining)` there.

## Model

| member | source | states |
|---|---|---|
| Text.ToLower | app.js:163 | the result has the word's length, and every character is the original one with ASCII capitals lowered |
| Text.ToLowerKeepsDashes | app.js:163 | lower-casing neither creates nor removes a hyphen |
| Text.StartsWith | app.js:168 | `startsWith`: the text begins with the pattern |
| Text.EndsWith | app.js:179 | `endsWith`: the text ends with the pattern |
| Text.IndexOf | enhanced_root_analyzer_slim.js:118 | the result is a position where the text occurs, with no occurrence before it; none means it occurs nowhere |
| Text.Contains | enhanced_api.js:288 | `includes`: the pattern occurs somewhere, that is `indexOf` finds it |
| Text.RemoveFirst | app.js:200 | `replace(root, '')` cuts out exactly the first occurrence: the result is the text before it joined to the text after it, and its letters are the stem's minus the root's; a text that does not occur leaves the stem unchanged |
| Text.Clean | enhanced_root_analyzer_slim.js:76 | `replace('-', '')` removes one hyphen at most: a hyphen-free key is unchanged, any other key loses exactly one character |
| Text.CleanDropsFirstDash | enhanced_root_analyzer_slim.js:76 | the character removed is the first hyphen: the key before it joined to the key after it |
| Text.CleanIsReplace | enhanced_root_analyzer_slim.js:76 | the clean form is exactly the key with its first occurrence of `"-"` cut out, as `replace` with a string pattern does |
| Text.CleanMarked | enhanced_root_analyzer_slim.js:76 | a key marked by one hyphen at either end cleans to its bare text |
| Text.StripDashes | app.js:544 | `replace(/[-]/g, '')` leaves no hyphen, and leaves a hyphen-free text unchanged |
| Text.StripDashesAppend | app.js:544 | removing every hyphen from two joined texts is removing them from each, so the other characters keep their order |
| Text.StripDashesOne | app.js:544 | a single character is kept unless it is a hyphen |
| Tables.Surface | enhanced_root_analyzer_slim.js:61-62 | the clean text of a component list: each component's text with its first hyphen removed, joined in order |
| Tables.SurfaceAppend | enhanced_root_analyzer_slim.js:61-62 | the clean text of a joined component list is the two lists' clean texts joined |
| Tables.KeyIndex | app.js:542 | the position of the key in the table, the only one since keys are distinct; none exactly when no entry has that key |
| Tables.Get | app.js:542 | a property read is absent exactly when the key is not in the table, and otherwise is the value stored with the key |
| Tables.SetEntry | enhanced_api.js:328 | after assigning a property, the key reads the new value and every other key reads what it read before; an existing key keeps its position, a new key is appended, and distinct keys stay distinct |
| Tables.FirstAffix | enhanced_root_analyzer_slim.js:75-77 | the affix chosen is the first entry, in table order, whose clean form starts (or ends) the word and is shorter than it; no earlier entry matches; none means no entry matches |
| Tables.Strip | enhanced_root_analyzer_slim.js:76-94 | cutting off a matching affix leaves a non-empty rest which, joined with the affix's clean form on the right side, gives back the word |
| Tables.StripFirst | app.js:166-184 | one affix step: it strips the first matching entry, leaving a non-empty rest that rebuilds the word with the clean affix; the word is left unchanged when no entry matches |
| Tables.Take | enhanced_api.js:292 | `slice(0, n)` is the first n elements, or all of them when there are fewer |
| Tables.LongestRootIn | app.js:191-196 | after the first n entries the best match is a non-empty occurring root; no occurring root among them is longer, and every occurring root before it is strictly shorter |
| Tables.LongestRoot | enhanced_api.js:252-264 | the longest-match policy: no occurring root is longer than the one found, and ties go to the earliest; none means only empty keys occur |
| SlimAnalyzer.Analyze | enhanced_root_analyzer_slim.js:27-37 | the decomposition of any word is never empty |
| SlimAnalyzer.DetectPrefix | enhanced_root_analyzer_slim.js:74-85 | none exactly when no prefix matches; otherwise the component is the first matching entry, and its clean form followed by the non-empty rest is the word |
| SlimAnalyzer.DetectSuffix | enhanced_root_analyzer_slim.js:88-99 | none exactly when no suffix matches; otherwise the component is the first matching entry, and the non-empty rest followed by its clean form is the word |
| SlimAnalyzer.IntelligentAnalyze | enhanced_root_analyzer_slim.js:40-71 | the result is never empty |
| SlimAnalyzer.FirstPartialRoot | enhanced_root_analyzer_slim.js:115-116 | the root chosen for partial matching is the first in table order that is at least 3 long and occurs in the stem; none before it qualifies |
| SlimAnalyzer.AnalyzeRoot | enhanced_root_analyzer_slim.js:102-143 | the stem decomposition is never empty, and for a non-empty stem no component has empty text |
| SlimAnalyzer.SplitAround | enhanced_root_analyzer_slim.js:117-137 | the partial-match split is never empty and has no component with empty text |
| SlimAnalyzer.AnalyzeCompound | enhanced_root_analyzer_slim.js:146-167 | the result is never empty; for a non-empty word, no component has empty text |
| SlimAnalyzer.AnalyzeCompoundCovers | enhanced_root_analyzer_slim.js:162-166 | more than one component comes back exactly for a listed compound; the components spell out a hyphen-free word |
| SlimAnalyzer.SyllableSegmentation | enhanced_root_analyzer_slim.js:170-181 | a stem of at most 4 characters is one root component; a longer one becomes two non-empty fragment halves, the first floor(n/2) long, that join back to the stem |
| SlimAnalyzer.AnalyzeRootCovers | enhanced_root_analyzer_slim.js:102-143 | coverage of the recursive step: for a hyphen-free stem the components' clean texts concatenate to exactly the stem |
| SlimAnalyzer.PartialMatchCovers | enhanced_root_analyzer_slim.js:117-137 | coverage of the partial-match split: the text before, the root and the text after rebuild the stem |
| SlimAnalyzer.SyllableSegmentationCovers | enhanced_root_analyzer_slim.js:170-181 | the bisection fallback covers a hyphen-free stem |
| SlimAnalyzer.StemPartCovers | enhanced_root_analyzer_slim.js:60-63 | the stem step covers a hyphen-free stem, the empty stem included |
| SlimAnalyzer.AffixSplit | enhanced_root_analyzer_slim.js:44-57 | prefix step then suffix step cut a hyphen-free word into prefix text, stem and suffix text, and the stem is hyphen-free |
| SlimAnalyzer.IntelligentAnalyzeCovers | enhanced_root_analyzer_slim.js:40-71 | coverage of prefix, stem and suffix together: for a hyphen-free word the clean texts concatenate to exactly the word |
| SlimAnalyzer.AnalyzeCovers | enhanced_root_analyzer_slim.js:27-37 | the coverage invariant: for a hyphen-free word, the clean texts of `analyze(word)` concatenate to the lower-cased word, special words included |
| SlimAnalyzer.SpecialWordWins | enhanced_root_analyzer_slim.js:31-33 | a special word gets exactly its listed parts, whatever the pattern tables hold |
| SlimAnalyzer.IntelligentAnalyzeShape | enhanced_root_analyzer_slim.js:40-71 | a stripped prefix comes first and a stripped suffix last, with the stem's components between them; a non-empty word leaves a non-empty stem |
| SlimAnalyzer.AnalyzeRootRuleOrder | enhanced_root_analyzer_slim.js:102-143 | rule priority: an exact root with a gloss, then a compound override, then partial matching, then bisection |
| SlimAnalyzer.SplitAroundShape | enhanced_root_analyzer_slim.js:117-128 | the split is at the first occurrence of the root, and the matched root is the component right after the components of the text before it |
| SlimAnalyzer.SpecialWordsShape | enhanced_root_analyzer_slim.js:9-24 | every special word's listed parts are non-empty and spell the word out |
| SlimAnalyzer.CompoundsShape | enhanced_root_analyzer_slim.js:147-160 | every compound has two parts with non-empty text that spell it out |
| EnhancedApi.Bump | enhanced_api.js:306-311 | one count goes up by one, a new key is appended with count 1, every other count is unchanged |
| EnhancedApi.BumpAll | enhanced_api.js:205-227 | the counters after `updateRootFrequency` is called on each key of the list in turn |
| EnhancedApi.BumpAllAppend | enhanced_api.js:205-227 | counting two lists of keys in turn is counting their concatenation |
| EnhancedApi.BumpAllCount | enhanced_api.js:205-227 | after counting a list of keys, each key's count has risen by the number of times the list names it |
| EnhancedApi.BestRootMatch | enhanced_api.js:252-264 | none exactly when only empty keys occur in the stem; otherwise the entry is the longest occurring root, the earliest among equals |
| EnhancedApi.SimilarIn | enhanced_api.js:285-291 | the similar entries are exactly the database entries whose word contains the root and differs from it |
| EnhancedApi.SimilarInPrefix | enhanced_api.js:287-291 | the similar entries among the first n depend only on those n entries |
| EnhancedApi.SimilarInAppend | enhanced_api.js:287-291 | the similar entries of two joined databases are those of the first followed by those of the second, so they keep database order and multiplicity |
| EnhancedApi.SimilarInOne | enhanced_api.js:288-289 | a single entry is kept exactly when its word contains the root and differs from it |
| EnhancedApi.NonEmptyGlosses | enhanced_api.js:298 | the kept glosses are all non-empty, and there is one exactly when some similar word has a gloss |
| EnhancedApi.ExtractCommonMeaning | enhanced_api.js:296-303 | the fixed related-meaning gloss exactly when some similar word has a gloss, otherwise none |
| EnhancedApi.InferredRoot | enhanced_api.js:267-282 | the inferred component always has the stem as text; it has no gloss exactly when the word has corrections; otherwise its gloss is the related-meaning one exactly when one of the first five similar words has a gloss, and the plain root gloss otherwise |
| EnhancedApi.WordRoots | enhanced_api.js:180-249 | an analysis has one to three components and counts no more keys than it has components |
| EnhancedApi.MiddlePart | enhanced_api.js:222-233 | the root step: the longest table root when one occurs in the stem, else the inferred root, and nothing for an empty stem |
| EnhancedApi.TableAnalysis | enhanced_api.js:199-243 | the table-driven analysis has one to three components and counts at most one key per component |
| EnhancedApi.WordRootsAsparagus | enhanced_api.js:191-197 | "asparagus" in any letter case gets its fixed three parts and counts nothing |
| EnhancedApi.TableAnalysisShape | enhanced_api.js:199-243 | a stripped prefix comes first and a stripped suffix last; the stem is empty only for the empty word, and for it the unknown-root entry is the whole result (for every other word TableAnalysisMiddle gives the assembled prefix, middle and suffix layout instead) |
| EnhancedApi.TableAnalysisCounted | enhanced_api.js:199-233 | every component is counted when the root came from the table, and all but one (the inferred root) otherwise |
| EnhancedApi.TableAnalysisCountsComponents | enhanced_api.js:199-237 | every counted key is the text of a returned component |
| EnhancedApi.TableAnalysisMiddle | enhanced_api.js:199-243 | for a non-empty word there is no fallback entry: the stripped prefix (if any), then the middle component, which is the longest table root when one occurs in the stem and the inferred root otherwise, then the stripped suffix (if any) |
| EnhancedApi.TableAnalysisUncounted | enhanced_api.js:199-233 | for a non-empty word the counted keys are the texts of all returned components except an inferred root: prefix and suffix are always counted, the root only when the table has it |
| EnhancedApi.Words | enhanced_api.js:334 | the distinct searched words are exactly the words in the history, and there are no more of them than searches |
| EnhancedApi.InsertDesc | enhanced_api.js:336 | insertion adds exactly the one entry |
| EnhancedApi.InsertDescSorted | enhanced_api.js:336 | insertion keeps a list sorted by descending count |
| EnhancedApi.SortDesc | enhanced_api.js:335-336 | the sort returns a permutation of the counters, in descending count order |
| EnhancedApi.SortDescStable | enhanced_api.js:335-336 | the sort is stable: the entries with any given count keep their original relative order |
| EnhancedApi.TopRoots | enhanced_api.js:335-337 | exactly min(10, number of counters) entries, sorted, drawn from the counters, and no counter left out has a larger count than any entry kept |
| EnhancedApi.TopRootsStable | enhanced_api.js:335-337 | ties keep insertion order: for every count, the kept entries with that count are the first entries with that count in the counters |
| EnhancedApi.HeadOfSorted | enhanced_api.js:337 | the head of a sorted permutation is sorted, comes from the original, and outranks everything left out |
| EnhancedApi.Export | enhanced_api.js:348-353 | an export always carries both the learning state and the pattern tables |
| EnhancedApi.ImportOfExport | enhanced_api.js:365-376 | importing an export restores exactly the exported learning state and tables, whatever the current state is |
| EnhancedApi.MergeLearningData | enhanced_api.js:371-373 | `{ ...this.learningData, ...data.learningData }`: each member present in the file replaces the live one, the others stay |
| EnhancedApi.MergePatterns | enhanced_api.js:374-376 | `{ ...this.rootPatterns, ...data.rootPatterns }`: each table present in the file replaces the live one, the others stay |
| EnhancedApi.MergeIdempotent | enhanced_api.js:371-376 | importing the same file twice gives the same state as importing it once |
| EnhancedApi.CorrectionFeedsRootSearch | enhanced_api.js:314-329 | after a correction writes a root into the live table, every stem containing that root finds a table root at least as long as it |
| EnhancedApi.EnhancedDictionary.constructor | enhanced_api.js:3-22 | the stored learning state, or an empty one when nothing is stored, and the built-in tables |
| EnhancedApi.EnhancedDictionary.UpdateRootFrequency | enhanced_api.js:306-311 | the learning state's counters become the old ones bumped at the key; nothing else changes |
| EnhancedApi.EnhancedDictionary.FindBestRootMatch | enhanced_api.js:252-264 | the loop returns the longest-match root of the live table |
| EnhancedApi.EnhancedDictionary.FindSimilarWords | enhanced_api.js:285-293 | the loop returns the first five similar database entries, in database order |
| EnhancedApi.EnhancedDictionary.InferRoot | enhanced_api.js:267-282 | the method returns the inferred component for the current corrections |
| EnhancedApi.EnhancedDictionary.AnalyzeWordRoots | enhanced_api.js:180-249 | returns the analysis of the word against the old tables and corrections, appends the search to the history, bumps exactly the counted keys in counting order, and leaves the tables unchanged |
| EnhancedApi.EnhancedDictionary.AnalyzeTable | enhanced_api.js:199-243 | the table-driven part returns the table analysis and bumps exactly its counted keys |
| EnhancedApi.EnhancedDictionary.StripAffixes | enhanced_api.js:199-220 | the prefix loop then the suffix loop strip the first matching entries and count each of them once |
| EnhancedApi.EnhancedDictionary.AnalyzeStem | enhanced_api.js:222-233 | a non-empty stem gets the longest table root, which is counted, or else an inferred root, which is not |
| EnhancedApi.EnhancedDictionary.StripAffix | enhanced_api.js:200-220 | one affix loop strips the first matching entry of the prefix (or suffix) table and counts it |
| EnhancedApi.EnhancedDictionary.CorrectRoot | enhanced_api.js:314-329 | the correction is stored under the word and index, other words' corrections are untouched, history and counters are unchanged, and the root table maps the new root to the new gloss |
| EnhancedApi.EnhancedDictionary.GetLearningStats | enhanced_api.js:332-345 | the total is the number of searches, the unique count is the number of distinct searched words (no more than the searches), the top roots are the top ten counters, and the correction count is the number of corrected words |
| EnhancedApi.EnhancedDictionary.ImportLearningData | enhanced_api.js:365-385 | a file that did not parse changes nothing; otherwise each member present in the file is merged over the live one, with incoming fields winning, and an absent member leaves the live one unchanged |
| App.BasicAnalysis | app.js:129-214 | `basicAnalyze` against given tables: the first matching prefix, the root step on the stem, then the first matching suffix |
| App.RootParts | app.js:187-206 | the root step on a non-empty stem: the longest root and the leftover, or the whole stem |
| App.StemParts | app.js:186-207 | the root step, skipped when the prefix and suffix left nothing |
| App.RootPartsShape | app.js:187-206 | for any stem, the root step gives one or two components: the longest root's entry first, then the stem with that root's first occurrence cut out, present exactly when that leftover is non-empty; with no root, the bare stem |
| App.RootPartsPermutes | app.js:187-206 | for a hyphen-free stem, the clean texts of the root step are the stem's letters rearranged |
| App.StripFirstSplit | app.js:166-184 | one affix step cuts a hyphen-free word into the stripped text and a hyphen-free rest |
| App.AffixSplit | app.js:163-184 | the two affix steps cut the lower-cased word into prefix text, stem and suffix text, and the stem is hyphen-free |
| App.BasicAnalysisPermutes | app.js:129-214 | `basicAnalyze` keeps the letters of a hyphen-free word: the clean texts are the lower-cased word rearranged, with the same total length |
| App.BasicAnalysisSize | app.js:129-214 | a non-empty word gets one to four components, the empty word none |
| App.FindPrefix | app.js:166-173 | the prefix loop returns the first matching prefix and the rest of the word |
| App.FindSuffix | app.js:176-184 | the suffix loop returns the first matching suffix and the rest of the stem |
| App.FindLongestRoot | app.js:188-196 | the root loop returns the longest-match root |
| App.AnalyzeStem | app.js:186-207 | the root step returns the longest root then the leftover, or the bare stem, and nothing for an empty stem |
| App.BasicAnalyze | app.js:129-214 | the method returns the basic analysis of the word against the built-in tables of `basicAnalyze` |
| App.Without | app.js:47 | the filtered list no longer contains the word, and keeps every other word as often as before |
| App.WithoutAppend | app.js:47 | filtering distributes over concatenation, so the kept words stay in their order |
| App.Storage.constructor | app.js:31-34 | the stored list, or an empty one when nothing is stored |
| App.Storage.AddFavorite | app.js:38-44 | a listed word leaves the list unchanged, any other word is appended; the word is a favourite afterwards, and a list without duplicates stays without |
| App.Storage.RemoveFavorite | app.js:45-49 | every occurrence of the word is filtered out, so it is no longer a favourite; a list without duplicates stays without |
| App.Storage.IsFavorite | app.js:50-52 | true exactly when some position of the list holds the word |
| App.RootTexts | app.js:544 | one dash-free text per component of the query's entry |
| App.SpellingPass | app.js:535-539 | the first loop of `findSimilarWords` over the first n entries |
| App.SpellingPassMembers | app.js:535-539 | the first pass keeps exactly the entries whose word differs from the query and one is spelled inside the other |
| App.SpellingPassDistinct | app.js:535-539 | the first pass lists no word twice |
| App.SpellingPassPrefix | app.js:535-539 | the first pass over the first n entries depends only on those n entries |
| App.SpellingPassAppend | app.js:535-539 | the first pass over two joined databases is the pass over the first followed by the pass over the second, so matches keep database order and multiplicity |
| App.SpellingPassOne | app.js:536-537 | a single entry is kept exactly when its word differs from the query and one is spelled inside the other |
| App.SpellingPassInOrder | app.js:535-539 | the first pass lists its matches at strictly increasing database positions |
| App.RootPass | app.js:546-555 | the second loop of `findSimilarWords` over the first n entries, appending to what the first loop listed |
| App.RootPassAppends | app.js:546-555 | the root pass only appends, and only entries that are not the query, share a root text and were not listed yet |
| App.RootPassDistinct | app.js:546-555 | the root pass lists no word twice |
| App.RootPassComplete | app.js:546-555 | the root pass misses no entry other than the query that shares a root text |
| App.RootPassInOrder | app.js:546-555 | the entries the root pass appends come at strictly increasing database positions |
| App.RootPassAddsNoSpelling | app.js:535-555 | an entry the root pass adds is never a spelling match, since the first pass already listed all of those |
| App.Candidates | app.js:530-556 | the candidates are database entries other than the query, each one a spelling match or, when the query has an entry, an entry sharing a root text with it; spelling matches first, no word twice when the database has none; every spelling match is among them and, when the query has an entry, so is the word of every entry that shares a root text with it |
| App.CandidatesInOrder | app.js:530-556 | the candidates are the spelling matches in database order followed by the shared-root entries in database order |
| App.SimilarWords | app.js:558 | the first min(10, number of candidates) candidates: at most ten entries, every one from the database and not the query, spelling matches first, no word twice when the database has none |
| App.SpellingMatches | app.js:535-539 | the first loop computes the first pass |
| App.RootMatches | app.js:546-555 | the second loop computes the root pass |
| App.FindSimilarWords | app.js:530-558 | the method returns the list handed to the display |
| App.GetSourceLabel | app.js:331-339 | a known source gets its label from the table, and any other source is returned unchanged |

## Left out

- Network lookups, translation, `fetch` and every DOM and page handler in
  `app.js` and `enhanced_api.js` are not modelled: they are I/O.
- `localStorage`, JSON parsing and serialisation, `Blob`, `FileReader` and the
  download link are not modelled. Stored state is a constructor parameter. A
  parsed import file is an `Option` (`None` for a parse error). Saves are not
  modelled.
- `Date.now()` is not modelled: timestamps are parameters. The export
  file's `exportDate` is left out.
- The `RootAnalyzer.analyze` dispatch between the enhanced engine and
  `basicAnalyze` is left out. It depends on whether a global object exists at
  run time.
- The slim engine's prefix, suffix and root tables come from a data file that
  is not part of this model. They are parameters.
- `wordPatterns` in the learning state is left out: no modelled operation
  reads or writes it.
- JavaScript's reordering of integer-like object keys, and keys inherited
  from the object prototype, are left out. Tables hold text keys in insertion
  order.
- Case folding of non-ASCII letters is left out: `ToLower` lowers `A`-`Z`
  only.
- UTF-16 is left out. JavaScript's `length`, `substring`, `startsWith`,
  `endsWith`, `indexOf` and `Math.floor(length / 2)` count UTF-16 code units.
  A Dafny `string` is a sequence of Unicode scalar values. The two differ for
  characters outside the Basic Multilingual Plane: the `length <= 4` test and
  the midpoint split of `syllableSegmentation`
  (enhanced_root_analyzer_slim.js:171-180) count such a character as two
  units in the source and as one here.
- Malformed data is left out: `null` fields in stored or imported JSON, and
  dictionary entries without a `roots` list (every `DictEntry` has one).
- `importFavorites` and the export of favourites are left out: file I/O.
- `updateRootFrequency` resets a count of 0 (or any other falsy value) to 0
  before adding one. Counting a missing key as 0 gives the same result, so the
  reset is folded into `Count`.
- `Storage` re-reads local storage on every call. The model keeps the list in
  a field that the methods reassign, so a write by another page between two
  calls is not modelled.
- In the affix loops of `analyzeWordRoots`, the counter update sits after
  the loop in the model instead of just before the loop's `break`. Nothing
  happens between those two points, so the state after the loop is the same.
- The component's `meaning` is `undefined` only where `inferRoot` reads a
  correction. Other missing glosses, such as an empty table value, follow the
  code's truthiness tests (`if (this.roots[word])`, `labels[source] || source`).
