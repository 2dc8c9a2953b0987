# Text analyzer: the analysis pipeline in Dafny

This project models the core of a small text-analysis web service:

- **Text processing.** The service lower-cases a text, replaces punctuation with spaces, and splits it into tokens longer than two characters. It drops stopwords, counts the remaining words in a plain object, and ranks them by count with a stable sort.
- **Sentiment.** The service sends the first 512 characters of the text to a remote classifier. It translates the reply's labels to Portuguese, turns the scores into percentages and picks the dominant label. When the reply cannot be used, it falls back to a keyword count over the whole text.
- **Analysis and search endpoints.** `analyze-text` validates the request and answers with the statistics. It then overwrites a one-slot record of the last analysis. `search-term` counts the occurrences of a term among the tokens of that record.

The model is written with pure functions over immutable values:

| module | what it models |
|---|---|
| `Wrappers` | `Option` and `Min`. |
| `JsString` | The JavaScript string primitives the code uses: the `\s` class (`IsSpace`), `toLowerCase` (`LowerChar`, `Lower`), `trim() === ''` (`IsBlank`) and `split(/\s+/)` (`Split`). `Split` is exact, including the empty pieces produced at the ends. |
| `Sorting` | `Array.prototype.sort` with a numeric comparator, as a stable insertion sort by an integer key. |
| `JsObject` | A plain object used as a string-keyed table. Keys are kept in creation order. Assigning to an existing key updates it in place. `Object.entries` lists the array-index keys first, in ascending numeric order, then the other keys in creation order. |
| `TextProcessing` | `cleanAndTokenize` and `removeStopwords`. |
| `WordCount` | `countWords` and `getTopWords`. |
| `Sentiment` | The normalization of the classifier's reply, the dominant label, and `fallbackSentiment`. |
| `AnalysisController` | `analyzeText` and the `lastAnalysisCache` record. |
| `SearchController` | `searchTerm`. |
| `Service` | The two endpoints served one request after another on the shared record. |

Some things are not computed by the model; they are parameters:

- The classifier is a function from the text sent to the reply received. The `Reply` datatype covers every way the request can go wrong: the request fails, the body is not an array, the body is empty, or an element cannot be iterated or read.
- The stopword list is a set of strings.
- The clock is a time stamp passed to each analysis.

Percentages are integers in hundredths: 6309 stands for 63.09. `Math.round(x)` is `Floor(x + 1/2)`.

Three behaviours of the code decide results that are easy to get wrong:

- **Dominant-label ties.** A tie for the greatest percentage goes to the *later* entry of `Object.entries`. The comparison in the `reduce` at `src/services/sentimentService.js:28` is strict, so the running choice is kept only when it is greater. An entry's position is fixed when its label first occurs in the reply: a label repeated later keeps its place. See `Sentiment.TieGoesToLatestFirstOccurrence`, `Sentiment.TieGoesToLaterLabel` and `Sentiment.TieKeepsCreationOrder`.
- **Which text is used.** The classifier receives only the first 512 characters (`src/services/sentimentService.js:5`). The keyword fallback runs on the whole text (`src/services/sentimentService.js:33,37`). See `Sentiment.RemoteSeesPrefix` and `Sentiment.SummarizeSource`.
- **Ranking ties.** Equal counts keep their `Object.entries` order, because `Array.prototype.sort` is stable. That order puts array-index keys such as `"2024"` ahead of every other key, whatever the insertion order. See `WordCount.RankingStable` and `JsObject.EntriesOrder`. Without such keys it is the order of first occurrence (`JsObject.EntriesInCreationOrder`, `WordCount.CountWordsFirstOccurrence`).

## Model

| member | source | states |
|---|---|---|
| JsString.LowerChar | src/services/textProcessingService.js:4 | Lower-casing leaves no ASCII capital letter and keeps white space as white space. |
| JsString.LowerCharIdempotent | src/services/textProcessingService.js:4 | Lower-casing a character twice is the same as lower-casing it once. |
| JsString.LowerConcat | src/services/textProcessingService.js:4 | `toLowerCase` of a concatenation is the concatenation of the lower-cased parts. |
| JsString.SplitPieces | src/services/textProcessingService.js:5 | No piece of `split(/\s+/)` contains white space, and every piece is made of characters of the input. |
| JsString.SplitWord | src/services/textProcessingService.js:5 | A string without white space splits into exactly itself. |
| JsString.SplitWordThen | src/services/sentimentService.js:45 | A word, one space and a rest that does not start with white space split into the word followed by the pieces of the rest. |
| JsString.SplitBlank | src/services/textProcessingService.js:5 | A blank string splits into empty pieces only. |
| JsString.DropSpacesSuffix | src/services/textProcessingService.js:5 | Skipping a separator run removes exactly a prefix of white space; what remains starts with a non-space character or is empty. |
| Sorting.SortByPermutes | src/services/textProcessingService.js:20 | Sorting adds or loses no element. |
| Sorting.SortBySorted | src/services/textProcessingService.js:20 | The sorted sequence is in ascending key order. |
| Sorting.SortByStable | src/services/textProcessingService.js:20 | For every key, the elements with that key keep their relative order. |
| Sorting.InsertSorted | src/services/textProcessingService.js:20 | Inserting into a sorted sequence keeps it sorted. |
| JsObject.GetDefined | src/services/textProcessingService.js:14 | `o[k]` is defined exactly when some entry has key `k`. |
| JsObject.GetFound | src/services/textProcessingService.js:14 | A value that `o[k]` finds belongs to an entry of `o` with key `k`. |
| JsObject.Put | src/services/textProcessingService.js:14 | After `o[k] = v`, `k` holds `v` and every other key holds what it held before. |
| JsObject.PutKeys | src/services/textProcessingService.js:14 | Assignment keeps the existing keys at their positions. A new key is appended as the last entry. |
| JsObject.PutDistinct | src/services/textProcessingService.js:14 | Assignment never creates a second entry for a key. |
| JsObject.GetEntry | src/services/sentimentService.js:30 | In a table with distinct keys, every entry is what a lookup of its key finds. |
| JsObject.PutSum | src/services/textProcessingService.js:14 | Assignment changes the sum of the values by the new value minus the old one. |
| JsObject.EntriesPermutes | src/services/textProcessingService.js:19 | `Object.entries` lists every entry exactly once. |
| JsObject.EntriesOrder | src/services/textProcessingService.js:19 | `Object.entries` lists array-index keys first, in ascending numeric order, then the other keys in creation order. |
| JsObject.EntriesInCreationOrder | src/services/sentimentService.js:28 | Without array-index keys, `Object.entries` is the creation order. |
| TextProcessing.Clean | src/services/textProcessingService.js:4 | The replacement turns each character into exactly one character. |
| TextProcessing.CleanedText | src/services/textProcessingService.js:4 | The cleaned text keeps the length of the input. A position holds the lower-cased input character when that character is a token character, and white space otherwise. |
| TextProcessing.TokenCharIsLower | src/services/textProcessingService.js:4 | A token character is unchanged by lower-casing. |
| TextProcessing.KeepLong | src/services/textProcessingService.js:5 | The filter keeps only pieces longer than two characters, all taken from its input. |
| TextProcessing.KeepLongSpec | src/services/textProcessingService.js:5 | The filter keeps exactly the pieces longer than two characters: the result is a subsequence of the pieces and holds every occurrence of every longer piece. |
| TextProcessing.CleanAndTokenize | src/services/textProcessingService.js:3-6 | Every token is longer than two characters. It is made only of `a`-`z`, digits, `_` and the 22 accented letters: no white space, no capital letter, no `ç`. |
| TextProcessing.TokenizeConcat | src/services/textProcessingService.js:4-5 | A character that is not a token character once lower-cased splits the text into the tokens before it and the tokens after it, so words are never fused across punctuation. |
| TextProcessing.TokenizeWord | src/services/textProcessingService.js:4-5 | A run of token characters is one token, lower-cased, when it is longer than two characters, and no token otherwise. A run already in lower case is its own token. |
| TextProcessing.TokenizeNoWords | src/services/textProcessingService.js:4-5 | Empty, blank or all-punctuation text has no tokens. |
| TextProcessing.TokenizeLowered | src/services/textProcessingService.js:4 | Tokenizing does not depend on letter case. |
| TextProcessing.RemoveStopwords | src/services/textProcessingService.js:8-10 | The result is an order-preserving subsequence of the input. It holds no stopword, and it keeps every occurrence of every other word. |
| TextProcessing.RemoveNoStopwords | src/services/textProcessingService.js:8-10 | Words without stopwords pass the filter unchanged. |
| TextProcessing.RemoveStopwordsIdempotent | src/services/textProcessingService.js:8-10 | Filtering a second time changes nothing. |
| WordCount.CountWordsCounts | src/services/textProcessingService.js:12-16 | The table has one entry per distinct word, holding that word's number of occurrences, and no other entry. |
| WordCount.CountWordsSum | src/services/textProcessingService.js:12-16 | The counts add up to the number of words. |
| WordCount.CountWordsFirstOccurrence | src/services/textProcessingService.js:12-16 | The table lists its words in the order of their first occurrence. |
| JsObject.FirstIndexSpec | src/services/textProcessingService.js:14 | `FirstIndex` is the position of the first occurrence of a word, or the length when the word is absent. |
| WordCount.RankingDescends | src/services/textProcessingService.js:19-20 | The sorted entries are the table's entries, in non-increasing count order. |
| WordCount.RankingStable | src/services/textProcessingService.js:19-20 | Entries with equal counts keep their `Object.entries` order. |
| WordCount.GetTopWords | src/services/textProcessingService.js:18-23 | The result has exactly `min(limit, number of keys)` entries, with no padding. Each entry is a (word, count) pair of the table, and the counts do not increase. |
| WordCount.TopWordsAreTop | src/services/textProcessingService.js:18-23 | A table entry missing from the result means the result is full, and the entry counts no more than the last word kept. |
| WordCount.TopWordsTieOrder | src/services/textProcessingService.js:19-21 | For each count, the kept words with that count are a prefix of the table's words with that count, in `Object.entries` order. |
| WordCount.TopWordsTieExample | src/services/textProcessingService.js:18-23 | For tokens `a b a b` and limit 2 the result is `a:2, b:2`, when neither word is an array index. |
| Sentiment.Truncate | src/services/sentimentService.js:5 | The classifier gets a prefix of the text of length `min(512, length)`. |
| Sentiment.TruncateShort | src/services/sentimentService.js:5 | A text of at most 512 characters is sent whole, and truncating twice is the same as truncating once. |
| Sentiment.Percent | src/services/sentimentService.js:25 | The percentage is `score * 10000` rounded half up to an integer number of hundredths. |
| Sentiment.PercentMonotonic | src/services/sentimentService.js:25 | A higher score never gets a lower percentage, and a score in [0, 1] gets a percentage in [0, 100]. |
| Sentiment.PercentExamples | src/services/sentimentService.js:25 | 0.6309 becomes 63.09, and a half hundredth rounds up. |
| Sentiment.PortugueseLabels | src/services/sentimentService.js:14-24 | The five English labels map to their Portuguese names, and any other label is kept. |
| Sentiment.ScoresFromSpec | src/services/sentimentService.js:22-26 | The loop completes exactly when every item is readable. The keys stay distinct, and each label holds the percentage of the last item that carries it. |
| Sentiment.ScoresSpec | src/services/sentimentService.js:22-26 | The scores table exists exactly when every item is readable. It has one entry per label, holding the percentage of the label's last item, and it is empty exactly when there are no items. Its keys are labels of the reply, listed in the order in which each label first occurs. |
| Sentiment.ScoresFromOrder | src/services/sentimentService.js:23-26 | Starting from a table whose keys are exactly the labels seen so far, in first-occurrence order, the loop ends with the keys of all labels seen, still in first-occurrence order. |
| Sentiment.OrderedPut | src/services/sentimentService.js:25 | One assignment keeps the keys in first-occurrence order: a new label is appended, and a repeated label keeps its place. |
| Sentiment.DominantFromSpec | src/services/sentimentService.js:28 | Continuing the `reduce` from a running choice that is the last maximum of a prefix ends on the last maximum of the whole list. |
| Sentiment.DominantIsLastMaximum | src/services/sentimentService.js:28 | The dominant entry is the last entry holding the greatest value. |
| Sentiment.DominantOfTwo | src/services/sentimentService.js:28 | Of two entries the second wins unless the first is strictly greater. |
| Sentiment.DominantOfTable | src/services/sentimentService.js:28-30 | The dominant pair of a table with distinct keys is one of its entries, and no entry holds more. |
| Sentiment.SummarizeSource | src/services/sentimentService.js:13-38 | The summary comes from the classifier exactly when the reply is usable. Otherwise it is the fallback over the whole text, and it is never an error. |
| Sentiment.SummarizeRemote | src/services/sentimentService.js:22-30 | A classifier summary reports the label of the greatest percentage with that percentage as its confidence, so `all_scores[sentiment] == confidence`. Every label of the reply appears in `all_scores` with the percentage of its last item, and `api_used` is `Hugging Face`. The keys are in first-occurrence order, and the reported pair is the last entry of `Object.entries` holding the greatest percentage. |
| Sentiment.SummarizeUsable | src/services/sentimentService.js:13-30 | A usable reply gives the dominant entry of its scores table, together with the table and `Hugging Face`. |
| Sentiment.RemoteSeesPrefix | src/services/sentimentService.js:5-9 | Two texts that agree on their first 512 characters get the same classifier summary. |
| Sentiment.TieGoesToLaterLabel | src/services/sentimentService.js:28 | `Positive` and `Negative` with equal scores give `Negativo`: the later entry wins the tie. |
| Sentiment.TieGoesToLatestFirstOccurrence | src/services/sentimentService.js:22-28 | When no label is an array index, a label tied at the reported percentage first occurs in the reply no later than the reported label. |
| Sentiment.LastMaximumFirstOccurrence | src/services/sentimentService.js:28 | In a table in first-occurrence order, an entry tied with the last maximum first occurs no later than it. |
| Sentiment.TieKeepsCreationOrder | src/services/sentimentService.js:22-28 | `Positive`, `Negative`, `Positive` with equal scores give `Negativo`: repeating `Positive` does not move its key. |
| Sentiment.CountInSpec | src/services/sentimentService.js:46-47 | The words counted and the words a filter for the same set keeps add up to all the words. For a one-word lexicon the count is that word's number of occurrences. The count is zero exactly when no word is in the lexicon. |
| Sentiment.CountInConcat | src/services/sentimentService.js:46-47 | The count over a concatenation is the sum of the counts over the parts. |
| Sentiment.CountDisjoint | src/services/sentimentService.js:46-47 | The counts over two disjoint lexicons together never exceed the number of words: no word is counted twice. |
| Sentiment.RoundShareSpec | src/services/sentimentService.js:55-62 | The share is `10000 * part / total` rounded half up. A strict majority gets at least 50%, and no share exceeds 100%. |
| Sentiment.FallbackSentiment | src/services/sentimentService.js:41-63 | The fallback is tagged `Fallback simples` and carries no `all_scores`. Its sentiment is `Positivo`, `Negativo` or `Neutro`. |
| Sentiment.FallbackSpec | src/services/sentimentService.js:45-62 | `Positivo` exactly when more positive words occur, `Negativo` in the opposite case, and `Neutro` on a tie or when there are none. The confidence is the majority's share, or 50% for `Neutro`, and lies between 50% and 100%. The positive and negative lexicons are disjoint, so the two counts together never exceed the number of words. |
| Sentiment.FallbackExample | src/services/sentimentService.js:41-63 | `"bom bom péssimo"` gives `Positivo` at 66.67%. |
| Sentiment.FallbackIgnoresCase | src/services/sentimentService.js:45 | The fallback does not depend on letter case. |
| AnalysisController.AnalyzeText | src/controllers/analysisController.js:6-49 | A rejected request leaves the record unchanged. An analysis records the same time stamp it returns. |
| AnalysisController.Analyze | src/controllers/analysisController.js:24-40 | An analysis records the time stamp it answers with. |
| AnalysisController.Validation | src/controllers/analysisController.js:10-23 | Missing, falsy or blank text gets 400 `INVALID_INPUT`. Longer non-blank text gets 413 `TEXT_TOO_LONG`, and exactly 5000 characters is accepted. A truthy non-string gets 500 `INTERNAL_SERVER_ERROR`. Only accepted texts are analyzed. |
| AnalysisController.BlankBeforeLength | src/controllers/analysisController.js:10-23 | White space longer than 5000 characters gets 400, not 413. |
| AnalysisController.AnalysisResult | src/controllers/analysisController.js:24-40 | The response holds the token count before stopword removal, the top words, the sentiment of the original text and the time stamp. The record becomes the lower-cased text, all its tokens and that time stamp, with non-empty text. |
| AnalysisController.TopWordsOfText | src/controllers/analysisController.js:24-28 | There are at most five top words, all tokens of the text and none a stopword. Each carries its number of occurrences after stopword removal, most frequent first. |
| AnalysisController.StopwordsNotRanked | src/controllers/analysisController.js:25-28 | A stopword is never among the top words. |
| SearchController.CountEqual | src/controllers/searchController.js:15 | The number of matches never exceeds the number of tokens. |
| SearchController.CountEqualOccurrences | src/controllers/searchController.js:15 | The filter counts exactly the occurrences of the term, and the count is positive exactly when the term occurs. |
| SearchController.SearchTerm | src/controllers/searchController.js:3-21 | `term_found` holds exactly when `occurrences > 0`, and `occurrences` never exceeds the number of recorded tokens. |
| SearchController.SearchSpec | src/controllers/searchController.js:6-21 | A missing or blank term is rejected, and the status is 200 exactly for a non-blank string term. With no recorded text the answer is `false, 0, null`. Otherwise `occurrences` is the number of recorded tokens equal to the lower-cased term, and the date is that of the record. |
| SearchController.SearchIgnoresCase | src/controllers/searchController.js:15 | A term and its lower-cased form get the same answer. |
| SearchController.UntokenlikeTermNotFound | src/controllers/searchController.js:15 | A term of at most two characters, or one with punctuation or white space, is never found. |
| Service.StepEffect | src/controllers/analysisController.js:10-33 | Searches and rejected analyses leave the record unchanged. An accepted analysis replaces it, whatever it held, with the record of its own text. |
| Service.InitialCacheValid | src/controllers/analysisController.js:4 | The initial record, with empty text, no tokens and no date, satisfies the record invariant. |
| Service.StepPreservesValid | src/controllers/analysisController.js:24-33 | Every request keeps the record invariant: the tokens are those of the recorded text, and a text is recorded exactly when a date is. |
| Service.RunPreservesValid | src/controllers/analysisController.js:33 | The invariant holds after any sequence of requests. |
| Service.NoWritesNoChange | src/controllers/searchController.js:10-21 | Searches and rejected analyses never change the record. |
| Service.LastAnalysisWins | src/controllers/analysisController.js:33 | The record is that of the last accepted analysis, with nothing merged from earlier ones. |
| Service.SearchAfterAnalysis | src/controllers/searchController.js:10-21 | Right after an accepted analysis, a search counts the lower-cased term among all the text's tokens, whatever the stopword list and the earlier record, dated with that analysis. |
| Service.StopwordStillFound | src/controllers/analysisController.js:24-33 | A stopword of the text is missing from the top words but is still found by the search. |
| Service.SearchBeforeAnyAnalysis | src/controllers/analysisController.js:4 | Until a text is accepted, every search answers not found, with no date. |

## Left out

- The HTTP request to the classifier, its API key and 30-second timeout, and the error logging: the classifier is a function parameter, and a failed request is the `Failed` reply.
- `new Date().toISOString()`: the time stamp is a parameter.
- The contents of `STOPWORDS`: `src/utils/stopwords` is not part of this model, and the stopword list is a set parameter.
- Sentiment.Percent: computes on exact reals, not IEEE doubles. A score whose product with 10000 the double arithmetic rounds across a half may differ by one hundredth.
- Sentiment.RoundShareSpec: computes the fallback share in exact rational arithmetic, not as `(count / total) * 100` in doubles followed by `Math.round(x * 100) / 100`.
- JsString.LowerChar: lower-cases only ASCII and Latin-1 capitals. The other Unicode case mappings of `toLowerCase` are not modelled.
- JsString.Lower: treats a string as a sequence of code points. JavaScript counts UTF-16 code units, so the 512- and 5000-character limits and `substring` differ for characters outside the Basic Multilingual Plane.
- Object keys that collide with `Object.prototype` properties, such as `constructor` or `__proto__`, are treated as ordinary keys. `countWords` and the label lookup behave differently on them.
- Labels that are not strings, and scores that are not numbers: an item is a string label with a real score, or unreadable.
- The error messages and `details` texts of the error responses, and the `error.message` appended to the 500 message: only status and code are modelled.
- A request body that is not parsed (`req.body` undefined): the `text` field is missing, a string, or another JSON value.
- Concurrent requests: `analyzeText` awaits the classifier, so two analyses can overlap and write the record in either order. The model serves requests one after another.
- Express routing, CORS, rate limiting, the 404 handler, Swagger and the server start-up. The application's error handler appears only as the `InvalidFormat` answer, for a `term` that is an array or an object (`src/app.js:29-36`).
