/** The analysis endpoint: the request is validated, the text's words are
    counted and ranked, its sentiment is summarized, and the analysis is
    recorded as the last one for the search endpoint. */
module AnalysisController {
  import opened Wrappers
  import opened JsString
  import TextProcessing
  import WordCount
  import Sentiment
  import JsObject

  /** An ISO 8601 time stamp, as `new Date().toISOString()` writes it. */
  type Timestamp = string

  /** The `text` field of the JSON request body. */
  datatype TextField =
    | Absent                 // missing, or `null`
    | Text(s: string)
    | NotText(falsy: bool)   // a number, boolean, array or object; `falsy` for `0` and `false`

  /** `lastAnalysisCache`: the lower-cased text of the last analysis, all of
      its tokens and when it was made. */
  datatype Cache = Cache(text: string, words: seq<string>, analyzedAt: Option<Timestamp>)

  /** The record before any analysis. */
  const InitialCache := Cache("", [], None)

  /** The longest text accepted, in characters. */
  const MaxLength := 5000

  /** How many of the most frequent words are reported. */
  const TopCount := 5

  datatype Response =
    | Error(status: nat, code: string)
    | Analysis(totalWords: nat, topWords: seq<WordCount.RankedWord>,
               sentimentSummary: Sentiment.Summary, analyzedAt: Timestamp)

  const InvalidInput := Error(400, "INVALID_INPUT")
  const TextTooLong := Error(413, "TEXT_TOO_LONG")
  const InternalError := Error(500, "INTERNAL_SERVER_ERROR")

  /** The response and the record left behind. */
  datatype Outcome = Outcome(response: Response, cache: Cache)

  /** `!text || text.trim() === ''`: the field gives no text to analyze. */
  predicate IsEmptyInput(field: TextField) {
    || field.Absent?
    || field == NotText(true)
    || (field.Text? && IsBlank(field.s))
  }

  /** A text the endpoint analyzes: not blank, and short enough. */
  predicate Accepted(text: string) {
    !IsBlank(text) && |text| <= MaxLength
  }

  /** The statistics of an accepted text: the number of tokens before
      stopword removal and the ranking of the words left after it. */
  function TopWords(text: string, stopwords: set<string>): seq<WordCount.RankedWord> {
    var allWords := TextProcessing.CleanAndTokenize(text);
    var filtered := TextProcessing.RemoveStopwords(allWords, stopwords);
    WordCount.GetTopWords(WordCount.CountWords(filtered), TopCount)
  }

  /** `analyzeText(req, res)` on the record `cache`, with the stopword list,
      the sentiment classifier and the clock as parameters. A truthy value
      that is not a string has no `trim`, and the `TypeError` is answered
      with status 500. */
  function AnalyzeText(cache: Cache, field: TextField, stopwords: set<string>,
                       classify: string -> Sentiment.Reply, now: Timestamp): (out: Outcome)
    ensures out.response.Error? ==> out.cache == cache
    ensures out.response.Analysis? ==> out.cache.analyzedAt == Some(out.response.analyzedAt)
  {
    match field
    case Absent => Outcome(InvalidInput, cache)
    case NotText(falsy) => Outcome(if falsy then InvalidInput else InternalError, cache)
    case Text(text) =>
      if IsBlank(text) then Outcome(InvalidInput, cache)
      else if |text| > MaxLength then Outcome(TextTooLong, cache)
      else Analyze(text, stopwords, classify, now)
  }

  /** The analysis of an accepted text. */
  function Analyze(text: string, stopwords: set<string>,
                   classify: string -> Sentiment.Reply, now: Timestamp): (out: Outcome)
    ensures out.response.Analysis? && out.cache.analyzedAt == Some(out.response.analyzedAt)
  {
    var allWords := TextProcessing.CleanAndTokenize(text);
    Outcome(Analysis(|allWords|, TopWords(text, stopwords), Sentiment.AnalyzeSentiment(text, classify), now),
            Cache(Lower(text), allWords, Some(now)))
  }

  /** The checks run in order: an empty or blank text is rejected with 400
      whatever its length, a longer text with 413, a truthy non-string with
      500, and every other request is analyzed. */
  lemma Validation(cache: Cache, field: TextField, stopwords: set<string>,
                   classify: string -> Sentiment.Reply, now: Timestamp)
    ensures var r := AnalyzeText(cache, field, stopwords, classify, now).response;
      && (r == InvalidInput <==> IsEmptyInput(field))
      && (r == TextTooLong <==> field.Text? && !IsBlank(field.s) && |field.s| > MaxLength)
      && (r == InternalError <==> field == NotText(false))
      && (r.Analysis? <==> field.Text? && Accepted(field.s))
  {
  }

  /** A text of white space only is an invalid input even past 5000
      characters: the blank check comes first. */
  lemma BlankBeforeLength(cache: Cache, n: nat, stopwords: set<string>,
                          classify: string -> Sentiment.Reply, now: Timestamp)
    ensures AnalyzeText(cache, Text(seq(MaxLength + 1 + n, _ => ' ')), stopwords, classify, now).response
         == InvalidInput
  {
    var text := seq(MaxLength + 1 + n, _ => ' ');
    assert IsBlank(text);
  }

  /** An accepted text is answered with its token count, its top words and
      its sentiment summary, and replaces the record with its lower-cased
      text, all of its tokens and the time of the analysis. */
  lemma AnalysisResult(cache: Cache, text: string, stopwords: set<string>,
                       classify: string -> Sentiment.Reply, now: Timestamp)
    requires Accepted(text)
    ensures AnalyzeText(cache, Text(text), stopwords, classify, now)
         == Outcome(Analysis(|TextProcessing.CleanAndTokenize(text)|, TopWords(text, stopwords),
                             Sentiment.AnalyzeSentiment(text, classify), now),
                    Cache(Lower(text), TextProcessing.CleanAndTokenize(text), Some(now)))
    ensures AnalyzeText(cache, Text(text), stopwords, classify, now).cache.text != ""
  {
    assert AnalyzeText(cache, Text(text), stopwords, classify, now) == Analyze(text, stopwords, classify, now);
    assert |text| > 0;
  }

  /** The top words are at most five words of the text that are not
      stopwords, each with its number of occurrences after stopword removal,
      most frequent first; together they never outnumber the tokens. */
  lemma TopWordsOfText(text: string, stopwords: set<string>)
    ensures var allWords := TextProcessing.CleanAndTokenize(text);
      var filtered := TextProcessing.RemoveStopwords(allWords, stopwords);
      var top := TopWords(text, stopwords);
      && |top| <= TopCount
      && (forall i :: 0 <= i < |top| ==> top[i].word in allWords && top[i].word !in stopwords)
      && (forall i :: 0 <= i < |top| ==> top[i].count == multiset(filtered)[top[i].word])
      && (forall i, j :: 0 <= i < j < |top| ==> top[i].count >= top[j].count)
  {
    var allWords := TextProcessing.CleanAndTokenize(text);
    var filtered := TextProcessing.RemoveStopwords(allWords, stopwords);
    var table := WordCount.CountWords(filtered);
    var top := TopWords(text, stopwords);
    WordCount.CountWordsCounts(filtered);
    forall i | 0 <= i < |top|
      ensures top[i].word in filtered && top[i].count == multiset(filtered)[top[i].word]
    {
      JsObject.GetEntry(table, (top[i].word, top[i].count));
      assert JsObject.Get(table, top[i].word) == WordCount.Occurrences(filtered, top[i].word);
    }
    forall i | 0 <= i < |top| ensures top[i].word in allWords {
      assert multiset(filtered)[top[i].word] == multiset(allWords)[top[i].word];
    }
  }

  /** A stopword is never among the top words. */
  lemma StopwordsNotRanked(text: string, stopwords: set<string>, w: string)
    requires w in stopwords
    ensures forall r :: r in TopWords(text, stopwords) ==> r.word != w
  {
    var top := TopWords(text, stopwords);
    TopWordsOfText(text, stopwords);
    forall r | r in top ensures r.word != w {
      var i :| 0 <= i < |top| && top[i] == r;
    }
  }
}
