/** The two endpoints sharing the record of the last analysis. Requests are
    served one after the other; only an accepted analysis writes the
    record, and the search endpoint only reads it. */
module Service {
  import opened Wrappers
  import opened JsString
  import TextProcessing
  import Sentiment
  import AnalysisController
  import SearchController

  datatype Request =
    | AnalyzeRequest(field: AnalysisController.TextField, now: AnalysisController.Timestamp)
    | SearchRequest(term: SearchController.TermField)

  /** The record as the analysis endpoint keeps it: its tokens are those of
      its text, and a text is recorded exactly when a date is. */
  predicate ValidCache(c: AnalysisController.Cache) {
    && c.words == TextProcessing.CleanAndTokenize(c.text)
    && (c.text == "" <==> c.analyzedAt.None?)
  }

  /** The record an accepted analysis of `text` at `now` leaves. */
  function Recorded(text: string, now: AnalysisController.Timestamp): AnalysisController.Cache {
    AnalysisController.Cache(Lower(text), TextProcessing.CleanAndTokenize(text), Some(now))
  }

  /** The request writes the record: it is an analysis of an accepted text. */
  predicate Writes(req: Request) {
    req.AnalyzeRequest? && req.field.Text? && AnalysisController.Accepted(req.field.s)
  }

  /** The record after serving one request. */
  function Step(c: AnalysisController.Cache, req: Request, stopwords: set<string>,
                classify: string -> Sentiment.Reply): AnalysisController.Cache
  {
    match req
    case AnalyzeRequest(field, now) => AnalysisController.AnalyzeText(c, field, stopwords, classify, now).cache
    case SearchRequest(_) => c
  }

  /** The record after serving `requests` in order. */
  function Run(c: AnalysisController.Cache, requests: seq<Request>, stopwords: set<string>,
               classify: string -> Sentiment.Reply): AnalysisController.Cache
    decreases |requests|
  {
    if requests == [] then c
    else Step(Run(c, requests[..|requests| - 1], stopwords, classify), requests[|requests| - 1], stopwords, classify)
  }

  /** A request that does not write leaves the record as it was; one that
      writes replaces it, whatever it held, by the record of its text. */
  lemma StepEffect(c: AnalysisController.Cache, req: Request, stopwords: set<string>,
                   classify: string -> Sentiment.Reply)
    ensures !Writes(req) ==> Step(c, req, stopwords, classify) == c
    ensures Writes(req) ==> Step(c, req, stopwords, classify) == Recorded(req.field.s, req.now)
  {
    if req.AnalyzeRequest? {
      AnalysisController.Validation(c, req.field, stopwords, classify, req.now);
      if Writes(req) {
        AnalysisController.AnalysisResult(c, req.field.s, stopwords, classify, req.now);
      }
    }
  }

  /** The record starts valid. */
  lemma InitialCacheValid()
    ensures ValidCache(AnalysisController.InitialCache)
  {
    TextProcessing.TokenizeNoWords("");
  }

  /** Every request keeps the record valid. */
  lemma StepPreservesValid(c: AnalysisController.Cache, req: Request, stopwords: set<string>,
                           classify: string -> Sentiment.Reply)
    requires ValidCache(c)
    ensures ValidCache(Step(c, req, stopwords, classify))
  {
    StepEffect(c, req, stopwords, classify);
    if Writes(req) {
      TextProcessing.TokenizeLowered(req.field.s);
      assert |req.field.s| > 0;
    }
  }

  /** The record stays valid over any sequence of requests. */
  lemma {:induction false} RunPreservesValid(c: AnalysisController.Cache, requests: seq<Request>,
                                             stopwords: set<string>, classify: string -> Sentiment.Reply)
    requires ValidCache(c)
    ensures ValidCache(Run(c, requests, stopwords, classify))
    decreases |requests|
  {
    if requests != [] {
      RunPreservesValid(c, requests[..|requests| - 1], stopwords, classify);
      StepPreservesValid(Run(c, requests[..|requests| - 1], stopwords, classify),
                         requests[|requests| - 1], stopwords, classify);
    }
  }

  /** Searches and rejected analyses never change the record. */
  lemma {:induction false} NoWritesNoChange(c: AnalysisController.Cache, requests: seq<Request>,
                                            stopwords: set<string>, classify: string -> Sentiment.Reply)
    requires forall j :: 0 <= j < |requests| ==> !Writes(requests[j])
    ensures Run(c, requests, stopwords, classify) == c
    decreases |requests|
  {
    if requests != [] {
      var init := requests[..|requests| - 1];
      assert forall j :: 0 <= j < |init| ==> init[j] == requests[j];
      NoWritesNoChange(c, init, stopwords, classify);
      StepEffect(c, requests[|requests| - 1], stopwords, classify);
    }
  }

  /** The last accepted analysis wins: after it, only searches and rejected
      analyses follow, and the record is that of its text, whatever came
      before. */
  lemma {:induction false} LastAnalysisWins(c: AnalysisController.Cache, requests: seq<Request>, i: nat,
                                            stopwords: set<string>, classify: string -> Sentiment.Reply)
    requires i < |requests| && Writes(requests[i])
    requires forall j :: i < j < |requests| ==> !Writes(requests[j])
    ensures Run(c, requests, stopwords, classify) == Recorded(requests[i].field.s, requests[i].now)
    decreases |requests|
  {
    var init := requests[..|requests| - 1];
    var last := requests[|requests| - 1];
    var before := Run(c, init, stopwords, classify);
    StepEffect(before, last, stopwords, classify);
    if i < |requests| - 1 {
      assert init[i] == requests[i];
      assert forall j :: i < j < |init| ==> init[j] == requests[j];
      LastAnalysisWins(c, init, i, stopwords, classify);
    }
  }

  /** A search right after an accepted analysis counts the term among all
      of that text's tokens, stopwords included, dated with that analysis,
      whatever the record held before and whatever the stopword list. */
  lemma SearchAfterAnalysis(c: AnalysisController.Cache, text: string, now: AnalysisController.Timestamp,
                            t: string, stopwords: set<string>, classify: string -> Sentiment.Reply)
    requires AnalysisController.Accepted(text) && !IsBlank(t)
    ensures var after := Step(c, AnalyzeRequest(AnalysisController.Text(text), now), stopwords, classify);
      var n := multiset(TextProcessing.CleanAndTokenize(text))[Lower(t)];
      SearchController.SearchTerm(after, SearchController.Term(t)) == SearchController.Found(n > 0, n, Some(now))
  {
    var req := AnalyzeRequest(AnalysisController.Text(text), now);
    StepEffect(c, req, stopwords, classify);
    var after := Recorded(text, now);
    assert |after.text| > 0;
    SearchController.SearchSpec(after, SearchController.Term(t));
    SearchController.CountEqualOccurrences(after.words, Lower(t));
  }

  /** A stopword of the text is left out of the top words but is still
      found by the search. */
  lemma StopwordStillFound(c: AnalysisController.Cache, text: string, now: AnalysisController.Timestamp,
                           t: string, stopwords: set<string>, classify: string -> Sentiment.Reply)
    requires AnalysisController.Accepted(text) && !IsBlank(t)
    requires Lower(t) in stopwords && Lower(t) in TextProcessing.CleanAndTokenize(text)
    ensures forall w :: w in AnalysisController.TopWords(text, stopwords) ==> w.word != Lower(t)
    ensures var after := Step(c, AnalyzeRequest(AnalysisController.Text(text), now), stopwords, classify);
      var r := SearchController.SearchTerm(after, SearchController.Term(t));
      r.Found? && r.termFound
  {
    AnalysisController.StopwordsNotRanked(text, stopwords, Lower(t));
    SearchAfterAnalysis(c, text, now, t, stopwords, classify);
  }

  /** Until a text is accepted, every search with a term answers "not
      found", with no occurrences and no date. */
  lemma SearchBeforeAnyAnalysis(requests: seq<Request>, t: string, stopwords: set<string>,
                                classify: string -> Sentiment.Reply)
    requires forall j :: 0 <= j < |requests| ==> !Writes(requests[j])
    requires !IsBlank(t)
    ensures var c := Run(AnalysisController.InitialCache, requests, stopwords, classify);
      SearchController.SearchTerm(c, SearchController.Term(t)) == SearchController.Found(false, 0, None)
  {
    NoWritesNoChange(AnalysisController.InitialCache, requests, stopwords, classify);
  }
}
