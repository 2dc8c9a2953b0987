/** The search endpoint: how often a term occurs among the tokens of the
    last analysis. It only reads the record the analysis endpoint keeps. */
module SearchController {
  import opened Wrappers
  import opened JsString
  import TextProcessing
  import AnalysisController

  /** The `term` query parameter. A repeated or bracketed parameter
      (`?term=a&term=b`, `?term[x]=a`) arrives as an array or an object. */
  datatype TermField = Missing | Term(s: string) | Structured

  datatype Response =
    | EmptyTerm      // status 400: the term is missing or blank
    | InvalidFormat  // status 400 from the application's error handler, code INVALID_JSON
    | Found(termFound: bool, occurrences: nat, lastAnalysisDate: Option<AnalysisController.Timestamp>)

  /** The HTTP status of an answer. */
  function Status(r: Response): nat {
    if r.Found? then 200 else 400
  }

  /** `words.filter(word => word === term).length`. */
  function CountEqual(words: seq<string>, term: string): (n: nat)
    ensures n <= |words|
    decreases |words|
  {
    if words == [] then 0
    else (if words[0] == term then 1 else 0) + CountEqual(words[1..], term)
  }

  /** The filter counts exactly the occurrences of the term. */
  lemma {:induction false} CountEqualOccurrences(words: seq<string>, term: string)
    ensures CountEqual(words, term) == multiset(words)[term]
    ensures CountEqual(words, term) > 0 <==> term in words
    decreases |words|
  {
    if words != [] {
      assert words == [words[0]] + words[1..];
      CountEqualOccurrences(words[1..], term);
    }
  }

  /** `searchTerm(req, res)` against the record `cache`. An array or object
      has no `trim`; the `TypeError` reaches the application's error
      handler. */
  function SearchTerm(cache: AnalysisController.Cache, term: TermField): (r: Response)
    ensures r.Found? ==> (r.termFound <==> r.occurrences > 0)
    ensures r.Found? ==> r.occurrences <= |cache.words|
  {
    match term
    case Missing => EmptyTerm
    case Structured => InvalidFormat
    case Term(t) =>
      if IsBlank(t) then EmptyTerm
      else if cache.text == "" then Found(false, 0, None)
      else
        var occurrences := CountEqual(cache.words, Lower(t));
        Found(occurrences > 0, occurrences, cache.analyzedAt)
  }

  /** A missing or blank term is rejected; before any text was recorded
      the answer is "not found" with no date; otherwise the answer counts
      the recorded tokens equal to the lower-cased term and carries the
      date of the analysis. */
  lemma SearchSpec(cache: AnalysisController.Cache, term: TermField)
    ensures var r := SearchTerm(cache, term);
      && (r == EmptyTerm <==> term.Missing? || (term.Term? && IsBlank(term.s)))
      && (r == InvalidFormat <==> term.Structured?)
      && (Status(r) == 200 <==> term.Term? && !IsBlank(term.s))
      && (term.Term? && !IsBlank(term.s) && cache.text == "" ==> r == Found(false, 0, None))
      && (term.Term? && !IsBlank(term.s) && cache.text != "" ==>
            && r.Found?
            && r.occurrences == multiset(cache.words)[Lower(term.s)]
            && (r.termFound <==> Lower(term.s) in cache.words)
            && r.lastAnalysisDate == cache.analyzedAt)
  {
    if term.Term? && !IsBlank(term.s) && cache.text != "" {
      CountEqualOccurrences(cache.words, Lower(term.s));
    }
  }

  /** Letter case does not matter to the search: the term is lower-cased,
      and the recorded tokens are lower case already. */
  lemma SearchIgnoresCase(cache: AnalysisController.Cache, t: string)
    ensures SearchTerm(cache, Term(Lower(t))) == SearchTerm(cache, Term(t))
  {
    forall i | 0 <= i < |t| ensures Lower(Lower(t))[i] == Lower(t)[i] {
      LowerCharIdempotent(t[i]);
    }
    assert Lower(Lower(t)) == Lower(t);
    assert IsBlank(Lower(t)) <==> IsBlank(t) by {
      assert forall i :: 0 <= i < |t| ==> (IsSpace(Lower(t)[i]) <==> IsSpace(t[i]));
    }
  }

  /** Only whole tokens are found: a term of at most two characters, or one
      holding a character that is not a token character once lower-cased
      (punctuation, a space between two words), never matches a token. */
  lemma UntokenlikeTermNotFound(cache: AnalysisController.Cache, text: string, t: string)
    requires cache.words == TextProcessing.CleanAndTokenize(text)
    requires |t| <= 2 || exists k :: 0 <= k < |t| && !TextProcessing.IsTokenChar(LowerChar(t[k]))
    ensures SearchTerm(cache, Term(t)).Found? ==> !SearchTerm(cache, Term(t)).termFound
  {
    CountEqualOccurrences(cache.words, Lower(t));
    if |t| > 2 {
      var k :| 0 <= k < |t| && !TextProcessing.IsTokenChar(LowerChar(t[k]));
      assert !TextProcessing.IsTokenChar(Lower(t)[k]);
    }
    assert Lower(t) !in cache.words;
  }
}
