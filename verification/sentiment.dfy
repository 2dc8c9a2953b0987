/** The sentiment service: the reply of the remote multilingual classifier
    turned into a summary in Portuguese, and the keyword count used in its
    place whenever the reply cannot be used. The request itself is outside
    the model: the classifier is a parameter from the text it is sent to
    the reply it gives. */
module Sentiment {
  import opened Wrappers
  import opened JsString
  import JsObject
  import TextProcessing

  // ---------------------------------------------------------------------
  // The classifier's reply
  // ---------------------------------------------------------------------

  /** Only this many characters of the text are sent to the classifier. */
  const MaxInput := 512

  /** `text.substring(0, 512)`. */
  function Truncate(text: string): (prefix: string)
    ensures |prefix| == Min(MaxInput, |text|)
    ensures prefix <= text
  {
    text[..Min(MaxInput, |text|)]
  }

  /** Truncating a text that is short enough sends it whole, and truncating
      twice is truncating once. */
  lemma TruncateShort(text: string)
    ensures |text| <= MaxInput ==> Truncate(text) == text
    ensures Truncate(Truncate(text)) == Truncate(text)
  {
  }

  /** One `{ label, score }` element of the reply, its label as `tag`;
      `Unreadable` is an element whose properties cannot be read (`null`
      or `undefined`). */
  datatype Item = Item(tag: string, score: real) | Unreadable

  /** `response.data[0]`: an array of items, or a value without `forEach`. */
  datatype Batch = Items(items: seq<Item>) | NotIterable

  /** The outcome of the request to the classifier. */
  datatype Reply =
    | Failed                        // the request was rejected: network, timeout, error status
    | NotArray                      // `response.data` is missing or is not an array
    | Batches(batches: seq<Batch>)  // `response.data`, an array

  /** The summary the service returns. */
  datatype Summary =
    | Remote(sentiment: string, confidence: int, allScores: JsObject.Object<int>, apiUsed: string)
    | Fallback(sentiment: string, confidence: int, methodName: string)

  const RemoteName := "Hugging Face"
  const FallbackName := "Fallback simples"

  /** `Math.round(score * 10000) / 100`, in hundredths of a percent:
      the score rounded half up to an integer number of hundredths. */
  function Percent(score: real): (hundredths: int)
    ensures hundredths as real <= score * 10000.0 + 0.5 < hundredths as real + 1.0
  {
    (score * 10000.0 + 0.5).Floor
  }

  /** A higher score never gets a lower percentage, and a score between 0
      and 1 gets a percentage between 0 and 100. */
  lemma PercentMonotonic(s: real, t: real)
    ensures s <= t ==> Percent(s) <= Percent(t)
    ensures 0.0 <= s <= 1.0 ==> 0 <= Percent(s) <= 10000
  {
  }

  /** A score of 0.6309 is reported as 63.09%, and halves round up. */
  lemma PercentExamples()
    ensures Percent(0.6309) == 6309
    ensures Percent(0.00005) == 1
  {
  }

  /** The classifier's labels and their Portuguese names. */
  const SentimentMap: JsObject.Object<string> := [
    ("Very Negative", "Muito Negativo"),
    ("Negative", "Negativo"),
    ("Neutral", "Neutro"),
    ("Positive", "Positivo"),
    ("Very Positive", "Muito Positivo")
  ]

  /** `sentimentMap[item.label] || item.label`. */
  function PortugueseLabel(english: string): string {
    JsObject.Get(SentimentMap, english).GetOr(english)
  }

  /** The five known labels are translated; any other label is kept. */
  lemma PortugueseLabels(english: string)
    ensures PortugueseLabel("Very Negative") == "Muito Negativo"
    ensures PortugueseLabel("Negative") == "Negativo"
    ensures PortugueseLabel("Neutral") == "Neutro"
    ensures PortugueseLabel("Positive") == "Positivo"
    ensures PortugueseLabel("Very Positive") == "Muito Positivo"
    ensures english !in {"Very Negative", "Negative", "Neutral", "Positive", "Very Positive"} ==>
              PortugueseLabel(english) == english
  {
  }

  /** The `forEach` over the items from a table `scores` on: every item
      assigns its percentage to its Portuguese label, and an unreadable
      item throws (None). */
  function ScoresFrom(scores: JsObject.Object<int>, items: seq<Item>): Option<JsObject.Object<int>>
    decreases |items|
  {
    if items == [] then Some(scores)
    else
      match items[0]
      case Unreadable => None
      case Item(tag, score) =>
        ScoresFrom(JsObject.Put(scores, PortugueseLabel(tag), Percent(score)), items[1..])
  }

  /** `sentimentScores` after the `forEach`. */
  function Scores(items: seq<Item>): Option<JsObject.Object<int>> {
    ScoresFrom([], items)
  }

  predicate AllReadable(items: seq<Item>) {
    forall i :: 0 <= i < |items| ==> items[i].Item?
  }

  /** The percentage of the last item with Portuguese label `l`, if any:
      the value a later assignment leaves in the table. */
  function LastScore(items: seq<Item>, l: string): Option<int>
    decreases |items|
  {
    if items == [] then None
    else
      var last := items[|items| - 1];
      if last.Item? && PortugueseLabel(last.tag) == l then Some(Percent(last.score))
      else LastScore(items[..|items| - 1], l)
  }

  lemma {:induction false} LastScoreCons(x: Item, rest: seq<Item>, l: string)
    ensures LastScore([x] + rest, l)
         == if LastScore(rest, l).Some? then LastScore(rest, l)
            else if x.Item? && PortugueseLabel(x.tag) == l then Some(Percent(x.score))
            else None
    decreases |rest|
  {
    var all := [x] + rest;
    if rest != [] {
      var init := rest[..|rest| - 1];
      assert all[|all| - 1] == rest[|rest| - 1];
      assert all[..|all| - 1] == [x] + init;
      LastScoreCons(x, init, l);
    } else {
      assert all[..0] == [];
    }
  }

  /** The table is built exactly when every item is readable; it then holds
      the keys already in `scores` and one per label, each with the
      percentage of the last item carrying it, and its keys stay distinct. */
  lemma {:induction false} ScoresFromSpec(scores: JsObject.Object<int>, items: seq<Item>)
    requires JsObject.DistinctKeys(scores)
    ensures ScoresFrom(scores, items).Some? <==> AllReadable(items)
    ensures ScoresFrom(scores, items).Some? ==> JsObject.DistinctKeys(ScoresFrom(scores, items).value)
    ensures ScoresFrom(scores, items).Some? ==> forall l ::
              JsObject.Get(ScoresFrom(scores, items).value, l)
              == if LastScore(items, l).Some? then LastScore(items, l) else JsObject.Get(scores, l)
    decreases |items|
  {
    if items != [] {
      var rest := items[1..];
      assert items == [items[0]] + rest;
      assert AllReadable(items) <==> items[0].Item? && AllReadable(rest) by {
        if items[0].Item? && AllReadable(rest) {
          forall i | 0 <= i < |items| ensures items[i].Item? {
            if i > 0 {
              assert items[i] == rest[i - 1];
            }
          }
        }
      }
      if items[0].Item? {
        var next := JsObject.Put(scores, PortugueseLabel(items[0].tag), Percent(items[0].score));
        JsObject.PutDistinct(scores, PortugueseLabel(items[0].tag), Percent(items[0].score));
        ScoresFromSpec(next, rest);
        forall l {
          LastScoreCons(items[0], rest, l);
        }
      }
    }
  }

  /** The Portuguese labels of the readable items, in reply order. */
  function Labels(items: seq<Item>): seq<string>
    decreases |items|
  {
    if items == [] then []
    else (if items[0].Item? then [PortugueseLabel(items[0].tag)] else []) + Labels(items[1..])
  }

  /** The keys of `scores` are exactly the labels in `seen`, listed in the
      order of their first occurrence there. */
  predicate Tracks(scores: JsObject.Object<int>, seen: seq<string>) {
    && (forall i :: 0 <= i < |scores| ==> scores[i].0 in seen)
    && (forall k :: k in seen ==> JsObject.Get(scores, k).Some?)
    && JsObject.InFirstOccurrenceOrder(seen, scores)
  }

  /** One assignment keeps the table's keys in first-occurrence order, the
      assigned label joining the labels seen. */
  lemma OrderedPut(scores: JsObject.Object<int>, seen: seq<string>, l: string, p: int)
    requires Tracks(scores, seen)
    ensures Tracks(JsObject.Put(scores, l, p), seen + [l])
  {
    var next := JsObject.Put(scores, l, p);
    JsObject.PutKeys(scores, l, p);
    assert |next| > |scores| ==> l !in seen;
    JsObject.OrderStep(seen, l, scores, next);
    forall i | 0 <= i < |next| ensures next[i].0 in seen + [l] {
      if i < |scores| {
        assert next[i].0 == scores[i].0;
      }
    }
    forall k | k in seen + [l] ensures JsObject.Get(next, k).Some? {
      if k != l {
        assert k in seen;
      }
    }
  }

  /** Each assignment creates its label's key on the label's first
      occurrence, so the table lists its keys in the order in which the
      labels first occur. */
  lemma {:induction false} ScoresFromOrder(scores: JsObject.Object<int>, seen: seq<string>, items: seq<Item>)
    requires Tracks(scores, seen)
    ensures ScoresFrom(scores, items).Some? ==> Tracks(ScoresFrom(scores, items).value, seen + Labels(items))
    decreases |items|
  {
    if items == [] {
      assert seen + Labels(items) == seen;
    } else if items[0].Item? {
      var l := PortugueseLabel(items[0].tag);
      var next := JsObject.Put(scores, l, Percent(items[0].score));
      OrderedPut(scores, seen, l, Percent(items[0].score));
      assert ScoresFrom(scores, items) == ScoresFrom(next, items[1..]);
      ScoresFromOrder(next, seen + [l], items[1..]);
      assert Labels(items) == [l] + Labels(items[1..]);
      assert seen + [l] + Labels(items[1..]) == seen + Labels(items);
    }
  }

  /** `sentimentScores`: built when every item is readable, with distinct
      keys, each label bound to the percentage of the last item carrying
      it, and empty exactly when there are no items. Its keys are the
      labels, listed in the order of their first occurrence. */
  lemma ScoresSpec(items: seq<Item>)
    ensures Scores(items).Some? <==> AllReadable(items)
    ensures Scores(items).Some? ==> JsObject.DistinctKeys(Scores(items).value)
    ensures Scores(items).Some? ==> forall l :: JsObject.Get(Scores(items).value, l) == LastScore(items, l)
    ensures Scores(items).Some? ==> (Scores(items).value == [] <==> items == [])
    ensures Scores(items).Some? ==> JsObject.InFirstOccurrenceOrder(Labels(items), Scores(items).value)
    ensures Scores(items).Some? ==> forall i :: 0 <= i < |Scores(items).value| ==> Scores(items).value[i].0 in Labels(items)
  {
    ScoresFromSpec([], items);
    ScoresFromOrder([], [], items);
    assert [] + Labels(items) == Labels(items);
    if Scores(items).Some? && items != [] {
      var x := items[|items| - 1];
      assert x.Item?;
      assert LastScore(items, PortugueseLabel(x.tag)).Some?;
      assert JsObject.Get(Scores(items).value, PortugueseLabel(x.tag)).Some?;
    }
  }

  /** Entry `i` is the last entry holding the greatest value. */
  predicate IsLastMaximum(entries: seq<(string, int)>, i: int) {
    && 0 <= i < |entries|
    && (forall j :: 0 <= j < |entries| ==> entries[j].1 <= entries[i].1)
    && (forall j :: i < j < |entries| ==> entries[j].1 < entries[i].1)
  }

  /** The `reduce((a, b) => (a[1] > b[1] ? a : b))` from the running
      choice `best` over the remaining entries. */
  function DominantFrom(best: (string, int), rest: seq<(string, int)>): (string, int)
    decreases |rest|
  {
    if rest == [] then best
    else DominantFrom(if best.1 > rest[0].1 then best else rest[0], rest[1..])
  }

  /** `Object.entries(sentimentScores).reduce(...)` over a non-empty list. */
  function Dominant(entries: seq<(string, int)>): (string, int)
    requires entries != []
  {
    DominantFrom(entries[0], entries[1..])
  }

  lemma {:induction false} DominantFromSpec(entries: seq<(string, int)>, b: nat, k: nat)
    requires b < k <= |entries|
    requires IsLastMaximum(entries[..k], b)
    ensures exists i :: IsLastMaximum(entries, i) && entries[i] == DominantFrom(entries[b], entries[k..])
    decreases |entries| - k
  {
    if k == |entries| {
      assert entries[..k] == entries;
      assert entries[k..] == [];
      assert IsLastMaximum(entries, b) && entries[b] == DominantFrom(entries[b], entries[k..]);
    } else {
      var next := entries[k];
      var b' := if entries[b].1 > next.1 then b else k;
      assert entries[k..][0] == next && entries[k..][1..] == entries[k + 1..];
      assert DominantFrom(entries[b], entries[k..]) == DominantFrom(entries[b'], entries[k + 1..]);
      LastMaximumStep(entries, b, k);
      DominantFromSpec(entries, b', k + 1);
    }
  }

  /** One more entry: the running choice stays unless the new entry is at
      least as great. */
  lemma LastMaximumStep(entries: seq<(string, int)>, b: nat, k: nat)
    requires b < k < |entries|
    requires IsLastMaximum(entries[..k], b)
    ensures IsLastMaximum(entries[..k + 1], if entries[b].1 > entries[k].1 then b else k)
  {
    var b' := if entries[b].1 > entries[k].1 then b else k;
    var p := entries[..k + 1];
    assert p[..k] == entries[..k];
    forall j | 0 <= j < |p| ensures p[j].1 <= p[b'].1 {
      if j < k {
        assert p[j] == entries[..k][j];
      }
    }
    forall j | b' < j < |p| ensures p[j].1 < p[b'].1 {
      assert j < k ==> p[j] == entries[..k][j];
    }
  }

  /** The dominant entry is the last one with the greatest value: on a tie
      the entry listed later wins, because the comparison is strict. */
  lemma DominantIsLastMaximum(entries: seq<(string, int)>)
    requires entries != []
    ensures exists i :: IsLastMaximum(entries, i) && entries[i] == Dominant(entries)
  {
    assert IsLastMaximum(entries[..1], 0);
    DominantFromSpec(entries, 0, 1);
  }

  /** The reply can be used: `response.data` is a non-empty array whose
      first element is an array of readable items, and there is at least one
      item (`reduce` on an empty list throws). */
  predicate Usable(reply: Reply) {
    && reply.Batches?
    && reply.batches != []
    && reply.batches[0].Items?
    && reply.batches[0].items != []
    && AllReadable(reply.batches[0].items)
  }

  /** The summary of the reply, or the fallback on `text` when the reply is
      unusable or its handling throws. */
  function Summarize(reply: Reply, text: string): Summary {
    if !reply.Batches? || reply.batches == [] then FallbackSentiment(text)
    else if reply.batches[0].NotIterable? then FallbackSentiment(text)
    else
      match Scores(reply.batches[0].items)
      case None => FallbackSentiment(text)
      case Some(scores) =>
        if scores == [] then FallbackSentiment(text)
        else
          JsObject.EntriesPermutes(scores);
          var dominant := Dominant(JsObject.Entries(scores));
          Remote(dominant.0, dominant.1, scores, RemoteName)
  }

  /** `analyzeSentiment(text)` with `classify` standing for the request. */
  function AnalyzeSentiment(text: string, classify: string -> Reply): Summary {
    Summarize(classify(Truncate(text)), text)
  }

  /** The summary is the classifier's exactly when the reply is usable, and
      otherwise it is the fallback computed on the whole text. */
  lemma SummarizeSource(reply: Reply, text: string)
    ensures Summarize(reply, text).Remote? <==> Usable(reply)
    ensures !Usable(reply) ==> Summarize(reply, text) == FallbackSentiment(text)
  {
    if reply.Batches? && reply.batches != [] && reply.batches[0].Items? {
      ScoresSpec(reply.batches[0].items);
    }
  }

  /** A classifier summary names the label of the greatest percentage and
      reports that percentage as its confidence; every label of the reply
      appears in `all_scores` with the percentage of its last item, the
      keys in first-occurrence order, and the reported pair is the last
      entry of `Object.entries` with the greatest percentage. */
  lemma SummarizeRemote(reply: Reply, text: string)
    requires Usable(reply)
    ensures var s := Summarize(reply, text);
      && s.Remote?
      && s.apiUsed == RemoteName
      && JsObject.Get(s.allScores, s.sentiment) == Some(s.confidence)
      && (forall e :: e in s.allScores ==> e.1 <= s.confidence)
      && (forall l :: JsObject.Get(s.allScores, l) == LastScore(reply.batches[0].items, l))
      && JsObject.InFirstOccurrenceOrder(Labels(reply.batches[0].items), s.allScores)
      && (exists i :: IsLastMaximum(JsObject.Entries(s.allScores), i)
                   && JsObject.Entries(s.allScores)[i] == (s.sentiment, s.confidence))
  {
    var items := reply.batches[0].items;
    ScoresSpec(items);
    var scores := Scores(items).value;
    DominantOfTable(scores);
    JsObject.EntriesPermutes(scores);
    DominantIsLastMaximum(JsObject.Entries(scores));
  }

  /** When no label is an array index, `Object.entries` is the creation
      order, so of the labels tied at the greatest percentage the one whose
      first occurrence in the reply comes last is reported. */
  lemma TieGoesToLatestFirstOccurrence(reply: Reply, text: string, l: string)
    requires Usable(reply)
    requires forall k :: k in Labels(reply.batches[0].items) ==> !JsObject.IsArrayIndex(k)
    ensures var s := Summarize(reply, text);
      && s.Remote?
      && (LastScore(reply.batches[0].items, l) == Some(s.confidence) ==>
            JsObject.FirstIndex(Labels(reply.batches[0].items), l)
            <= JsObject.FirstIndex(Labels(reply.batches[0].items), s.sentiment))
  {
    var items := reply.batches[0].items;
    var labels := Labels(items);
    ScoresSpec(items);
    var scores := Scores(items).value;
    SummarizeUsable(reply, text);
    forall i | 0 <= i < |scores| ensures !JsObject.IsArrayIndex(scores[i].0) {
      assert scores[i].0 in labels;
    }
    JsObject.EntriesInCreationOrder(scores);
    DominantIsLastMaximum(scores);
    var i :| IsLastMaximum(scores, i) && scores[i] == Dominant(scores);
    if LastScore(items, l) == Some(scores[i].1) {
      JsObject.GetFound(scores, l);
      LastMaximumFirstOccurrence(labels, scores, i, l);
    }
  }

  /** A usable reply is summarized by the dominant entry of its table. */
  lemma SummarizeUsable(reply: Reply, text: string)
    requires Usable(reply)
    ensures Scores(reply.batches[0].items).Some?
    ensures var scores := Scores(reply.batches[0].items).value;
      && scores != []
      && Summarize(reply, text)
         == Remote(Dominant(JsObject.Entries(scores)).0, Dominant(JsObject.Entries(scores)).1, scores, RemoteName)
  {
    ScoresSpec(reply.batches[0].items);
    JsObject.EntriesPermutes(Scores(reply.batches[0].items).value);
  }

  /** In a table in first-occurrence order, an entry tied with the last
      maximum occurs first no later than it. */
  lemma LastMaximumFirstOccurrence(labels: seq<string>, scores: JsObject.Object<int>, i: nat, l: string)
    requires IsLastMaximum(scores, i)
    requires JsObject.InFirstOccurrenceOrder(labels, scores)
    requires (l, scores[i].1) in scores
    ensures JsObject.FirstIndex(labels, l) <= JsObject.FirstIndex(labels, scores[i].0)
  {
    var j :| 0 <= j < |scores| && scores[j] == (l, scores[i].1);
    assert j <= i;
  }

  /** The dominant entry of a table with distinct keys is one of its
      entries, and no entry holds more. */
  lemma DominantOfTable(scores: JsObject.Object<int>)
    requires JsObject.DistinctKeys(scores) && scores != []
    ensures var entries := JsObject.Entries(scores);
      && entries != []
      && JsObject.Get(scores, Dominant(entries).0) == Some(Dominant(entries).1)
      && (forall e :: e in scores ==> e.1 <= Dominant(entries).1)
  {
    var entries := JsObject.Entries(scores);
    JsObject.EntriesPermutes(scores);
    DominantIsLastMaximum(entries);
    var d := Dominant(entries);
    var i :| IsLastMaximum(entries, i) && entries[i] == d;
    assert d in multiset(scores) by {
      assert entries[i] in multiset(entries);
    }
    JsObject.GetEntry(scores, d);
    forall e | e in scores ensures e.1 <= d.1 {
      assert e in multiset(entries);
      var j :| 0 <= j < |entries| && entries[j] == e;
    }
  }

  /** Only the first 512 characters reach the classifier: two texts that
      agree on them get the same classifier summary. */
  lemma RemoteSeesPrefix(t1: string, t2: string, classify: string -> Reply)
    requires Truncate(t1) == Truncate(t2)
    requires Usable(classify(Truncate(t1)))
    ensures AnalyzeSentiment(t1, classify) == AnalyzeSentiment(t2, classify)
  {
    ScoresSpec(classify(Truncate(t1)).batches[0].items);
  }

  /** With the labels `Positive` and `Negative` scored alike, the later one
      in `Object.entries` order wins: the summary says `Negativo`. */
  lemma TieGoesToLaterLabel(score: real)
    ensures var reply := Batches([Items([Item("Positive", score), Item("Negative", score)])]);
      var s := Summarize(reply, "");
      s.Remote? && s.sentiment == "Negativo" && s.confidence == Percent(score)
  {
    var items := [Item("Positive", score), Item("Negative", score)];
    var p := Percent(score);
    PortugueseLabels("");
    var first: JsObject.Object<int> := [("Positivo", p)];
    var scores: JsObject.Object<int> := [("Positivo", p), ("Negativo", p)];
    assert ScoresFrom([], items) == ScoresFrom(first, items[1..]);
    assert first[1..] == [];
    assert JsObject.Put(first, "Negativo", p) == scores;
    assert ScoresFrom(first, items[1..]) == ScoresFrom(scores, []);
    assert !JsObject.IsArrayIndex(scores[0].0) && !JsObject.IsArrayIndex(scores[1].0) by {
      assert !JsObject.IsDigit(scores[0].0[0]) && !JsObject.IsDigit(scores[1].0[0]);
    }
    JsObject.EntriesInCreationOrder(scores);
    DominantOfTwo(scores[0], scores[1]);
    assert scores == [scores[0], scores[1]];
  }

  /** A label repeated after a tie keeps its key where it was created, so
      `Positive, Negative, Positive` at one score still gives `Negativo`. */
  lemma TieKeepsCreationOrder(score: real)
    ensures var reply := Batches([Items([Item("Positive", score), Item("Negative", score), Item("Positive", score)])]);
      var s := Summarize(reply, "");
      s.Remote? && s.sentiment == "Negativo" && s.confidence == Percent(score)
  {
    var items := [Item("Positive", score), Item("Negative", score), Item("Positive", score)];
    var p := Percent(score);
    PortugueseLabels("");
    var first: JsObject.Object<int> := [("Positivo", p)];
    var scores: JsObject.Object<int> := [("Positivo", p), ("Negativo", p)];
    assert ScoresFrom([], items) == ScoresFrom(first, items[1..]);
    assert first[1..] == [];
    assert JsObject.Put(first, "Negativo", p) == scores;
    assert ScoresFrom(first, items[1..]) == ScoresFrom(scores, items[2..]);
    assert JsObject.Put(scores, "Positivo", p) == scores;
    assert ScoresFrom(scores, items[2..]) == ScoresFrom(scores, []);
    assert !JsObject.IsArrayIndex(scores[0].0) && !JsObject.IsArrayIndex(scores[1].0) by {
      assert !JsObject.IsDigit(scores[0].0[0]) && !JsObject.IsDigit(scores[1].0[0]);
    }
    JsObject.EntriesInCreationOrder(scores);
    DominantOfTwo(scores[0], scores[1]);
    assert scores == [scores[0], scores[1]];
  }

  /** Of two entries the second wins unless the first is strictly greater. */
  lemma DominantOfTwo(a: (string, int), b: (string, int))
    ensures Dominant([a, b]) == if a.1 > b.1 then a else b
  {
    assert [a, b][1..] == [b];
    assert [b][1..] == [];
    var c := if a.1 > b.1 then a else b;
    assert DominantFrom(a, [b]) == DominantFrom(c, []);
  }

  // ---------------------------------------------------------------------
  // The fallback
  // ---------------------------------------------------------------------

  const PositiveWords: set<string> := {"bom", "ótimo", "excelente", "maravilhoso", "feliz", "positivo"}
  const NegativeWords: set<string> := {"ruim", "péssimo", "horrível", "triste", "negativo"}

  /** `words.filter(word => lexicon.has(word)).length`. */
  function CountIn(words: seq<string>, lexicon: set<string>): (n: nat)
    ensures n <= |words|
    decreases |words|
  {
    if words == [] then 0
    else (if words[0] in lexicon then 1 else 0) + CountIn(words[1..], lexicon)
  }

  /** The words the filter counts are exactly those the stopword filter
      would drop for the same set: together they are all the words. For a
      single word the count is its number of occurrences, and the count is
      zero exactly when no word is in the lexicon. */
  lemma CountInSpec(words: seq<string>, lexicon: set<string>, w: string)
    ensures CountIn(words, lexicon) + |TextProcessing.RemoveStopwords(words, lexicon)| == |words|
    ensures CountIn(words, {w}) == multiset(words)[w]
    ensures CountIn(words, lexicon) == 0 <==> forall i :: 0 <= i < |words| ==> words[i] !in lexicon
  {
    CountInComplement(words, lexicon);
    CountInOccurrences(words, w);
    CountInZero(words, lexicon);
  }

  lemma {:induction false} CountInComplement(words: seq<string>, lexicon: set<string>)
    ensures CountIn(words, lexicon) + |TextProcessing.RemoveStopwords(words, lexicon)| == |words|
    decreases |words|
  {
    if words != [] {
      CountInComplement(words[1..], lexicon);
    }
  }

  lemma {:induction false} CountInOccurrences(words: seq<string>, w: string)
    ensures CountIn(words, {w}) == multiset(words)[w]
    decreases |words|
  {
    if words != [] {
      CountInOccurrences(words[1..], w);
      assert words == [words[0]] + words[1..];
    }
  }

  lemma {:induction false} CountInZero(words: seq<string>, lexicon: set<string>)
    ensures CountIn(words, lexicon) == 0 <==> forall i :: 0 <= i < |words| ==> words[i] !in lexicon
    decreases |words|
  {
    if words != [] {
      CountInZero(words[1..], lexicon);
      assert forall i :: 1 <= i < |words| ==> words[i] == words[1..][i - 1];
    }
  }

  /** The count of a concatenation is the sum of the counts. */
  lemma {:induction false} CountInConcat(a: seq<string>, b: seq<string>, lexicon: set<string>)
    ensures CountIn(a + b, lexicon) == CountIn(a, lexicon) + CountIn(b, lexicon)
    decreases |a|
  {
    if a != [] {
      assert (a + b)[1..] == a[1..] + b;
      CountInConcat(a[1..], b, lexicon);
    } else {
      assert a + b == b;
    }
  }

  /** Words of two disjoint lexicons are never counted twice. */
  lemma {:induction false} CountDisjoint(words: seq<string>, l1: set<string>, l2: set<string>)
    requires l1 !! l2
    ensures CountIn(words, l1) + CountIn(words, l2) <= |words|
    decreases |words|
  {
    if words != [] {
      CountDisjoint(words[1..], l1, l2);
    }
  }

  /** `Math.round((part / total) * 100 * 100)`: the share in hundredths of a
      percent, rounded half up, in integer arithmetic. */
  function RoundShare(part: nat, total: nat): int
    requires total > 0
  {
    (20000 * part + total) / (2 * total)
  }

  /** `RoundShare` is the integer nearest to `10000 * part / total`,
      halves going up; a strict majority gets at least 50%, and a share
      never exceeds 100%. */
  lemma RoundShareSpec(part: nat, total: nat)
    requires total > 0
    ensures var r := RoundShare(part, total);
      2 * total * r <= 20000 * part + total < 2 * total * (r + 1)
    ensures 2 * part > total ==> RoundShare(part, total) >= 5000
    ensures part <= total ==> RoundShare(part, total) <= 10000
  {
    var d := 2 * total;
    var q := 20000 * part + total;
    var r := q / d;
    assert d * r <= q < d * (r + 1) by {
      assert q == d * r + q % d;
    }
    if 2 * part > total {
      assert q > d * 5000;
      MulCancel(d, r + 1, 5000);
    }
    if part <= total {
      assert q < d * 10001;
      MulCancel(d, 10001, r);
    }
  }

  /** Multiplying by a positive number keeps a strict order. */
  lemma MulCancel(c: nat, a: int, b: int)
    requires c > 0 && c * a > c * b
    ensures a > b
  {
    assert c * a - c * b == c * (a - b);
  }

  /** `fallbackSentiment(text)`. */
  function FallbackSentiment(text: string): (s: Summary)
    ensures s.Fallback? && s.methodName == FallbackName
    ensures s.sentiment in {"Positivo", "Negativo", "Neutro"}
  {
    var words := Split(Lower(text));
    var positive := CountIn(words, PositiveWords);
    var negative := CountIn(words, NegativeWords);
    var total := positive + negative;
    if total > 0 && positive > negative then
      Fallback("Positivo", RoundShare(positive, total), FallbackName)
    else if total > 0 && negative > positive then
      Fallback("Negativo", RoundShare(negative, total), FallbackName)
    else
      Fallback("Neutro", 5000, FallbackName)
  }

  /** The fallback says `Positivo` when more positive than negative words
      occur, `Negativo` in the opposite case and `Neutro` on a tie, with a
      confidence between 50% and 100% that is the majority's share. */
  lemma FallbackSpec(text: string)
    ensures var words := Split(Lower(text));
      var positive := CountIn(words, PositiveWords);
      var negative := CountIn(words, NegativeWords);
      var s := FallbackSentiment(text);
      && (s.sentiment == "Positivo" <==> positive > negative)
      && (s.sentiment == "Negativo" <==> negative > positive)
      && (s.sentiment == "Neutro" <==> positive == negative)
      && (positive > negative ==> s.confidence == RoundShare(positive, positive + negative))
      && (negative > positive ==> s.confidence == RoundShare(negative, positive + negative))
      && (positive == negative ==> s.confidence == 5000)
      && 5000 <= s.confidence <= 10000
      && PositiveWords !! NegativeWords
      && positive + negative <= |words|
  {
    var words := Split(Lower(text));
    var positive := CountIn(words, PositiveWords);
    var negative := CountIn(words, NegativeWords);
    CountDisjoint(words, PositiveWords, NegativeWords);
    if positive + negative > 0 {
      RoundShareSpec(positive, positive + negative);
      RoundShareSpec(negative, positive + negative);
    }
  }

  /** Two positive words against one negative word, as in
      `"bom bom péssimo"`: `Positivo` at 66.67%. */
  lemma FallbackExample(good: string, bad: string)
    requires good == "bom" && bad == "péssimo"
    ensures FallbackSentiment(good + " " + good + " " + bad) == Fallback("Positivo", 6667, FallbackName)
  {
    var text := good + " " + good + " " + bad;
    ExampleSplit(good, bad);
    var words := Split(Lower(text));
    ExampleCounts(words);
    assert RoundShare(2, 3) == 6667;
  }

  lemma ExampleSplit(good: string, bad: string)
    requires good == "bom" && bad == "péssimo"
    ensures Split(Lower(good + " " + good + " " + bad)) == [good, good, bad]
  {
    var text := good + " " + good + " " + bad;
    var tail := good + [' '] + bad;
    assert text == good + [' '] + tail;
    ExampleLower(good, bad);
    SplitWordThen(good, tail, []);
    SplitWordThen(good, bad, []);
    SplitWord(bad, []);
    assert [] + good == good && [] + bad == bad;
  }

  lemma ExampleLower(good: string, bad: string)
    requires good == "bom" && bad == "péssimo"
    ensures Lower(good + " " + good + " " + bad) == good + " " + good + " " + bad
  {
    assert Lower(good) == good && Lower(bad) == bad && Lower(" ") == " ";
    LowerConcat(good + " " + good + " ", bad);
    LowerConcat(good + " " + good, " ");
    LowerConcat(good + " ", good);
    LowerConcat(good, " ");
  }

  lemma ExampleCounts(words: seq<string>)
    requires words == ["bom", "bom", "péssimo"]
    ensures CountIn(words, PositiveWords) == 2 && CountIn(words, NegativeWords) == 1
  {
    var good, bad := words[0], words[2];
    assert good in PositiveWords && good !in NegativeWords;
    assert bad in NegativeWords && bad !in PositiveWords;
    assert words == [good] + ([good] + [bad]);
    CountInConcat([good], [good] + [bad], PositiveWords);
    CountInConcat([good], [bad], PositiveWords);
    CountInConcat([good], [good] + [bad], NegativeWords);
    CountInConcat([good], [bad], NegativeWords);
    assert [good][1..] == [] && [bad][1..] == [];
  }

  /** The fallback does not depend on letter case. */
  lemma FallbackIgnoresCase(text: string)
    ensures FallbackSentiment(Lower(text)) == FallbackSentiment(text)
  {
    forall i | 0 <= i < |text| ensures Lower(Lower(text))[i] == Lower(text)[i] {
      LowerCharIdempotent(text[i]);
    }
    assert Lower(Lower(text)) == Lower(text);
  }
}
