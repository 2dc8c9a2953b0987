/** The counting half of the text-processing service: `countWords`,
    which tallies the tokens into a table, and `getTopWords`, which ranks
    the table by count. */
module WordCount {
  import opened Wrappers
  import JsObject
  import Sorting


  /** `countWords(words)`: a table with an entry per distinct word, its
      value incremented on every occurrence. */
  function CountWords(words: seq<string>): JsObject.Object<nat>
    decreases |words|
  {
    if words == [] then []
    else
      var counts := CountWords(words[..|words| - 1]);
      var w := words[|words| - 1];
      JsObject.Put(counts, w, JsObject.Get(counts, w).GetOr(0) + 1)
  }

  /** The number of occurrences of `w`, when it occurs at all. */
  function Occurrences(words: seq<string>, w: string): Option<nat> {
    if w in words then Some(multiset(words)[w]) else None
  }

  /** `table` maps exactly the words of `words` to their numbers of occurrences. */
  ghost predicate CountsOf(words: seq<string>, table: JsObject.Object<nat>) {
    forall w :: JsObject.Get(table, w) == Occurrences(words, w)
  }

  /** The table of `countWords` has one entry per distinct word, holding
      its number of occurrences, and no other entry. */
  lemma {:induction false} CountWordsCounts(words: seq<string>)
    ensures JsObject.DistinctKeys(CountWords(words))
    ensures CountsOf(words, CountWords(words))
    decreases |words|
  {
    if words != [] {
      var prefix := words[..|words| - 1];
      var w := words[|words| - 1];
      var counts := CountWords(prefix);
      CountWordsCounts(prefix);
      assert words == prefix + [w];
      JsObject.PutDistinct(counts, w, JsObject.Get(counts, w).GetOr(0) + 1);
      CountStep(prefix, w, counts);
    }
  }

  lemma CountStep(prefix: seq<string>, w: string, counts: JsObject.Object<nat>)
    requires CountsOf(prefix, counts)
    ensures CountsOf(prefix + [w], JsObject.Put(counts, w, JsObject.Get(counts, w).GetOr(0) + 1))
  {
    var table := JsObject.Put(counts, w, JsObject.Get(counts, w).GetOr(0) + 1);
    assert multiset(prefix + [w]) == multiset(prefix) + multiset{w};
    forall x ensures JsObject.Get(table, x) == Occurrences(prefix + [w], x) {
      if x == w {
        assert JsObject.Get(counts, w) == Occurrences(prefix, w);
      } else {
        assert x in prefix + [w] <==> x in prefix;
      }
    }
  }

  /** The counts add up to the number of words. */
  lemma {:induction false} CountWordsSum(words: seq<string>)
    ensures JsObject.Sum(CountWords(words)) == |words|
    decreases |words|
  {
    if words != [] {
      var prefix := words[..|words| - 1];
      var w := words[|words| - 1];
      var counts := CountWords(prefix);
      CountWordsSum(prefix);
      JsObject.PutSum(counts, w, JsObject.Get(counts, w).GetOr(0) + 1);
    }
  }

  /** The table lists its words in the order of their first occurrence,
      the order that decides ties in the ranking. */
  lemma {:induction false} CountWordsFirstOccurrence(words: seq<string>)
    ensures JsObject.InFirstOccurrenceOrder(words, CountWords(words))
    decreases |words|
  {
    if words != [] {
      var prefix := words[..|words| - 1];
      var w := words[|words| - 1];
      var counts := CountWords(prefix);
      assert words == prefix + [w];
      CountWordsFirstOccurrence(prefix);
      CountWordsCounts(prefix);
      KeysSeen(prefix, counts);
      NewWordUnseen(prefix, counts, w);
      JsObject.PutKeys(counts, w, JsObject.Get(counts, w).GetOr(0) + 1);
      JsObject.OrderStep(prefix, w, counts, CountWords(words));
    }
  }

  /** A word the table of counts does not hold has not been seen. */
  lemma NewWordUnseen(words: seq<string>, counts: JsObject.Object<nat>, w: string)
    requires CountsOf(words, counts)
    ensures JsObject.Get(counts, w).None? ==> w !in words
  {
    assert JsObject.Get(counts, w) == Occurrences(words, w);
  }

  /** Every key of a table of counts is one of the words. */
  lemma KeysSeen(words: seq<string>, counts: JsObject.Object<nat>)
    requires JsObject.DistinctKeys(counts)
    requires CountsOf(words, counts)
    ensures forall i :: 0 <= i < |counts| ==> counts[i].0 in words
  {
    forall i | 0 <= i < |counts| ensures counts[i].0 in words {
      JsObject.GetEntry(counts, counts[i]);
      assert JsObject.Get(counts, counts[i].0) == Occurrences(words, counts[i].0);
    }
  }

  /** A `{ word, count }` entry of the ranking. */
  datatype RankedWord = RankedWord(word: string, count: nat)

  /** The order of the comparator `(a, b) => b[1] - a[1]`: larger counts first. */
  function ByCountDescending(e: (string, nat)): int {
    -(e.1 as int)
  }

  /** `Object.entries(table).sort((a, b) => b[1] - a[1])`. */
  function Ranking(table: JsObject.Object<nat>): seq<(string, nat)> {
    Sorting.SortBy(JsObject.Entries(table), ByCountDescending)
  }

  /** The ranking lists the entries of the table by descending count. */
  lemma RankingDescends(table: JsObject.Object<nat>)
    ensures multiset(Ranking(table)) == multiset(table)
    ensures |Ranking(table)| == |table|
    ensures forall i, j :: 0 <= i < j < |Ranking(table)| ==> Ranking(table)[i].1 >= Ranking(table)[j].1
  {
    var entries := JsObject.Entries(table);
    var ranked := Ranking(table);
    JsObject.EntriesPermutes(table);
    Sorting.SortByPermutes(entries, ByCountDescending);
    Sorting.SortBySorted(entries, ByCountDescending);
    forall i, j | 0 <= i < j < |ranked| ensures ranked[i].1 >= ranked[j].1 {
      assert ByCountDescending(ranked[i]) <= ByCountDescending(ranked[j]);
    }
  }

  /** Entries of equal count keep their `Object.entries` order. */
  lemma RankingStable(table: JsObject.Object<nat>, c: nat)
    ensures Sorting.KeyClass(Ranking(table), ByCountDescending, -(c as int))
         == Sorting.KeyClass(JsObject.Entries(table), ByCountDescending, -(c as int))
  {
    Sorting.SortByStable(JsObject.Entries(table), ByCountDescending, -(c as int));
  }

  /** `getTopWords(table, limit)`. */
  function GetTopWords(table: JsObject.Object<nat>, limit: nat): (top: seq<RankedWord>)
    ensures |top| == Min(limit, |table|)
    ensures forall i :: 0 <= i < |top| ==> (top[i].word, top[i].count) in table
    ensures forall i, j :: 0 <= i < j < |top| ==> top[i].count >= top[j].count
  {
    var ranked := Ranking(table);
    RankingDescends(table);
    forall i | 0 <= i < |ranked| ensures ranked[i] in table {
      assert ranked[i] in multiset(ranked);
    }
    FirstRanked(ranked, limit)
  }

  /** `.slice(0, limit).map(([word, count]) => ({ word, count }))`. */
  function FirstRanked(ranked: seq<(string, nat)>, limit: nat): (top: seq<RankedWord>)
    ensures |top| == Min(limit, |ranked|)
    ensures forall i :: 0 <= i < |top| ==> top[i] == RankedWord(ranked[i].0, ranked[i].1)
  {
    var n := Min(limit, |ranked|);
    seq(n, i requires 0 <= i < n => RankedWord(ranked[i].0, ranked[i].1))
  }

  /** Nothing left out of the top words counts more than the last one kept. */
  lemma TopWordsAreTop(table: JsObject.Object<nat>, limit: nat, e: (string, nat))
    requires e in table
    requires RankedWord(e.0, e.1) !in GetTopWords(table, limit)
    ensures |GetTopWords(table, limit)| == limit
    ensures limit > 0 ==> e.1 <= GetTopWords(table, limit)[limit - 1].count
  {
    var ranked := Ranking(table);
    var top := GetTopWords(table, limit);
    RankingDescends(table);
    assert top == FirstRanked(ranked, limit);
    assert e in multiset(table);
    assert e in multiset(ranked);
    var p :| 0 <= p < |ranked| && ranked[p] == e;
    if limit > 0 {
      assert top[limit - 1] == RankedWord(ranked[limit - 1].0, ranked[limit - 1].1);
    }
  }

  /** Words of equal count appear among the top words in the order of
      `Object.entries(table)`: for every count, the top words with that
      count are the first entries with that count. */
  lemma TopWordsTieOrder(table: JsObject.Object<nat>, limit: nat, c: nat)
    ensures Sorting.KeyClass(Ranking(table)[..Min(limit, |Ranking(table)|)], ByCountDescending, -(c as int))
         <= Sorting.KeyClass(JsObject.Entries(table), ByCountDescending, -(c as int))
  {
    var ranked := Ranking(table);
    RankingDescends(table);
    RankingStable(table, c);
    Sorting.KeyClassPrefix(ranked, Min(limit, |ranked|), ByCountDescending, -(c as int));
  }

  /** With tokens `a b a b` and limit 2 the result is `a:2, b:2`: on equal
      counts the word seen first stays first (when neither word is an
      array index, which `Object.entries` would list first). */
  lemma TopWordsTieExample(a: string, b: string)
    requires a != b && !JsObject.IsArrayIndex(a) && !JsObject.IsArrayIndex(b)
    ensures GetTopWords(CountWords([a, b, a, b]), 2) == [RankedWord(a, 2), RankedWord(b, 2)]
  {
    var table: JsObject.Object<nat> := [(a, 2), (b, 2)];
    TieExampleCounts(a, b);
    TieExampleRanking(a, b);
    var top := GetTopWords(table, 2);
    assert top == FirstRanked(table, 2);
    assert top[0] == RankedWord(a, 2) && top[1] == RankedWord(b, 2);
  }

  lemma TieExampleRanking(a: string, b: string)
    requires !JsObject.IsArrayIndex(a) && !JsObject.IsArrayIndex(b)
    ensures Ranking([(a, 2), (b, 2)]) == [(a, 2), (b, 2)]
  {
    var table: JsObject.Object<nat> := [(a, 2), (b, 2)];
    JsObject.EntriesInCreationOrder(table);
    assert table[1..] == [(b, 2)];
    assert Sorting.SortBy([(b, 2)], ByCountDescending) == [(b, 2)];
    assert Sorting.Insert((a, 2), [(b, 2)], ByCountDescending) == table;
  }

  lemma TieExampleCounts(a: string, b: string)
    requires a != b
    ensures CountWords([a, b, a, b]) == [(a, 2), (b, 2)]
  {
    CountWordsSnoc([], a);
    assert [] + [a] == [a];
    assert CountWords([a]) == [(a, 1)];
    CountWordsSnoc([a], b);
    assert [a] + [b] == [a, b];
    assert CountWords([a, b]) == [(a, 1), (b, 1)];
    CountWordsSnoc([a, b], a);
    assert [a, b] + [a] == [a, b, a];
    assert JsObject.Get([(a, 1), (b, 1)], a) == Some(1);
    assert JsObject.Put([(a, 1), (b, 1)], a, 2) == [(a, 2), (b, 1)];
    assert CountWords([a, b, a]) == [(a, 2), (b, 1)];
    CountWordsSnoc([a, b, a], b);
    assert [a, b, a] + [b] == [a, b, a, b];
    assert JsObject.Get([(a, 2), (b, 1)], b) == Some(1);
    assert JsObject.Put([(a, 2), (b, 1)], b, 2) == [(a, 2)] + JsObject.Put([(b, 1)], b, 2);
  }

  /** `countWords` reads the words one at a time. */
  lemma CountWordsSnoc(prefix: seq<string>, w: string)
    ensures CountWords(prefix + [w])
         == JsObject.Put(CountWords(prefix), w, JsObject.Get(CountWords(prefix), w).GetOr(0) + 1)
  {
    assert (prefix + [w])[..|prefix|] == prefix;
  }
}
