/** A plain JavaScript object used as a string-keyed table: its own
    properties in creation order, assigning an existing key in place, and
    `Object.entries` order, which lists the array-index keys first in
    ascending numeric order and then the other keys in creation order. */
module JsObject {
  import opened Wrappers
  import Sorting

  type Object<V> = seq<(string, V)>

  /** Some entry of `o` has key `k`. */
  predicate HasKey<V>(o: Object<V>, k: string) {
    exists i :: 0 <= i < |o| && o[i].0 == k
  }

  predicate DistinctKeys<V>(o: Object<V>) {
    forall i, j :: 0 <= i < j < |o| ==> o[i].0 != o[j].0
  }

  /** `o[k]`, `undefined` being None. */
  function Get<V>(o: Object<V>, k: string): Option<V>
    decreases |o|
  {
    if o == [] then None
    else if o[0].0 == k then Some(o[0].1)
    else Get(o[1..], k)
  }

  /** `o[k]` is defined exactly when `o` has an entry with key `k`. */
  lemma {:induction false} GetDefined<V>(o: Object<V>, k: string)
    ensures Get(o, k).Some? <==> HasKey(o, k)
    decreases |o|
  {
    if o != [] && o[0].0 != k {
      GetDefined(o[1..], k);
      if HasKey(o, k) {
        var i :| 0 <= i < |o| && o[i].0 == k;
        assert o[1..][i - 1].0 == k;
      }
      if HasKey(o[1..], k) {
        var i :| 0 <= i < |o[1..]| && o[1..][i].0 == k;
        assert o[i + 1].0 == k;
      }
    } else if o != [] {
      assert o[0].0 == k;
    }
  }

  /** A value `Get` finds is stored in an entry under its key. */
  lemma {:induction false} GetFound<V>(o: Object<V>, k: string)
    ensures Get(o, k).Some? ==> (k, Get(o, k).value) in o
    decreases |o|
  {
    if o != [] && o[0].0 != k {
      GetFound(o[1..], k);
    }
  }

  /** `o[k] = v`: overwrites the value of an existing key where it stands,
      or appends a new key. */
  function Put<V>(o: Object<V>, k: string, v: V): (r: Object<V>)
    ensures Get(r, k) == Some(v)
    ensures forall k' :: k' != k ==> Get(r, k') == Get(o, k')
    decreases |o|
  {
    if o == [] then [(k, v)]
    else if o[0].0 == k then [(k, v)] + o[1..]
    else [o[0]] + Put(o[1..], k, v)
  }

  /** Assigning keeps every key where it stands; a new key goes last. */
  lemma {:induction false} PutKeys<V>(o: Object<V>, k: string, v: V)
    ensures var r := Put(o, k, v);
      && |r| == (if Get(o, k).Some? then |o| else |o| + 1)
      && (forall i :: 0 <= i < |o| ==> r[i].0 == o[i].0)
      && (Get(o, k).None? ==> r[|o|] == (k, v))
    decreases |o|
  {
    if o != [] && o[0].0 != k {
      PutKeys(o[1..], k, v);
      var r := Put(o, k, v);
      var rest := Put(o[1..], k, v);
      assert r == [o[0]] + rest;
      forall i | 0 <= i < |o| ensures r[i].0 == o[i].0 {
        if i > 0 {
          assert r[i] == rest[i - 1] && o[i] == o[1..][i - 1];
        }
      }
    }
  }

  /** Assigning a key keeps the keys distinct. */
  lemma PutDistinct<V>(o: Object<V>, k: string, v: V)
    requires DistinctKeys(o)
    ensures DistinctKeys(Put(o, k, v))
  {
    var r := Put(o, k, v);
    PutKeys(o, k, v);
    GetDefined(o, k);
    forall i, j | 0 <= i < j < |r| ensures r[i].0 != r[j].0 {
      if j >= |o| {
        assert r[j].0 == k && !HasKey(o, k);
        assert o[i].0 != k;
      }
    }
  }

  /** With distinct keys, every entry is what `Get` finds for its key. */
  lemma {:induction false} GetEntry<V>(o: Object<V>, e: (string, V))
    requires DistinctKeys(o) && e in o
    ensures Get(o, e.0) == Some(e.1)
    decreases |o|
  {
    if o[0] != e {
      assert o[0].0 != e.0 by {
        var i :| 0 <= i < |o| && o[i] == e;
      }
      assert e in o[1..];
      GetEntry(o[1..], e);
    }
  }

  /** The position of the first occurrence of `w`, or `|words|` if none. */
  function FirstIndex(words: seq<string>, w: string): (i: nat)
    ensures i <= |words|
    decreases |words|
  {
    if words == [] then 0
    else if words[0] == w then 0
    else 1 + FirstIndex(words[1..], w)
  }

  /** `FirstIndex` finds the first occurrence, and finds one exactly when
      there is one. */
  lemma {:induction false} FirstIndexSpec(words: seq<string>, w: string)
    ensures var i := FirstIndex(words, w);
      && (i < |words| <==> w in words)
      && (i < |words| ==> words[i] == w)
      && (forall j :: 0 <= j < i ==> words[j] != w)
    decreases |words|
  {
    if words != [] && words[0] != w {
      FirstIndexSpec(words[1..], w);
      var i := FirstIndex(words, w);
      forall j | 0 <= j < i ensures words[j] != w {
        if j > 0 {
          assert words[j] == words[1..][j - 1];
        }
      }
      assert w in words <==> w in words[1..] by {
        assert words == [words[0]] + words[1..];
      }
    }
  }

  /** Appending a word does not move the first occurrence of a word already seen. */
  lemma FirstIndexExtend(prefix: seq<string>, last: string, w: string)
    requires w in prefix
    ensures FirstIndex(prefix + [last], w) == FirstIndex(prefix, w)
  {
    var words := prefix + [last];
    FirstIndexSpec(prefix, w);
    FirstIndexSpec(words, w);
    var i := FirstIndex(prefix, w);
    var i' := FirstIndex(words, w);
    assert words[i] == w;
  }

  /** A word appended for the first time occurs first at the end. */
  lemma FirstIndexNew(prefix: seq<string>, w: string)
    requires w !in prefix
    ensures FirstIndex(prefix + [w], w) == |prefix|
  {
    var words := prefix + [w];
    FirstIndexSpec(words, w);
    var i := FirstIndex(words, w);
    assert words[|prefix|] == w;
  }

  /** The keys of `table` are listed in the order of their first occurrence in `words`. */
  predicate InFirstOccurrenceOrder<V>(words: seq<string>, table: Object<V>) {
    forall i, j :: 0 <= i < j < |table| ==> FirstIndex(words, table[i].0) < FirstIndex(words, table[j].0)
  }

  /** A table that keeps the keys of `counts` and may add `w` after them, `w`
      being new, is in first-occurrence order for the keys followed by `w`. */
  lemma OrderStep<V>(prefix: seq<string>, w: string, counts: Object<V>, table: Object<V>)
    requires forall i :: 0 <= i < |counts| ==> counts[i].0 in prefix
    requires InFirstOccurrenceOrder(prefix, counts)
    requires |counts| <= |table| <= |counts| + 1
    requires forall i :: 0 <= i < |counts| ==> table[i].0 == counts[i].0
    requires |table| > |counts| ==> table[|counts|].0 == w && w !in prefix
    ensures InFirstOccurrenceOrder(prefix + [w], table)
  {
    var words := prefix + [w];
    forall i | 0 <= i < |counts| ensures FirstIndex(words, table[i].0) == FirstIndex(prefix, counts[i].0) {
      FirstIndexExtend(prefix, w, counts[i].0);
    }
    forall i, j | 0 <= i < j < |table| ensures FirstIndex(words, table[i].0) < FirstIndex(words, table[j].0) {
      if j >= |counts| {
        FirstIndexNew(prefix, w);
        FirstIndexSpec(prefix, counts[i].0);
      }
    }
  }

  /** The sum of the values of a table of counts. */
  function Sum(o: Object<nat>): nat
    decreases |o|
  {
    if o == [] then 0 else o[0].1 + Sum(o[1..])
  }

  /** Assigning `k` changes the sum by the difference of the new and old values. */
  lemma {:induction false} PutSum(o: Object<nat>, k: string, v: nat)
    ensures Sum(Put(o, k, v)) == Sum(o) - Get(o, k).GetOr(0) + v
    decreases |o|
  {
    if o != [] && o[0].0 != k {
      PutSum(o[1..], k, v);
      assert ([o[0]] + Put(o[1..], k, v))[1..] == Put(o[1..], k, v);
    } else if o != [] {
      assert ([(k, v)] + o[1..])[1..] == o[1..];
    }
  }

  predicate IsDigit(c: char) {
    '0' <= c <= '9'
  }

  /** The number a string of decimal digits denotes. */
  function DigitsValue(s: string): nat
    requires forall i :: 0 <= i < |s| ==> IsDigit(s[i])
    decreases |s|
  {
    if s == [] then 0
    else
      assert IsDigit(s[|s| - 1]);
      10 * DigitsValue(s[..|s| - 1]) + (s[|s| - 1] as int - '0' as int)
  }

  /** An array index: the canonical decimal form of an integer below 2^32 - 1. */
  predicate IsArrayIndex(k: string) {
    && |k| > 0
    && (forall i :: 0 <= i < |k| ==> IsDigit(k[i]))
    && (k[0] != '0' || |k| == 1)
    && DigitsValue(k) < 0xFFFF_FFFF
  }

  /** The sort key of an array-index entry: its numeric value. */
  function IndexValue<V>(e: (string, V)): int {
    if IsArrayIndex(e.0) then DigitsValue(e.0) else 0
  }

  /** The entries whose key is an array index, in creation order. */
  function IndexEntries<V>(o: Object<V>): (r: Object<V>)
    ensures forall i :: 0 <= i < |r| ==> IsArrayIndex(r[i].0)
    decreases |o|
  {
    if o == [] then []
    else (if IsArrayIndex(o[0].0) then [o[0]] else []) + IndexEntries(o[1..])
  }

  /** The entries whose key is not an array index, in creation order. */
  function NamedEntries<V>(o: Object<V>): (r: Object<V>)
    ensures forall i :: 0 <= i < |r| ==> !IsArrayIndex(r[i].0)
    decreases |o|
  {
    if o == [] then []
    else (if IsArrayIndex(o[0].0) then [] else [o[0]]) + NamedEntries(o[1..])
  }

  lemma {:induction false} SplitEntries<V>(o: Object<V>)
    ensures multiset(IndexEntries(o)) + multiset(NamedEntries(o)) == multiset(o)
    decreases |o|
  {
    if o != [] {
      SplitEntries(o[1..]);
      assert o == [o[0]] + o[1..];
    }
  }

  /** `Object.entries(o)`. */
  function Entries<V>(o: Object<V>): Object<V> {
    Sorting.SortBy(IndexEntries(o), IndexValue) + NamedEntries(o)
  }

  /** `Object.entries` lists every entry once. */
  lemma EntriesPermutes<V>(o: Object<V>)
    ensures multiset(Entries(o)) == multiset(o)
    ensures |Entries(o)| == |o|
  {
    var indexed := Sorting.SortBy(IndexEntries(o), IndexValue);
    var named := NamedEntries(o);
    SplitEntries(o);
    Sorting.SortByPermutes(IndexEntries(o), IndexValue);
    assert multiset(indexed + named) == multiset(indexed) + multiset(named);
    assert |multiset(indexed + named)| == |indexed + named| && |multiset(o)| == |o|;
  }

  /** `Object.entries` lists the array-index keys first, in ascending
      numeric order, and the other keys after them in creation order. */
  lemma EntriesOrder<V>(o: Object<V>)
    ensures var r := Entries(o);
      && (forall i, j :: 0 <= i < j < |r| && IsArrayIndex(r[j].0) ==> IsArrayIndex(r[i].0))
      && (forall i, j :: 0 <= i < j < |r| && IsArrayIndex(r[i].0) && IsArrayIndex(r[j].0) ==>
            DigitsValue(r[i].0) <= DigitsValue(r[j].0))
      && NamedEntries(r) == NamedEntries(o)
  {
    var indexed := Sorting.SortBy(IndexEntries(o), IndexValue);
    var named := NamedEntries(o);
    Sorting.SortBySorted(IndexEntries(o), IndexValue);
    SortedIndexEntries(o);
    IndexedFirst(indexed, named);
    NamedOfConcat(indexed, named);
  }

  /** Sorted array-index entries followed by named entries are in `Object.entries` order. */
  lemma IndexedFirst<V>(indexed: Object<V>, named: Object<V>)
    requires forall i :: 0 <= i < |named| ==> !IsArrayIndex(named[i].0)
    requires Sorting.SortedBy(indexed, IndexValue)
    requires forall e :: e in indexed ==> IsArrayIndex(e.0)
    ensures var r := indexed + named;
      && (forall i, j :: 0 <= i < j < |r| && IsArrayIndex(r[j].0) ==> IsArrayIndex(r[i].0))
      && (forall i, j :: 0 <= i < j < |r| && IsArrayIndex(r[i].0) && IsArrayIndex(r[j].0) ==>
            DigitsValue(r[i].0) <= DigitsValue(r[j].0))
  {
    var r := indexed + named;
    forall i, j | 0 <= i < j < |r| && IsArrayIndex(r[j].0)
      ensures IsArrayIndex(r[i].0) && DigitsValue(r[i].0) <= DigitsValue(r[j].0)
    {
      assert j < |indexed|;
      assert r[i] == indexed[i] && r[j] == indexed[j];
      assert indexed[i] in indexed;
      assert IndexValue(indexed[i]) <= IndexValue(indexed[j]);
    }
  }

  /** The entries of `o` are split between the array-index and the named entries. */
  lemma SortedIndexEntries<V>(o: Object<V>)
    ensures forall e :: e in Sorting.SortBy(IndexEntries(o), IndexValue) ==> IsArrayIndex(e.0)
  {
    var indexed := Sorting.SortBy(IndexEntries(o), IndexValue);
    Sorting.SortByPermutes(IndexEntries(o), IndexValue);
    forall e | e in indexed ensures IsArrayIndex(e.0) {
      assert e in multiset(IndexEntries(o));
    }
  }

  lemma {:induction false} NamedOfConcat<V>(a: Object<V>, b: Object<V>)
    requires forall e :: e in a ==> IsArrayIndex(e.0)
    requires forall i :: 0 <= i < |b| ==> !IsArrayIndex(b[i].0)
    ensures NamedEntries(a + b) == b
    decreases |a|
  {
    if a != [] {
      assert (a + b)[1..] == a[1..] + b;
      NamedOfConcat(a[1..], b);
    } else {
      assert a + b == b;
      NamedIdentity(b);
    }
  }

  lemma {:induction false} NamedIdentity<V>(o: Object<V>)
    requires forall i :: 0 <= i < |o| ==> !IsArrayIndex(o[i].0)
    ensures NamedEntries(o) == o
    decreases |o|
  {
    if o != [] {
      NamedIdentity(o[1..]);
    }
  }

  lemma {:induction false} NoIndexEntries<V>(o: Object<V>)
    requires forall i :: 0 <= i < |o| ==> !IsArrayIndex(o[i].0)
    ensures IndexEntries(o) == []
    decreases |o|
  {
    if o != [] {
      NoIndexEntries(o[1..]);
    }
  }

  /** Without array-index keys, `Object.entries` lists the creation order. */
  lemma {:induction false} EntriesInCreationOrder<V>(o: Object<V>)
    requires forall i :: 0 <= i < |o| ==> !IsArrayIndex(o[i].0)
    ensures Entries(o) == o
  {
    NamedIdentity(o);
    NoIndexEntries(o);
    assert Sorting.SortBy(IndexEntries(o), IndexValue) == [];
  }
}
