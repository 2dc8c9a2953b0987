/** The text-processing service: tokenizing, stopword removal, word
    counting and ranking the most frequent words. */
module TextProcessing {
  import opened Wrappers
  import opened JsString
  import JsObject
  import Sorting
  import opened Seqs

  // ---------------------------------------------------------------------
  // Tokenizing
  // ---------------------------------------------------------------------

  /** The 22 accented lower-case letters the cleaning pattern keeps:
      à á â ã ä (U+00E0-U+00E4), è é ê ë ì í î ï (U+00E8-U+00EF),
      ò ó ô õ ö (U+00F2-U+00F6) and ù ú û ü (U+00F9-U+00FC); not ç. */
  predicate IsAccented(c: char) {
    var n := c as int;
    (0xE0 <= n <= 0xE4) || (0xE8 <= n <= 0xEF) || (0xF2 <= n <= 0xF6) || (0xF9 <= n <= 0xFC)
  }

  /** `\w` of a pattern without the `u` flag: ASCII letters, digits, `_`. */
  predicate IsWordChar(c: char) {
    'a' <= c <= 'z' || 'A' <= c <= 'Z' || '0' <= c <= '9' || c == '_'
  }

  /** The characters the class `[^\w\s<accented letters>]` does not match. */
  predicate IsKept(c: char) {
    IsWordChar(c) || IsSpace(c) || IsAccented(c)
  }

  /** The characters a token is made of. */
  predicate IsTokenChar(c: char) {
    'a' <= c <= 'z' || '0' <= c <= '9' || c == '_' || IsAccented(c)
  }

  /** `replace(/[^\w\s<accented letters>]/g, ' ')`: every character outside
      the class becomes one space of its own. */
  function Clean(s: string): (r: string)
    ensures |r| == |s|
  {
    seq(|s|, i requires 0 <= i < |s| => if IsKept(s[i]) then s[i] else ' ')
  }

  lemma CleanConcat(a: string, b: string)
    ensures Clean(a + b) == Clean(a) + Clean(b)
  {
  }

  /** A token character is already lower case. */
  lemma TokenCharIsLower(c: char)
    requires IsTokenChar(c)
    ensures LowerChar(c) == c
  {
  }

  /** The cleaned, lower-cased text has the length of the input; where the
      lower-cased input has a token character the cleaned text has that
      character, and everywhere else it has white space. */
  lemma CleanedText(text: string)
    ensures |Clean(Lower(text))| == |text|
    ensures forall i :: 0 <= i < |text| && IsTokenChar(LowerChar(text[i])) ==>
              Clean(Lower(text))[i] == LowerChar(text[i])
    ensures forall i :: 0 <= i < |text| && !IsTokenChar(LowerChar(text[i])) ==>
              IsSpace(Clean(Lower(text))[i])
  {
  }

  /** `filter(word => word.length > 2)`. */
  function KeepLong(pieces: seq<string>): (r: seq<string>)
    ensures forall t :: t in r ==> t in pieces && |t| > 2
    decreases |pieces|
  {
    if pieces == [] then []
    else (if |pieces[0]| > 2 then [pieces[0]] else []) + KeepLong(pieces[1..])
  }

  /** The filter keeps the pieces longer than two characters in their
      order, every occurrence of each of them. */
  lemma KeepLongSpec(pieces: seq<string>)
    ensures IsSubsequence(KeepLong(pieces), pieces)
    ensures forall p :: |p| > 2 ==> multiset(KeepLong(pieces))[p] == multiset(pieces)[p]
  {
    KeepLongOrdered(pieces);
    KeepLongComplete(pieces);
  }

  lemma {:induction false} KeepLongOrdered(pieces: seq<string>)
    ensures IsSubsequence(KeepLong(pieces), pieces)
    decreases |pieces|
  {
    if pieces != [] {
      var rest := KeepLong(pieces[1..]);
      KeepLongOrdered(pieces[1..]);
      if |pieces[0]| > 2 {
        assert KeepLong(pieces) == [pieces[0]] + rest;
        assert ([pieces[0]] + rest)[1..] == rest;
      } else {
        assert KeepLong(pieces) == rest;
      }
    }
  }

  lemma {:induction false} KeepLongComplete(pieces: seq<string>)
    ensures forall p :: |p| > 2 ==> multiset(KeepLong(pieces))[p] == multiset(pieces)[p]
    decreases |pieces|
  {
    if pieces != [] {
      var rest := KeepLong(pieces[1..]);
      KeepLongComplete(pieces[1..]);
      assert multiset(pieces) == multiset{pieces[0]} + multiset(pieces[1..]) by {
        assert pieces == [pieces[0]] + pieces[1..];
      }
      if |pieces[0]| > 2 {
        assert KeepLong(pieces) == [pieces[0]] + rest;
      } else {
        assert KeepLong(pieces) == rest;
      }
    }
  }

  lemma {:induction false} KeepLongConcat(a: seq<string>, b: seq<string>)
    ensures KeepLong(a + b) == KeepLong(a) + KeepLong(b)
    decreases |a|
  {
    if a != [] {
      assert (a + b)[1..] == a[1..] + b;
      KeepLongConcat(a[1..], b);
      ConcatAssoc(if |a[0]| > 2 then [a[0]] else [], KeepLong(a[1..]), KeepLong(b));
    } else {
      assert a + b == b;
    }
  }

  /** `cleanAndTokenize(text)`. */
  function CleanAndTokenize(text: string): (tokens: seq<string>)
    ensures forall t :: t in tokens ==> |t| > 2
    ensures forall t, k :: t in tokens && 0 <= k < |t| ==> IsTokenChar(t[k])
  {
    var cleaned := Clean(Lower(text));
    SplitPieces(cleaned);
    CleanedText(text);
    KeepLong(Split(cleaned))
  }

  /** Tokenizing does not depend on letter case. */
  lemma TokenizeLowered(text: string)
    ensures CleanAndTokenize(Lower(text)) == CleanAndTokenize(text)
  {
    forall i | 0 <= i < |text| ensures Lower(Lower(text))[i] == Lower(text)[i] {
      LowerCharIdempotent(text[i]);
    }
    assert Lower(Lower(text)) == Lower(text);
  }

  /** Leading white space only adds an empty piece, which is dropped. */
  lemma SkipLeadingSpaces(b: string)
    ensures KeepLong(SplitFrom(DropSpaces(b), [])) == KeepLong(SplitFrom(b, []))
  {
    if b != [] && IsSpace(b[0]) {
      KeepLongConcat([[]], SplitFrom(DropSpaces(b), []));
    }
  }

  /** A white-space character splits the long pieces of `a + [w] + b` into
      those of `a` and those of `b`. */
  lemma {:induction false} SplitAround(a: string, w: char, b: string, piece: string)
    requires IsSpace(w)
    ensures KeepLong(SplitFrom(a + [w] + b, piece))
         == KeepLong(SplitFrom(a, piece)) + KeepLong(SplitFrom(b, []))
    decreases |a|, 1
  {
    if a == [] {
      SplitAroundEmpty(w, b, piece);
      assert a + [w] + b == [w] + b;
      assert SplitFrom(a, piece) == [piece];
    } else if IsSpace(a[0]) {
      SplitAroundSpace(a, w, b, piece);
    } else {
      var s := a + [w] + b;
      assert s[0] == a[0] && s[1..] == a[1..] + [w] + b;
      assert SplitFrom(s, piece) == SplitFrom(s[1..], piece + [a[0]]);
      assert SplitFrom(a, piece) == SplitFrom(a[1..], piece + [a[0]]);
      SplitAround(a[1..], w, b, piece + [a[0]]);
    }
  }

  lemma {:induction false} SplitAroundSpace(a: string, w: char, b: string, piece: string)
    requires IsSpace(w) && a != [] && IsSpace(a[0])
    ensures KeepLong(SplitFrom(a + [w] + b, piece))
         == KeepLong(SplitFrom(a, piece)) + KeepLong(SplitFrom(b, []))
    decreases |a|, 0
  {
    var s := a + [w] + b;
    assert s[0] == a[0];
    var head := KeepLong([piece]);
    var restS := KeepLong(SplitFrom(DropSpaces(s), []));
    var restA := KeepLong(SplitFrom(DropSpaces(a), []));
    var restB := KeepLong(SplitFrom(b, []));
    assert SplitFrom(s, piece) == [piece] + SplitFrom(DropSpaces(s), []);
    assert SplitFrom(a, piece) == [piece] + SplitFrom(DropSpaces(a), []);
    KeepLongConcat([piece], SplitFrom(DropSpaces(s), []));
    KeepLongConcat([piece], SplitFrom(DropSpaces(a), []));
    if DropSpaces(a) == [] {
      SplitAroundBlank(a, w, b);
      assert restS == restB && restA == [];
      assert head + restA == head;
    } else {
      DropSpacesAround(a, w, b);
      assert DropSpaces(s) == DropSpaces(a) + [w] + b;
      SplitAround(DropSpaces(a), w, b, []);
      assert restS == restA + restB;
      ConcatAssoc(head, restA, restB);
    }
  }

  /** After a blank `a`, the pieces are those after the white space. */
  lemma SplitAroundBlank(a: string, w: char, b: string)
    requires IsSpace(w) && DropSpaces(a) == []
    ensures KeepLong(SplitFrom(DropSpaces(a + [w] + b), [])) == KeepLong(SplitFrom(b, []))
    ensures KeepLong(SplitFrom(DropSpaces(a), [])) == []
  {
    DropSpacesAround(a, w, b);
    SkipLeadingSpaces(b);
  }

  lemma SplitAroundEmpty(w: char, b: string, piece: string)
    requires IsSpace(w)
    ensures KeepLong(SplitFrom([w] + b, piece)) == KeepLong([piece]) + KeepLong(SplitFrom(b, []))
  {
    var s := [w] + b;
    assert s[1..] == b;
    assert DropSpaces(s) == DropSpaces(b);
    assert SplitFrom(s, piece) == [piece] + SplitFrom(DropSpaces(b), []);
    KeepLongConcat([piece], SplitFrom(DropSpaces(b), []));
    SkipLeadingSpaces(b);
  }

  /** A character whose lower-case form is not a token character separates
      words: the tokens of `a + [c] + b` are those of `a` then those of `b`,
      so words on both sides of a punctuation mark are never fused. */
  lemma TokenizeConcat(a: string, c: char, b: string)
    requires !IsTokenChar(LowerChar(c))
    ensures CleanAndTokenize(a + [c] + b) == CleanAndTokenize(a) + CleanAndTokenize(b)
  {
    LowerConcat(a + [c], b);
    LowerConcat(a, [c]);
    CleanConcat(Lower(a) + Lower([c]), Lower(b));
    CleanConcat(Lower(a), Lower([c]));
    CleanedText([c]);
    var w := Clean(Lower([c]))[0];
    assert Clean(Lower([c])) == [w];
    SplitAround(Clean(Lower(a)), w, Clean(Lower(b)), []);
  }

  /** A run of token characters is one token when it is longer than two
      characters, and no token otherwise. */
  lemma TokenizeWord(word: string)
    requires forall i :: 0 <= i < |word| ==> IsTokenChar(LowerChar(word[i]))
    ensures CleanAndTokenize(word) == if |word| > 2 then [Lower(word)] else []
    ensures (forall i :: 0 <= i < |word| ==> IsTokenChar(word[i])) && |word| > 2 ==>
              CleanAndTokenize(word) == [word]
  {
    if forall i :: 0 <= i < |word| ==> IsTokenChar(word[i]) {
      forall i | 0 <= i < |word| ensures Lower(word)[i] == word[i] {
        TokenCharIsLower(word[i]);
      }
      assert Lower(word) == word;
    }
    var lowered := Lower(word);
    CleanKeepsTokenChars(lowered);
    SplitWord(lowered, []);
    assert [] + lowered == lowered;
    assert Split(Clean(lowered)) == [lowered];
    assert CleanAndTokenize(word) == KeepLong([lowered]);
    assert [lowered][1..] == [];
  }

  lemma CleanKeepsTokenChars(s: string)
    requires forall i :: 0 <= i < |s| ==> IsTokenChar(s[i])
    ensures Clean(s) == s
    ensures forall i :: 0 <= i < |s| ==> !IsSpace(s[i])
  {
  }

  /** Text without a single token character (empty, blank or all
      punctuation) has no tokens. */
  lemma TokenizeNoWords(text: string)
    requires forall i :: 0 <= i < |text| ==> !IsTokenChar(LowerChar(text[i]))
    ensures CleanAndTokenize(text) == []
  {
    var cleaned := Clean(Lower(text));
    CleanedText(text);
    assert IsBlank(cleaned);
    SplitBlank(cleaned, []);
    KeepLongShort(Split(cleaned));
  }

  lemma {:induction false} KeepLongShort(pieces: seq<string>)
    requires forall p :: p in pieces ==> |p| <= 2
    ensures KeepLong(pieces) == []
    decreases |pieces|
  {
    if pieces != [] {
      assert pieces[0] in pieces;
      KeepLongShort(pieces[1..]);
    }
  }

  // ---------------------------------------------------------------------
  // Stopwords
  // ---------------------------------------------------------------------

  /** `removeStopwords(words)` against the stopword list `stopwords`. */
  function RemoveStopwords(words: seq<string>, stopwords: set<string>): (kept: seq<string>)
    ensures IsSubsequence(kept, words)
    ensures forall w :: w in kept ==> w !in stopwords
    ensures forall w :: w !in stopwords ==> multiset(kept)[w] == multiset(words)[w]
    decreases |words|
  {
    if words == [] then []
    else
      var rest := RemoveStopwords(words[1..], stopwords);
      assert words == [words[0]] + words[1..];
      if words[0] in stopwords then rest
      else
        assert ([words[0]] + rest)[1..] == rest;
        [words[0]] + rest
  }

  /** Words without stopwords pass the filter unchanged. */
  lemma {:induction false} RemoveNoStopwords(words: seq<string>, stopwords: set<string>)
    requires forall w :: w in words ==> w !in stopwords
    ensures RemoveStopwords(words, stopwords) == words
    decreases |words|
  {
    if words != [] {
      assert words[0] in words;
      RemoveNoStopwords(words[1..], stopwords);
    }
  }

  /** Removing the stopwords a second time changes nothing. */
  lemma {:induction false} RemoveStopwordsIdempotent(words: seq<string>, stopwords: set<string>)
    ensures RemoveStopwords(RemoveStopwords(words, stopwords), stopwords) == RemoveStopwords(words, stopwords)
  {
    RemoveNoStopwords(RemoveStopwords(words, stopwords), stopwords);
  }
}
