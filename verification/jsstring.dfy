/** The JavaScript string primitives the analysis pipeline relies on: the
    `\s` character class, `toLowerCase`, `trim() === ''` and `split(/\s+/)`. */
module JsString {

  /** The characters matched by `\s` and removed by `trim`: the ECMAScript
      WhiteSpace and LineTerminator code points. */
  predicate IsSpace(c: char) {
    var n := c as int;
    || (9 <= n <= 13)
    || n == 0x20 || n == 0xA0 || n == 0x1680
    || (0x2000 <= n <= 0x200A)
    || n == 0x2028 || n == 0x2029 || n == 0x202F || n == 0x205F
    || n == 0x3000 || n == 0xFEFF
  }

  /** `toLowerCase` on one character, for the ASCII and Latin-1 upper-case
      letters (U+00D7, the multiplication sign, is not a letter). */
  function LowerChar(c: char): (l: char)
    ensures !('A' <= l <= 'Z')
    ensures IsSpace(l) <==> IsSpace(c)
  {
    if 'A' <= c <= 'Z' then (c as int + 32) as char
    else if 0xC0 <= c as int <= 0xDE && c as int != 0xD7 then (c as int + 32) as char
    else c
  }

  /** Lower-casing twice is lower-casing once. */
  lemma LowerCharIdempotent(c: char)
    ensures LowerChar(LowerChar(c)) == LowerChar(c)
  {
  }

  /** `s.toLowerCase()`: one character for one character. */
  function Lower(s: string): (r: string)
    ensures |r| == |s|
  {
    seq(|s|, i requires 0 <= i < |s| => LowerChar(s[i]))
  }

  lemma LowerConcat(a: string, b: string)
    ensures Lower(a + b) == Lower(a) + Lower(b)
  {
  }

  /** `s.trim() === ''`: the string holds nothing but white space. */
  predicate IsBlank(s: string) {
    forall i :: 0 <= i < |s| ==> IsSpace(s[i])
  }

  /** `s` without its leading run of white space. */
  function DropSpaces(s: string): (r: string)
    ensures |r| <= |s|
    ensures s != [] && IsSpace(s[0]) ==> |r| < |s|
    decreases |s|
  {
    if s != [] && IsSpace(s[0]) then DropSpaces(s[1..]) else s
  }

  /** `DropSpaces(s)` is the suffix of `s` after a run of white space. */
  lemma {:induction false} DropSpacesSuffix(s: string)
    ensures DropSpaces(s) == s[|s| - |DropSpaces(s)|..]
    ensures DropSpaces(s) == [] || !IsSpace(DropSpaces(s)[0])
    ensures forall i :: 0 <= i < |s| - |DropSpaces(s)| ==> IsSpace(s[i])
    decreases |s|
  {
    if s != [] && IsSpace(s[0]) {
      DropSpacesSuffix(s[1..]);
    }
  }

  /** `s.split(/\s+/)`: the pieces between the maximal runs of white space,
      with an empty first (last) piece when `s` starts (ends) with white
      space, and `[""]` for the empty string. */
  function Split(s: string): seq<string> {
    SplitFrom(s, [])
  }

  /** The pieces of `s` when `piece` has been read since the last separator. */
  function SplitFrom(s: string, piece: string): (r: seq<string>)
    ensures |r| > 0
    decreases |s|
  {
    if s == [] then [piece]
    else if IsSpace(s[0]) then [piece] + SplitFrom(DropSpaces(s), [])
    else SplitFrom(s[1..], piece + [s[0]])
  }

  /** The pieces hold no white space beyond the pending piece's, and only
      characters of the pending piece and of `s`. */
  lemma {:induction false} SplitFromPieces(s: string, piece: string)
    ensures (forall k :: 0 <= k < |piece| ==> !IsSpace(piece[k])) ==>
              forall p, k :: p in SplitFrom(s, piece) && 0 <= k < |p| ==> !IsSpace(p[k])
    ensures forall p, k :: p in SplitFrom(s, piece) && 0 <= k < |p| ==> p[k] in piece || p[k] in s
    decreases |s|
  {
    if s == [] {
    } else if IsSpace(s[0]) {
      var rest := DropSpaces(s);
      DropSpacesSuffix(s);
      SplitFromPieces(rest, []);
      forall c | c in rest ensures c in s {
        var i :| 0 <= i < |rest| && rest[i] == c;
        assert s[|s| - |rest| + i] == c;
      }
    } else {
      SplitFromPieces(s[1..], piece + [s[0]]);
    }
  }

  /** Every piece of `Split(s)` is free of white space and made of characters of `s`. */
  lemma SplitPieces(s: string)
    ensures forall p, k :: p in Split(s) && 0 <= k < |p| ==> !IsSpace(p[k]) && p[k] in s
  {
    SplitFromPieces(s, []);
  }

  /** A string without white space is a single piece. */
  lemma {:induction false} SplitWord(w: string, piece: string)
    requires forall k :: 0 <= k < |w| ==> !IsSpace(w[k])
    ensures SplitFrom(w, piece) == [piece + w]
    decreases |w|
  {
    if w != [] {
      assert !IsSpace(w[0]);
      SplitWord(w[1..], piece + [w[0]]);
      assert piece + [w[0]] + w[1..] == piece + w;
    } else {
      assert piece + w == piece;
    }
  }

  /** A word followed by one space and a string not starting with white
      space: the word is the next piece. */
  lemma {:induction false} SplitWordThen(w: string, rest: string, piece: string)
    requires forall k :: 0 <= k < |w| ==> !IsSpace(w[k])
    requires rest == [] || !IsSpace(rest[0])
    ensures SplitFrom(w + [' '] + rest, piece) == [piece + w] + SplitFrom(rest, [])
    decreases |w|
  {
    var s := w + [' '] + rest;
    if w == [] {
      assert s[0] == ' ' && s[1..] == rest;
      assert DropSpaces(s) == rest;
      assert piece + w == piece;
    } else {
      assert s[0] == w[0] && s[1..] == w[1..] + [' '] + rest;
      SplitWordThen(w[1..], rest, piece + [w[0]]);
      assert piece + [w[0]] + w[1..] == piece + w;
    }
  }

  /** A blank string yields only the pending piece and empty pieces. */
  lemma SplitBlank(s: string, piece: string)
    requires IsBlank(s)
    ensures forall p :: p in SplitFrom(s, piece) ==> p == piece || p == []
  {
    if s != [] {
      DropSpacesSuffix(s);
      assert DropSpaces(s) == [];
    }
  }

  /** Dropping the leading white space of `a + [w] + b`, with `w` white space. */
  lemma {:induction false} DropSpacesAround(a: string, w: char, b: string)
    requires IsSpace(w)
    ensures DropSpaces(a + [w] + b) == if DropSpaces(a) == [] then DropSpaces(b) else DropSpaces(a) + [w] + b
    decreases |a|
  {
    var s := a + [w] + b;
    if a == [] {
      assert s[1..] == b;
    } else if IsSpace(a[0]) {
      assert s[1..] == a[1..] + [w] + b;
      DropSpacesAround(a[1..], w, b);
    } else {
      assert s[0] == a[0];
    }
  }
}
