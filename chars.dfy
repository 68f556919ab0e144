/**
  Text as JavaScript sees it: a sequence of UTF-16 code units. Offsets,
  lengths and indexing (`text[i]`, `text.length`) in the component are all in
  code units, so the model keeps that representation rather than Dafny's
  `string` of Unicode scalar values.

  The character classes used by the component's regular expressions live here:
  `\s`, `\p{P}`, the separator class of the fallback tokenizer and the CJK
  class of `isCJK`.
 */
module Chars {

  datatype Option<T> = None | Some(value: T)

  /** One UTF-16 code unit. */
  type CodeUnit = u: int | 0 <= u < 0x1_0000

  /** A JavaScript string. */
  type Text = seq<CodeUnit>

  /** The UTF-16 units of one character: itself, or a surrogate pair above U+FFFF. */
  function Units(c: char): seq<CodeUnit> {
    var v := c as int;
    if v < 0x1_0000 then [v]
    else [0xD800 + (v - 0x1_0000) / 0x400, 0xDC00 + (v - 0x1_0000) % 0x400]
  }

  /** The UTF-16 encoding of a Dafny string: how a JavaScript string literal is stored. */
  function Utf16(s: string): Text {
    if s == [] then [] else Units(s[0]) + Utf16(s[1..])
  }

  /** `\s` of ECMA-262: WhiteSpace and LineTerminator code points. */
  predicate IsWhiteSpace(u: CodeUnit) {
    u == 0x09 || u == 0x0A || u == 0x0B || u == 0x0C || u == 0x0D || u == 0x20
    || u == 0xA0 || u == 0x1680 || (0x2000 <= u <= 0x200A)
    || u == 0x2028 || u == 0x2029 || u == 0x202F || u == 0x205F
    || u == 0x3000 || u == 0xFEFF
  }

  /**
    `\p{P}` (Unicode general category Punctuation), tabulated only for the
    Basic Latin, Latin-1, Devanagari, General Punctuation, CJK Symbols and
    Punctuation, Katakana and fullwidth blocks. Punctuation of other scripts
    (the Arabic comma U+060C, for one) is not listed and counts as a word unit.
   */
  predicate IsPunctuation(u: CodeUnit) {
    // Basic Latin: ! " # % & ' ( ) * , - . / : ; ? @ [ \ ] _ { }
    (0x21 <= u <= 0x23) || (0x25 <= u <= 0x2A) || (0x2C <= u <= 0x2F)
    || u == 0x3A || u == 0x3B || u == 0x3F || u == 0x40
    || (0x5B <= u <= 0x5D) || u == 0x5F || u == 0x7B || u == 0x7D
    // Latin-1: ¡ § « ¶ · » ¿
    || u == 0xA1 || u == 0xA7 || u == 0xAB || u == 0xB6 || u == 0xB7
    || u == 0xBB || u == 0xBF
    // Devanagari danda, double danda, abbreviation sign
    || u == 0x0964 || u == 0x0965 || u == 0x0970
    // General Punctuation
    || (0x2010 <= u <= 0x2027) || (0x2030 <= u <= 0x2043)
    || (0x2045 <= u <= 0x2051) || (0x2053 <= u <= 0x205E)
    // CJK Symbols and Punctuation, Katakana
    || (0x3001 <= u <= 0x3003) || (0x3008 <= u <= 0x3011)
    || (0x3014 <= u <= 0x301F) || u == 0x3030 || u == 0x303D
    || u == 0x30A0 || u == 0x30FB
    // Halfwidth and Fullwidth Forms
    || (0xFF01 <= u <= 0xFF03) || (0xFF05 <= u <= 0xFF0A)
    || (0xFF0C <= u <= 0xFF0F) || u == 0xFF1A || u == 0xFF1B
    || u == 0xFF1F || u == 0xFF20 || (0xFF3B <= u <= 0xFF3D)
    || u == 0xFF3F || u == 0xFF5B || u == 0xFF5D || (0xFF5F <= u <= 0xFF65)
  }

  /**
    The separator class `[\s,.!?;:，。！？、：；「」『』()（）\n]` shared by the
    fallback tokenizer and the caret-word locator.
   */
  predicate IsSeparator(u: CodeUnit) {
    IsWhiteSpace(u)
    || u == 0x2C || u == 0x2E || u == 0x21 || u == 0x3F || u == 0x3B || u == 0x3A
    || u == 0xFF0C || u == 0x3002 || u == 0xFF01 || u == 0xFF1F || u == 0x3001
    || u == 0xFF1A || u == 0xFF1B
    || u == 0x300C || u == 0x300D || u == 0x300E || u == 0x300F
    || u == 0x28 || u == 0x29 || u == 0xFF08 || u == 0xFF09
  }

  /** A code unit matched by `[^\s\p{P}]`. */
  predicate IsWordUnit(u: CodeUnit) {
    !IsWhiteSpace(u) && !IsPunctuation(u)
  }

  /** A code unit in U+4E00–U+9FA5, U+3040–U+30FF or U+AC00–U+D7AF. */
  predicate IsCJKUnit(u: CodeUnit) {
    (0x4E00 <= u <= 0x9FA5) || (0x3040 <= u <= 0x30FF) || (0xAC00 <= u <= 0xD7AF)
  }

  /** Every separator is white space or punctuation, so none of them is a word unit. */
  lemma SeparatorIsNotWordUnit(u: CodeUnit)
    requires IsSeparator(u)
    ensures !IsWordUnit(u)
  {
  }

  /** `/[^\s\p{P}]/u.test(s)`: the test behind a token's `isWord` flag. */
  function HasWordUnit(s: Text): (r: bool)
    ensures r <==> exists i :: 0 <= i < |s| && IsWordUnit(s[i])
  {
    if s == [] then false
    else if IsWordUnit(s[0]) then true
    else
      var r := HasWordUnit(s[1..]);
      assert forall i :: 1 <= i < |s| ==> s[i] == s[1..][i - 1];
      r
  }

  /** `isCJK(s)`: does some code unit of `s` lie in one of the CJK ranges? */
  function HasCJK(s: Text): (r: bool)
    ensures r <==> exists i :: 0 <= i < |s| && IsCJKUnit(s[i])
  {
    if s == [] then false
    else if IsCJKUnit(s[0]) then true
    else
      var r := HasCJK(s[1..]);
      assert forall i :: 1 <= i < |s| ==> s[i] == s[1..][i - 1];
      r
  }

  ghost predicate NoSeparator(s: Text) {
    forall i :: 0 <= i < |s| ==> !IsSeparator(s[i])
  }

  ghost predicate AllSeparators(s: Text) {
    forall i :: 0 <= i < |s| ==> IsSeparator(s[i])
  }

  /** The concatenation of a list of pieces, `pieces.join('')`. */
  function Concat(pieces: seq<Text>): Text {
    if pieces == [] then [] else pieces[0] + Concat(pieces[1..])
  }

  lemma {:induction false} ConcatAppend(xs: seq<Text>, ys: seq<Text>)
    ensures Concat(xs + ys) == Concat(xs) + Concat(ys)
  {
    if xs == [] {
      assert xs + ys == ys;
    } else {
      assert (xs + ys)[1..] == xs[1..] + ys;
      ConcatAppend(xs[1..], ys);
    }
  }

  /**
    `s.substring(a, b)`: both bounds are clamped to `[0, |s|]` and swapped
    when the first exceeds the second.
   */
  function Substring(s: Text, a: int, b: int): (r: Text)
    ensures 0 <= a <= b <= |s| ==> r == s[a..b]
    ensures |r| <= |s|
  {
    var lo := if a < 0 then 0 else if a > |s| then |s| else a;
    var hi := if b < 0 then 0 else if b > |s| then |s| else b;
    if lo <= hi then s[lo..hi] else s[hi..lo]
  }

  /** `needle` occurs in `hay` starting at offset `i`. */
  predicate OccursAt<T(==)>(hay: seq<T>, needle: seq<T>, i: int) {
    0 <= i && i + |needle| <= |hay| && hay[i..i + |needle|] == needle
  }

  /** Does `needle` occur in `hay` at offset `at` or later? */
  function ContainsFrom<T(==)>(hay: seq<T>, needle: seq<T>, at: nat): (r: bool)
    requires at <= |hay|
    ensures r <==> exists i :: at <= i && OccursAt(hay, needle, i)
    decreases |hay| - at
  {
    if at + |needle| > |hay| then false
    else if hay[at..at + |needle|] == needle then assert OccursAt(hay, needle, at); true
    else ContainsFrom(hay, needle, at + 1)
  }

  /** `hay.includes(needle)`. */
  function Contains<T(==)>(hay: seq<T>, needle: seq<T>): (r: bool)
    ensures r <==> exists i :: OccursAt(hay, needle, i)
  {
    ContainsFrom(hay, needle, 0)
  }
}
