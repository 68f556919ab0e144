/**
  The caret-word locator on its fallback path (`getWordAtCursor`): the word
  of the typed text that the caret sits in or just after, using the same
  separator class as the tokenizer.
 */
module Cursor {
  import opened Chars
  import opened Segmenter

  /**
    `isSeparator(text[i])`. Past the end `text[i]` is `undefined`, which the
    regular-expression test turns into the string "undefined" and rejects, so
    the end of the text counts as a non-separator.
   */
  predicate SeparatorAt(text: Text, i: int) {
    0 <= i < |text| && IsSeparator(text[i])
  }

  /** The caret is on a separator and no word ends just before it. */
  predicate OnLoneSeparator(text: Text, index: int) {
    SeparatorAt(text, index) && (index == 0 || SeparatorAt(text, index - 1))
  }

  /**
    The caret after the one-step shift left taken when it sits just after a
    word: it moves back by at most one, only off a separator, and it ends on a
    separator exactly when it started on a lone one.
   */
  function Anchor(text: Text, index: int): (anchor: int)
    ensures index - 1 <= anchor <= index
    ensures anchor < index ==> SeparatorAt(text, index)
    ensures SeparatorAt(text, anchor) <==> OnLoneSeparator(text, index)
  {
    if index > 0 && SeparatorAt(text, index) && !SeparatorAt(text, index - 1) then index - 1 else index
  }

  /** `[s, e)` is the maximal separator-free span of `text` that contains offset `k`. */
  ghost predicate MaximalWordSpan(text: Text, k: int, s: int, e: int) {
    && 0 <= s <= k <= e <= |text|
    && NoSeparator(text[s..e])
    && (s == 0 || IsSeparator(text[s - 1]))
    && (e == |text| || IsSeparator(text[e]))
  }

  /** `getWordAtCursor(text, index)` when `Intl.Segmenter` is unavailable. */
  method WordAtCursor(text: Text, index: nat) returns (word: Text)
    requires index <= |text|
    ensures text == [] ==> word == []
    ensures text != [] && OnLoneSeparator(text, index) ==> word == []
    ensures text != [] && !OnLoneSeparator(text, index) ==>
              exists s, e :: MaximalWordSpan(text, Anchor(text, index), s, e) && word == text[s..e]
    ensures word == [] <==>
              text == [] || OnLoneSeparator(text, index) || (index == |text| && IsSeparator(text[index - 1]))
    ensures 0 < index && SeparatorAt(text, index) && !SeparatorAt(text, index - 1) ==>
              word != [] && |word| <= index && text[index - |word|..index] == word
    ensures 0 < index == |text| && !IsSeparator(text[index - 1]) ==>
              word != [] && |word| <= index && text[index - |word|..] == word
  {
    if text == [] {
      return [];
    }
    var i := index;
    if i > 0 && SeparatorAt(text, i) && !SeparatorAt(text, i - 1) {
      i := i - 1;
    } else if SeparatorAt(text, i) {
      return [];
    }
    var start, end := i, i;
    while start > 0 && !SeparatorAt(text, start - 1)
      invariant 0 <= start <= i
      invariant forall m :: start <= m < i ==> !IsSeparator(text[m])
    {
      start := start - 1;
    }
    while end < |text| && !SeparatorAt(text, end)
      invariant i <= end <= |text|
      invariant forall m :: i <= m < end ==> !IsSeparator(text[m])
    {
      end := end + 1;
    }
    assert i == Anchor(text, index);
    assert MaximalWordSpan(text, i, start, end);
    LocatedSpan(text, index, start, end);
    word := Substring(text, start, end);
  }

  /**
    The word read from the maximal span around the anchor: empty only at the
    end of a text that ends in a separator, and ending at the caret when the
    caret sits just after a word or at the end of a text that ends in one.
   */
  lemma LocatedSpan(text: Text, index: nat, start: int, end: int)
    requires index <= |text| && text != [] && !OnLoneSeparator(text, index)
    requires MaximalWordSpan(text, Anchor(text, index), start, end)
    ensures exists s, e :: MaximalWordSpan(text, Anchor(text, index), s, e) && text[start..end] == text[s..e]
    ensures text[start..end] == [] <==> index == |text| && IsSeparator(text[index - 1])
    ensures 0 < index && SeparatorAt(text, index) && !SeparatorAt(text, index - 1) ==>
              text[start..end] != [] && end - start <= index && text[index - (end - start)..index] == text[start..end]
    ensures 0 < index == |text| && !IsSeparator(text[index - 1]) ==>
              text[start..end] != [] && end - start <= index && text[index - (end - start)..] == text[start..end]
  {
    var i := Anchor(text, index);
    if i < |text| {
      assert !IsSeparator(text[i]);
    }
    assert start <= index < end ==> text[start..end][index - start] == text[index];
    assert index == |text| ==> i == index && end == index && text[start..end] == text[start..];
    assert 0 < start == index ==> IsSeparator(text[index - 1]);
  }

  /** The maximal separator-free span around an offset is unique. */
  lemma MaximalWordSpanUnique(text: Text, k: int, s1: int, e1: int, s2: int, e2: int)
    requires MaximalWordSpan(text, k, s1, e1) && MaximalWordSpan(text, k, s2, e2)
    ensures s1 == s2 && e1 == e2
  {
  }

  /** A token that holds a non-separator is not one of the separator runs. */
  lemma NonSeparatorIsInPiece(tokens: seq<Token>, text: Text, j: nat, p: nat)
    requires Spans(tokens, text) && tokens != [] && Alternates(Texts(tokens))
    requires j < |tokens| && tokens[j].start <= p < tokens[j].end
    requires !IsSeparator(text[p])
    ensures j % 2 == 0
  {
    var t := tokens[j];
    assert t.text == text[t.start..t.end];
    assert t.text[p - t.start] == text[p];
    assert !AllSeparators(t.text);
    assert Texts(tokens)[j] == t.text;
  }

  /**
    The locator and the tokenizer agree: a non-empty located word of a text
    is exactly the span of one of the separator-free pieces (even-position
    tokens, words or not) that tokenizing the same text produces.
   */
  lemma LocatedWordIsToken(tokens: seq<Token>, text: Text, k: int, s: int, e: int)
    requires Tokenization(tokens, text)
    requires MaximalWordSpan(text, k, s, e) && s < e
    ensures exists j :: 0 <= j < |tokens| && j % 2 == 0 && tokens[j].start == s && tokens[j].end == e
                        && tokens[j].text == text[s..e]
  {
    assert Spans(tokens, text) && tokens != [] && Alternates(Texts(tokens));
    assert text[s..e][0] == text[s];
    Covers(tokens, text, s);
    var j :| 0 <= j < |tokens| && tokens[j].start <= s < tokens[j].end;
    NonSeparatorIsInPiece(tokens, text, j, s);
    PiecesAreMaximal(tokens, text, j);
    MaximalWordSpanUnique(text, s, s, e, tokens[j].start, tokens[j].end);
  }
}
