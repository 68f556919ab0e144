/**
  The reference-text tokenizer on its fallback path: the text is split on runs
  of the separator class with a capturing split, so that the runs are kept as
  pieces of their own, and the pieces are then numbered left to right with
  half-open offsets and classified as word / non-word and CJK / non-CJK.
 */
module Segmenter {
  import opened Chars

  /** One entry of `referenceTokens`. `start`/`end` are half-open code-unit offsets. */
  datatype Token = Token(text: Text, isWord: bool, start: nat, end: nat, isCJK: bool)

  /**
    End of the match of `[sep]+` that a sticky match at `q` finds: the `+` is
    greedy, so the match runs to the first non-separator or the end of `s`.
   */
  function RunEnd(s: Text, q: nat): (e: nat)
    requires q < |s| && IsSeparator(s[q])
    ensures q < e <= |s|
    ensures AllSeparators(s[q..e])
    ensures e == |s| || !IsSeparator(s[e])
    decreases |s| - q
  {
    if q + 1 < |s| && IsSeparator(s[q + 1]) then
      var e := RunEnd(s, q + 1);
      assert s[q..e] == [s[q]] + s[q + 1..e];
      e
    else q + 1
  }

  /**
    The loop of `String.prototype.split` with a regular-expression separator
    (`RegExp.prototype[@@split]`, section 22.2.6.14 of ECMA-262, 2023 edition),
    for a pattern with one capturing group that spans the whole match: `p` is
    the end of the last match, `q` the position being tried. A failed match
    advances `q`; a match `[q, e)` emits the piece `s[p..q]` and the captured
    run `s[q..e]`, and restarts at `e`. The standard's branch for a match that
    ends at `p` cannot be taken, since `[sep]+` never matches the empty string.
   */
  function SplitFrom(s: Text, p: nat, q: nat): (pieces: seq<Text>)
    requires p <= q <= |s|
    ensures |pieces| % 2 == 1
    decreases |s| - q
  {
    if q == |s| then [s[p..]]
    else if !IsSeparator(s[q]) then SplitFrom(s, p, q + 1)
    else
      var e := RunEnd(s, q);
      [s[p..q], s[q..e]] + SplitFrom(s, e, e)
  }

  /**
    `s.split(/([\s,.!?;:，。！？、：；「」『』()（）\n]+)/)`: the pieces
    concatenate back to the text and have the alternating shape.
   */
  function Split(s: Text): (pieces: seq<Text>)
    ensures Concat(pieces) == s
    ensures Alternates(pieces)
  {
    SplitFromConcat(s, 0, 0);
    SplitFromAlternates(s, 0, 0);
    SplitFrom(s, 0, 0)
  }

  /**
    The shape of a capturing split on `[sep]+`: an odd number of pieces,
    separator-free pieces at even positions, non-empty separator runs at odd
    positions, and only the first and the last piece possibly empty.
   */
  ghost predicate Alternates(pieces: seq<Text>) {
    && |pieces| % 2 == 1
    && (forall i :: 0 <= i < |pieces| && i % 2 == 0 ==> NoSeparator(pieces[i]))
    && (forall i :: 0 <= i < |pieces| && i % 2 == 1 ==> pieces[i] != [] && AllSeparators(pieces[i]))
    && (forall i :: 0 < i < |pieces| - 1 && i % 2 == 0 ==> pieces[i] != [])
  }

  /** The pieces of the split from `p` concatenate back to the text from `p`. */
  lemma {:induction false} SplitFromConcat(s: Text, p: nat, q: nat)
    requires p <= q <= |s|
    ensures Concat(SplitFrom(s, p, q)) == s[p..]
    decreases |s| - q
  {
    if q == |s| {
      assert Concat([s[p..]]) == s[p..] + Concat([]);
    } else if !IsSeparator(s[q]) {
      SplitFromConcat(s, p, q + 1);
    } else {
      var e := RunEnd(s, q);
      SplitFromConcat(s, e, e);
      var rest := SplitFrom(s, e, e);
      ConcatAppend([s[p..q], s[q..e]], rest);
      assert Concat([s[p..q], s[q..e]]) == s[p..q] + s[q..e] by {
        assert Concat([s[p..q], s[q..e]]) == s[p..q] + Concat([s[q..e]]);
        assert Concat([s[q..e]]) == s[q..e] + Concat([]);
      }
      assert s[p..] == s[p..q] + s[q..e] + s[e..];
    }
  }

  /**
    The split from `p`, when no separator lies in `[p, q)`, has the
    alternating shape, and its first piece is non-empty when `s[p]` is not a
    separator.
   */
  lemma {:induction false} SplitFromAlternates(s: Text, p: nat, q: nat)
    requires p <= q <= |s|
    requires NoSeparator(s[p..q])
    ensures Alternates(SplitFrom(s, p, q))
    ensures p < |s| && !IsSeparator(s[p]) ==> SplitFrom(s, p, q)[0] != []
    decreases |s| - q
  {
    if q == |s| {
    } else if !IsSeparator(s[q]) {
      assert s[p..q + 1] == s[p..q] + [s[q]];
      SplitFromAlternates(s, p, q + 1);
    } else {
      var e := RunEnd(s, q);
      assert s[e..e] == [];
      SplitFromAlternates(s, e, e);
      AlternatesCons(s[p..q], s[q..e], SplitFrom(s, e, e));
    }
  }

  /** A separator-free piece and a separator run in front of an alternating split keep it alternating. */
  lemma AlternatesCons(piece: Text, run: Text, rest: seq<Text>)
    requires NoSeparator(piece) && run != [] && AllSeparators(run)
    requires Alternates(rest) && (|rest| > 1 ==> rest[0] != [])
    ensures Alternates([piece, run] + rest)
  {
    var r := [piece, run] + rest;
    forall i | 2 <= i < |r|
      ensures r[i] == rest[i - 2] && (i - 2) % 2 == i % 2
    {
    }
  }

  /** A text made only of separators splits into an empty piece, the whole run and an empty piece. */
  lemma SplitOfSeparatorsOnly(s: Text)
    requires s != [] && AllSeparators(s)
    ensures Split(s) == [[], s, []]
  {
    var e := RunEnd(s, 0);
    assert e == |s|;
    assert s[0..e] == s && s[0..0] == [];
    assert SplitFrom(s, e, e) == [s[e..]] && s[e..] == [];
    assert Split(s) == [s[0..0], s[0..e]] + SplitFrom(s, e, e);
  }

  /** A non-empty text without separators is a single piece. */
  lemma {:induction false} SplitWithoutSeparators(s: Text, q: nat)
    requires q <= |s| && NoSeparator(s)
    ensures SplitFrom(s, 0, q) == [s]
    decreases |s| - q
  {
    if q < |s| {
      SplitWithoutSeparators(s, q + 1);
    }
  }

  /** The texts of a token list, in order. */
  function Texts(tokens: seq<Token>): (r: seq<Text>)
    ensures |r| == |tokens| && forall i :: 0 <= i < |tokens| ==> r[i] == tokens[i].text
  {
    seq(|tokens|, i requires 0 <= i < |tokens| => tokens[i].text)
  }

  /**
    Token spans: no tokens for the empty text; otherwise contiguous half-open
    spans from 0 to the end of the text, each token's text read at its span.
   */
  ghost predicate Spans(tokens: seq<Token>, text: Text) {
    && (tokens == [] <==> text == [])
    && (tokens != [] ==> tokens[0].start == 0 && tokens[|tokens| - 1].end == |text|)
    && (forall i :: 0 <= i < |tokens| - 1 ==> tokens[i].end == tokens[i + 1].start)
    && (forall i :: 0 <= i < |tokens| ==>
          tokens[i].start <= tokens[i].end <= |text| && tokens[i].text == text[tokens[i].start..tokens[i].end])
  }

  /** Each token's flags are computed from its own text. */
  ghost predicate Flags(tokens: seq<Token>) {
    forall i :: 0 <= i < |tokens| ==>
      (tokens[i].isWord <==> HasWordUnit(tokens[i].text)) && (tokens[i].isCJK <==> HasCJK(tokens[i].text))
  }

  /**
    What `referenceTokens` promises about its result: contiguous spans, flags
    computed from the token texts, and the alternating shape of the split.
   */
  ghost predicate Tokenization(tokens: seq<Token>, text: Text) {
    && Spans(tokens, text)
    && Flags(tokens)
    && (tokens != [] ==> Alternates(Texts(tokens)))
  }

  /** Appending one piece to a concatenation. */
  lemma ConcatSnoc(pieces: seq<Text>, i: nat)
    requires i < |pieces|
    ensures Concat(pieces[..i + 1]) == Concat(pieces[..i]) + pieces[i]
  {
    var a, b := pieces[..i], [pieces[i]];
    ConcatAppend(a, b);
    assert pieces[..i + 1] == a + b;
    assert Concat(b) == pieces[i] + Concat([]);
  }

  /** Splitting a concatenation around its `i`-th piece. */
  lemma ConcatAround(pieces: seq<Text>, i: nat)
    requires i < |pieces|
    ensures Concat(pieces) == Concat(pieces[..i]) + pieces[i] + Concat(pieces[i + 1..])
  {
    var a, b := pieces[..i + 1], pieces[i + 1..];
    assert a + b == pieces;
    ConcatAppend(a, b);
    ConcatSnoc(pieces, i);
  }

  /** The middle part of a three-way concatenation. */
  lemma SliceOfConcat(a: Text, b: Text, c: Text)
    ensures (a + b + c)[|a|..|a| + |b|] == b
  {
  }

  /** Where piece `j` starts: the total length of the pieces before it. */
  function Offset(pieces: seq<Text>, j: nat): nat
    requires j <= |pieces|
  {
    |Concat(pieces[..j])|
  }

  /** The token made of piece `j`, with its offsets and flags. */
  function NumberPiece(pieces: seq<Text>, j: nat): Token
    requires j < |pieces|
  {
    var start := Offset(pieces, j);
    Token(pieces[j], HasWordUnit(pieces[j]), start, start + |pieces[j]|, HasCJK(pieces[j]))
  }

  /** Each piece starts where the one before it ends. */
  lemma OffsetsStep(pieces: seq<Text>)
    ensures forall j :: 0 <= j < |pieces| ==> Offset(pieces, j + 1) == Offset(pieces, j) + |pieces[j]|
  {
    forall j | 0 <= j < |pieces|
      ensures Offset(pieces, j + 1) == Offset(pieces, j) + |pieces[j]|
    {
      ConcatSnoc(pieces, j);
    }
  }

  /**
    All pieces numbered left to right: the `tokens.map(...)` step as a value.
    One token per piece; the first starts at 0, each next one where the one
    before it ends, and the last ends at the length of the whole text.
   */
  function Numbered(pieces: seq<Text>): (tokens: seq<Token>)
    ensures |tokens| == |pieces|
    ensures tokens != [] ==> tokens[0].start == 0 && tokens[|tokens| - 1].end == |Concat(pieces)|
    ensures forall j :: 0 <= j < |tokens| - 1 ==> tokens[j].end == tokens[j + 1].start
  {
    OffsetsStep(pieces);
    assert pieces[..0] == [] && pieces[..|pieces|] == pieces;
    var tokens := seq(|pieces|, j requires 0 <= j < |pieces| => NumberPiece(pieces, j));
    assert pieces != [] ==> Offset(pieces, |pieces|) == |Concat(pieces)|;
    tokens
  }

  /** The offsets given by numbering are contiguous spans over the text. */
  lemma NumberedSpans(pieces: seq<Text>, text: Text)
    requires pieces != [] && text != [] && Concat(pieces) == text
    ensures Spans(Numbered(pieces), text)
  {
    var tokens := Numbered(pieces);
    assert pieces[..0] == [];
    forall i | 0 <= i < |tokens|
      ensures tokens[i].start <= tokens[i].end <= |text|
      ensures tokens[i].text == text[tokens[i].start..tokens[i].end]
      ensures i + 1 < |tokens| ==> tokens[i].end == tokens[i + 1].start
      ensures i + 1 == |tokens| ==> tokens[i].end == |text|
    {
      ConcatAround(pieces, i);
      ConcatSnoc(pieces, i);
      SliceOfConcat(Concat(pieces[..i]), pieces[i], Concat(pieces[i + 1..]));
      if i + 1 == |tokens| {
        assert pieces[i + 1..] == [];
      }
    }
  }

  /** Numbering the split of a non-empty text gives a tokenization of it. */
  lemma NumberedSplitIsTokenization(text: Text)
    requires text != []
    ensures Tokenization(Numbered(Split(text)), text)
  {
    var pieces := Split(text);
    NumberedSpans(pieces, text);
    assert Texts(Numbered(pieces)) == pieces;
  }

  /**
    The token list of a reference text: none for the empty text, else the
    numbered split, an odd number of tokens whose spans run from 0 to the end
    of the text.
   */
  function Tokenize(text: Text): (tokens: seq<Token>)
    ensures tokens == [] <==> text == []
    ensures tokens != [] ==> |tokens| % 2 == 1 && tokens[0].start == 0 && tokens[|tokens| - 1].end == |text|
  {
    if text == [] then [] else Numbered(Split(text))
  }

  /** The token list of every reference text is a tokenization of it. */
  lemma TokenizeIsTokenization(text: Text)
    ensures Tokenization(Tokenize(text), text)
  {
    if text != [] {
      NumberedSplitIsTokenization(text);
    }
  }

  /**
    `referenceTokens` on the fallback path: the empty text gives no tokens;
    otherwise the split pieces are numbered with a running `globalIndex`.
   */
  method ReferenceTokens(text: Text) returns (tokens: seq<Token>)
    ensures text == [] ==> tokens == []
    ensures tokens == Tokenize(text)
  {
    if text == [] {
      return [];
    }
    var pieces := Split(text);
    var globalIndex := 0;
    tokens := [];
    assert pieces[..0] == [];
    for i := 0 to |pieces|
      invariant |tokens| == i
      invariant globalIndex == Offset(pieces, i)
      invariant forall j :: 0 <= j < i ==> tokens[j] == NumberPiece(pieces, j)
    {
      var piece := pieces[i];
      ConcatSnoc(pieces, i);
      var start := globalIndex;
      var end := globalIndex + |piece|;
      globalIndex := globalIndex + |piece|;
      tokens := tokens + [Token(piece, HasWordUnit(piece), start, end, HasCJK(piece))];
    }
  }

  /** Token spans never go backwards: an earlier token ends no later than a later one starts. */
  lemma {:induction false} SpansOrdered(tokens: seq<Token>, text: Text, i: nat, j: nat)
    requires Spans(tokens, text)
    requires i < j < |tokens|
    ensures tokens[i].end <= tokens[j].start
    decreases j - i
  {
    if i + 1 < j {
      SpansOrdered(tokens, text, i + 1, j);
      assert tokens[i + 1].start <= tokens[i + 1].end;
    }
  }

  /** Concatenating the token texts from `i` on gives the text from `tokens[i].start` on. */
  lemma {:induction false} SuffixReconstructs(tokens: seq<Token>, text: Text, i: nat)
    requires Spans(tokens, text)
    requires i < |tokens|
    ensures Concat(Texts(tokens)[i..]) == text[tokens[i].start..]
    decreases |tokens| - i
  {
    var ts := Texts(tokens);
    var t := tokens[i];
    assert t.text == text[t.start..t.end];
    assert ts[i..][0] == t.text;
    assert ts[i..][1..] == ts[i + 1..];
    assert text[t.start..] == text[t.start..t.end] + text[t.end..];
    if i + 1 < |tokens| {
      SuffixReconstructs(tokens, text, i + 1);
    } else {
      assert ts[i + 1..] == [];
      assert text[t.end..] == [];
    }
  }

  /** Any set of contiguous spans over a text reconstructs it exactly. */
  lemma Reconstructs(tokens: seq<Token>, text: Text)
    requires Spans(tokens, text)
    ensures Concat(Texts(tokens)) == text
  {
    if tokens != [] {
      SuffixReconstructs(tokens, text, 0);
      assert Texts(tokens)[0..] == Texts(tokens);
    }
  }

  /** Every position of the text lies inside some token. */
  lemma {:induction false} Covers(tokens: seq<Token>, text: Text, k: nat)
    requires Spans(tokens, text)
    requires k < |text|
    ensures exists j :: 0 <= j < |tokens| && tokens[j].start <= k < tokens[j].end
  {
    var j := 0;
    while tokens[j].end <= k
      invariant 0 <= j < |tokens| && tokens[j].start <= k
      decreases |tokens| - j
    {
      j := j + 1;
    }
  }

  /** The separator runs kept by the capturing split are never words. */
  lemma SeparatorRunsAreNotWords(tokens: seq<Token>, text: Text, i: nat)
    requires Tokenization(tokens, text)
    requires i < |tokens| && i % 2 == 1
    ensures tokens[i].text != [] && !tokens[i].isWord
  {
    var t := tokens[i].text;
    assert Texts(tokens)[i] == t;
    forall k | 0 <= k < |t| ensures !IsWordUnit(t[k]) {
      SeparatorIsNotWordUnit(t[k]);
    }
  }

  /** The token before an even-position token is a separator run, so a separator precedes it. */
  lemma PieceFollowsSeparator(tokens: seq<Token>, text: Text, i: nat)
    requires Spans(tokens, text) && tokens != [] && Alternates(Texts(tokens))
    requires 0 < i < |tokens| && i % 2 == 0
    ensures 0 < tokens[i].start <= |text| && IsSeparator(text[tokens[i].start - 1])
  {
    var prev := tokens[i - 1];
    assert (i - 1) % 2 == 1;
    assert Texts(tokens)[i - 1] == prev.text;
    assert prev.text != [] && AllSeparators(prev.text);
    assert prev.text == text[prev.start..prev.end] && prev.end == tokens[i].start;
    assert prev.text[|prev.text| - 1] == text[tokens[i].start - 1];
  }

  /** The token after an even-position token is a separator run, so a separator follows it. */
  lemma PiecePrecedesSeparator(tokens: seq<Token>, text: Text, i: nat)
    requires Spans(tokens, text) && tokens != [] && Alternates(Texts(tokens))
    requires i < |tokens| - 1 && i % 2 == 0
    ensures tokens[i].end < |text| && IsSeparator(text[tokens[i].end])
  {
    var next := tokens[i + 1];
    assert (i + 1) % 2 == 1;
    assert Texts(tokens)[i + 1] == next.text;
    assert next.text != [] && AllSeparators(next.text);
    assert next.text == text[next.start..next.end] && next.start == tokens[i].end;
    assert next.text[0] == text[tokens[i].end];
  }

  /** A token at an even position is separator-free and bounded by separators or the ends of the text. */
  lemma PiecesAreMaximal(tokens: seq<Token>, text: Text, i: nat)
    requires Spans(tokens, text) && tokens != [] && Alternates(Texts(tokens))
    requires i < |tokens| && i % 2 == 0
    ensures NoSeparator(text[tokens[i].start..tokens[i].end])
    ensures tokens[i].start == 0 || IsSeparator(text[tokens[i].start - 1])
    ensures tokens[i].end == |text| || IsSeparator(text[tokens[i].end])
  {
    assert Texts(tokens)[i] == tokens[i].text;
    if i > 0 {
      PieceFollowsSeparator(tokens, text, i);
    }
    if i < |tokens| - 1 {
      PiecePrecedesSeparator(tokens, text, i);
    }
  }

  /** At most one word token ends at any given offset. */
  lemma WordEndsUnique(tokens: seq<Token>, text: Text, i: nat, j: nat)
    requires Tokenization(tokens, text)
    requires i < j < |tokens|
    requires tokens[i].isWord && tokens[j].isWord
    ensures tokens[i].end < tokens[j].end
  {
    SpansOrdered(tokens, text, i, j);
    assert tokens[j].text == text[tokens[j].start..tokens[j].end];
  }

  /** Word tokens end at strictly increasing offsets. */
  ghost predicate WordEndsIncrease(tokens: seq<Token>) {
    forall i, j :: 0 <= i < j < |tokens| && tokens[i].isWord && tokens[j].isWord ==> tokens[i].end < tokens[j].end
  }

  lemma WordEndsIncreasing(tokens: seq<Token>, text: Text)
    requires Tokenization(tokens, text)
    ensures WordEndsIncrease(tokens)
  {
    forall i, j | 0 <= i < j < |tokens| && tokens[i].isWord && tokens[j].isWord
      ensures tokens[i].end < tokens[j].end
    {
      WordEndsUnique(tokens, text, i, j);
    }
  }
}
