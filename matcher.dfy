/**
  The auto-speak tracker (`checkInputMatch`): each time the typed text changes
  it looks for a reference word that ends exactly at the typed length, and
  speaks that word once when the typed text spells it out verbatim. The only
  state is the typed length at which a word was last spoken (-1 for none).
 */
module MatchTracker {
  import opened Chars
  import opened Segmenter

  /** `t.end === currentLen && t.isWord`. */
  predicate Completes(t: Token, n: int) {
    t.end == n && t.isWord
  }

  /** The index of the first token at or after `k` that completes at length `n`. */
  function FindCompletedFrom(tokens: seq<Token>, n: int, k: nat): (r: Option<nat>)
    requires k <= |tokens|
    ensures r.None? <==> forall i :: k <= i < |tokens| ==> !Completes(tokens[i], n)
    ensures r.Some? ==> k <= r.value < |tokens| && Completes(tokens[r.value], n)
                        && forall i :: k <= i < r.value ==> !Completes(tokens[i], n)
    decreases |tokens| - k
  {
    if k == |tokens| then None
    else if Completes(tokens[k], n) then Some(k)
    else FindCompletedFrom(tokens, n, k + 1)
  }

  /** `referenceTokens.find(t => t.end === currentLen && t.isWord)`. */
  function FindCompleted(tokens: seq<Token>, n: int): (r: Option<Token>)
    ensures r.None? <==> forall i :: 0 <= i < |tokens| ==> !Completes(tokens[i], n)
    ensures r.Some? ==> exists i :: 0 <= i < |tokens| && tokens[i] == r.value && Completes(tokens[i], n)
                                    && forall j :: 0 <= j < i ==> !Completes(tokens[j], n)
  {
    match FindCompletedFrom(tokens, n, 0)
    case None => None
    case Some(i) => Some(tokens[i])
  }

  /** What one call leaves behind: the new `lastSpokenIndexRef.current` and the word handed to speech. */
  datatype Outcome = Outcome(lastSpoken: int, spoken: Option<Text>)

  /** One call of `checkInputMatch(current)` against the reference tokens. */
  function MatchStep(lastSpoken: int, current: Text, tokens: seq<Token>, autoSpeakWord: bool, practiceMode: bool)
    : (r: Outcome)
    ensures !autoSpeakWord || !practiceMode ==> r == Outcome(lastSpoken, None)
    ensures autoSpeakWord && practiceMode && |current| < lastSpoken ==> r == Outcome(-1, None)
    ensures r.spoken.Some? ==> lastSpoken < |current| && r.lastSpoken == |current|
    ensures r.spoken.None? ==> r.lastSpoken == lastSpoken || r.lastSpoken == -1
    ensures r.spoken.None? && |current| >= lastSpoken ==> r.lastSpoken == lastSpoken
  {
    if !autoSpeakWord || !practiceMode then Outcome(lastSpoken, None)
    else if |current| < lastSpoken then Outcome(-1, None)
    else match FindCompleted(tokens, |current|)
      case None => Outcome(lastSpoken, None)
      case Some(t) =>
        if lastSpoken == |current| then Outcome(lastSpoken, None)
        else if Substring(current, t.start, t.end) == t.text then Outcome(|current|, Some(t.text))
        else Outcome(lastSpoken, None)
  }

  /** The statements of `checkInputMatch`, early returns included, over the tracker value and the reference tokens. */
  method CheckMatch(lastSpoken: int, currentText: Text, tokens: seq<Token>, autoSpeakWord: bool, practiceMode: bool)
    returns (newLastSpoken: int, spoken: Option<Text>)
    ensures Outcome(newLastSpoken, spoken) == MatchStep(lastSpoken, currentText, tokens, autoSpeakWord, practiceMode)
  {
    newLastSpoken, spoken := lastSpoken, None;
    if !autoSpeakWord || !practiceMode {
      return;
    }
    var currentLen := |currentText|;
    if currentLen < lastSpoken {
      newLastSpoken := -1;
      return;
    }
    var completed := FindCompleted(tokens, currentLen);
    if completed.Some? {
      var t := completed.value;
      if lastSpoken == currentLen {
        return;
      }
      var typedWord := Substring(currentText, t.start, t.end);
      if typedWord == t.text {
        spoken := Some(t.text);
        newLastSpoken := currentLen;
      }
    }
  }

  /** Some reference word ends at the typed length and the typed text spells it there. */
  ghost predicate WordTyped(current: Text, tokens: seq<Token>, i: int) {
    0 <= i < |tokens| && Completes(tokens[i], |current|)
    && tokens[i].start <= |current| && current[tokens[i].start..] == tokens[i].text
  }

  /** Past the last trigger, the call compares the typed text with the first word ending at its length. */
  lemma StepOnCompleted(lastSpoken: int, current: Text, tokens: seq<Token>, k: nat)
    requires lastSpoken < |current|
    requires FindCompletedFrom(tokens, |current|, 0) == Some(k)
    ensures var t := tokens[k];
            MatchStep(lastSpoken, current, tokens, true, true)
            == if Substring(current, t.start, t.end) == t.text then Outcome(|current|, Some(t.text))
               else Outcome(lastSpoken, None)
  {
  }

  /** If the typed text ends with a reference word at its offsets, past the last trigger, it is spoken. */
  lemma SpeaksWhenTyped(lastSpoken: int, current: Text, tokens: seq<Token>, i: int)
    requires WordEndsIncrease(tokens)
    requires lastSpoken < |current| && WordTyped(current, tokens, i)
    ensures MatchStep(lastSpoken, current, tokens, true, true) == Outcome(|current|, Some(tokens[i].text))
  {
    FirstCompletedIs(tokens, |current|, i);
    StepOnCompleted(lastSpoken, current, tokens, i);
  }

  /** When word ends increase, at most one word ends at a given length, so the search finds that one. */
  lemma FirstCompletedIs(tokens: seq<Token>, n: int, i: nat)
    requires WordEndsIncrease(tokens)
    requires i < |tokens| && Completes(tokens[i], n)
    ensures FindCompletedFrom(tokens, n, 0) == Some(i)
  {
    var k := FindCompletedFrom(tokens, n, 0).value;
    assert !(k < i);
  }

  /** A spoken word is a reference word the typed text ends with, at its offsets. */
  lemma TypedWhenSpeaks(lastSpoken: int, current: Text, tokens: seq<Token>, reference: Text)
    requires Spans(tokens, reference)
    requires MatchStep(lastSpoken, current, tokens, true, true).spoken.Some?
    ensures exists i :: WordTyped(current, tokens, i)
                        && MatchStep(lastSpoken, current, tokens, true, true).spoken.value == tokens[i].text
  {
    var k := FindCompletedFrom(tokens, |current|, 0).value;
    StepOnCompleted(lastSpoken, current, tokens, k);
    assert tokens[k].start <= tokens[k].end;
    assert WordTyped(current, tokens, k);
  }

  /**
    With the tracker enabled and the tokens of a reference text, a call speaks
    exactly when the typed length has not gone back below the last trigger,
    differs from it, and the typed text ends with a reference word verbatim at
    that word's own offsets; the word spoken is that word.
   */
  lemma SpeaksIff(lastSpoken: int, current: Text, tokens: seq<Token>, reference: Text)
    requires Tokenization(tokens, reference)
    ensures var r := MatchStep(lastSpoken, current, tokens, true, true);
            r.spoken.Some? <==> lastSpoken < |current| && exists i :: WordTyped(current, tokens, i)
    ensures var r := MatchStep(lastSpoken, current, tokens, true, true);
            r.spoken.Some? ==> exists i :: WordTyped(current, tokens, i) && r.spoken.value == tokens[i].text
  {
    if lastSpoken < |current| && exists i :: WordTyped(current, tokens, i) {
      var i :| WordTyped(current, tokens, i);
      WordEndsIncreasing(tokens, reference);
      SpeaksWhenTyped(lastSpoken, current, tokens, i);
    }
    if MatchStep(lastSpoken, current, tokens, true, true).spoken.Some? {
      TypedWhenSpeaks(lastSpoken, current, tokens, reference);
    }
  }

  /**
    Typing the reference faithfully up to the end of one of its words, past
    the last trigger, announces that word.
   */
  lemma TypingReferenceSpeaksWord(lastSpoken: int, tokens: seq<Token>, reference: Text, i: nat)
    requires Tokenization(tokens, reference)
    requires i < |tokens| && tokens[i].isWord && lastSpoken < tokens[i].end
    ensures MatchStep(lastSpoken, reference[..tokens[i].end], tokens, true, true)
            == Outcome(tokens[i].end, Some(tokens[i].text))
  {
    var t := tokens[i];
    var current := reference[..t.end];
    assert current[t.start..] == reference[t.start..t.end];
    assert WordTyped(current, tokens, i);
    WordEndsIncreasing(tokens, reference);
    SpeaksWhenTyped(lastSpoken, current, tokens, i);
  }

  /**
    A spoken word holds a unit that is neither white space nor punctuation (a
    letter, a digit or a symbol) and it is what the typed text ends with.
   */
  lemma SpokenWordEndsTyping(lastSpoken: int, current: Text, tokens: seq<Token>, reference: Text)
    requires Tokenization(tokens, reference)
    ensures var r := MatchStep(lastSpoken, current, tokens, true, true);
            r.spoken.Some? ==> var w := r.spoken.value;
                               HasWordUnit(w) && |w| <= |current| && current[|current| - |w|..] == w
  {
    SpeaksIff(lastSpoken, current, tokens, reference);
  }

  /** The tracker's state is -1 or the end of some reference word. */
  ghost predicate Tracks(lastSpoken: int, tokens: seq<Token>) {
    lastSpoken == -1 || exists i :: 0 <= i < |tokens| && Completes(tokens[i], lastSpoken)
  }

  /** Every call keeps the state either -1 or at the end of a reference word. */
  lemma MatchStepTracks(lastSpoken: int, current: Text, tokens: seq<Token>, autoSpeakWord: bool, practiceMode: bool)
    requires Tracks(lastSpoken, tokens)
    ensures Tracks(MatchStep(lastSpoken, current, tokens, autoSpeakWord, practiceMode).lastSpoken, tokens)
    ensures MatchStep(lastSpoken, current, tokens, autoSpeakWord, practiceMode).lastSpoken >= -1
  {
    var r := MatchStep(lastSpoken, current, tokens, autoSpeakWord, practiceMode);
    if r.spoken.Some? {
      var k := FindCompletedFrom(tokens, |current|, 0).value;
      assert Completes(tokens[k], r.lastSpoken);
    } else if lastSpoken != -1 {
      var k :| 0 <= k < |tokens| && Completes(tokens[k], lastSpoken);
      assert tokens[k].end >= 0;
    }
  }

  /** The state and the words spoken after a sequence of calls. */
  datatype Trace = Trace(lastSpoken: int, spoken: seq<Option<Text>>)

  /** `checkInputMatch` called once per typed text, in order. */
  function Run(lastSpoken: int, inputs: seq<Text>, tokens: seq<Token>, autoSpeakWord: bool, practiceMode: bool)
    : (t: Trace)
    ensures |t.spoken| == |inputs|
    decreases |inputs|
  {
    if inputs == [] then Trace(lastSpoken, [])
    else
      var o := MatchStep(lastSpoken, inputs[0], tokens, autoSpeakWord, practiceMode);
      var rest := Run(o.lastSpoken, inputs[1..], tokens, autoSpeakWord, practiceMode);
      Trace(rest.lastSpoken, [o.spoken] + rest.spoken)
  }

  /** All typed texts have length `n`. */
  ghost predicate AllOfLength(inputs: seq<Text>, n: int) {
    forall k :: 0 <= k < |inputs| ==> |inputs[k]| == n
  }

  /** Once a word has been spoken at length `n`, further calls at length `n` stay silent. */
  lemma {:induction false} SilentAfterSpeaking(n: nat, inputs: seq<Text>, tokens: seq<Token>, autoSpeakWord: bool, practiceMode: bool)
    requires AllOfLength(inputs, n)
    ensures var t := Run(n, inputs, tokens, autoSpeakWord, practiceMode);
            t.lastSpoken == n && forall k :: 0 <= k < |inputs| ==> t.spoken[k] == None
  {
    if inputs != [] {
      SilentAfterSpeaking(n, inputs[1..], tokens, autoSpeakWord, practiceMode);
    }
  }

  /** No two of the calls spoke. */
  ghost predicate AtMostOneSpoken(spoken: seq<Option<Text>>) {
    forall k, m :: 0 <= k < m < |spoken| ==> spoken[k] == None || spoken[m] == None
  }

  /**
    Repeated calls with texts of one and the same length speak at most once:
    the tracker never announces a word twice without the typing first going
    back below the trigger.
   */
  lemma {:induction false} SameLengthSpeaksAtMostOnce(lastSpoken: int, n: nat, inputs: seq<Text>, tokens: seq<Token>,
                                                      autoSpeakWord: bool, practiceMode: bool)
    requires AllOfLength(inputs, n)
    ensures AtMostOneSpoken(Run(lastSpoken, inputs, tokens, autoSpeakWord, practiceMode).spoken)
  {
    if inputs != [] {
      var o := MatchStep(lastSpoken, inputs[0], tokens, autoSpeakWord, practiceMode);
      var t := Run(lastSpoken, inputs, tokens, autoSpeakWord, practiceMode).spoken;
      var rest := Run(o.lastSpoken, inputs[1..], tokens, autoSpeakWord, practiceMode).spoken;
      assert AllOfLength(inputs[1..], n);
      assert t == [o.spoken] + rest;
      if o.spoken.Some? {
        SilentAfterSpeaking(n, inputs[1..], tokens, autoSpeakWord, practiceMode);
      } else {
        SameLengthSpeaksAtMostOnce(o.lastSpoken, n, inputs[1..], tokens, autoSpeakWord, practiceMode);
        forall k, m | 0 <= k < m < |t|
          ensures t[k] == None || t[m] == None
        {
          if k > 0 {
            assert t[k] == rest[k - 1] && t[m] == rest[m - 1];
          }
        }
      }
    }
  }

  /** The tracker value before each call of a run. */
  function States(lastSpoken: int, inputs: seq<Text>, tokens: seq<Token>, autoSpeakWord: bool, practiceMode: bool)
    : (s: seq<int>)
    ensures |s| == |inputs|
    ensures inputs != [] ==> s[0] == lastSpoken
    decreases |inputs|
  {
    if inputs == [] then []
    else
      var o := MatchStep(lastSpoken, inputs[0], tokens, autoSpeakWord, practiceMode);
      [lastSpoken] + States(o.lastSpoken, inputs[1..], tokens, autoSpeakWord, practiceMode)
  }

  /** Call `j` of a run is `MatchStep` from the value before it, and leaves the value before call `j + 1`. */
  lemma {:induction false} RunAt(lastSpoken: int, inputs: seq<Text>, tokens: seq<Token>, autoSpeakWord: bool,
                                 practiceMode: bool, j: nat)
    requires j < |inputs|
    ensures var st := States(lastSpoken, inputs, tokens, autoSpeakWord, practiceMode);
            var o := MatchStep(st[j], inputs[j], tokens, autoSpeakWord, practiceMode);
            && Run(lastSpoken, inputs, tokens, autoSpeakWord, practiceMode).spoken[j] == o.spoken
            && (j + 1 < |inputs| ==> st[j + 1] == o.lastSpoken)
    decreases j
  {
    var o := MatchStep(lastSpoken, inputs[0], tokens, autoSpeakWord, practiceMode);
    var st := States(lastSpoken, inputs, tokens, autoSpeakWord, practiceMode);
    var rest := States(o.lastSpoken, inputs[1..], tokens, autoSpeakWord, practiceMode);
    assert st == [lastSpoken] + rest;
    var t := Run(lastSpoken, inputs, tokens, autoSpeakWord, practiceMode).spoken;
    var tr := Run(o.lastSpoken, inputs[1..], tokens, autoSpeakWord, practiceMode).spoken;
    assert t == [o.spoken] + tr;
    if j > 0 {
      RunAt(o.lastSpoken, inputs[1..], tokens, autoSpeakWord, practiceMode, j - 1);
      assert inputs[1..][j - 1] == inputs[j];
    }
  }

  /**
    After call `k` speaks, as long as no later call goes below the tracker
    value, the value stays at least the length typed at call `k`.
   */
  lemma {:induction false} StaysAtTrigger(lastSpoken: int, inputs: seq<Text>, tokens: seq<Token>, autoSpeakWord: bool,
                                          practiceMode: bool, k: nat, j: nat)
    requires k < j < |inputs|
    requires Run(lastSpoken, inputs, tokens, autoSpeakWord, practiceMode).spoken[k].Some?
    requires var st := States(lastSpoken, inputs, tokens, autoSpeakWord, practiceMode);
             forall i :: k < i < j ==> |inputs[i]| >= st[i]
    ensures States(lastSpoken, inputs, tokens, autoSpeakWord, practiceMode)[j] >= |inputs[k]|
    decreases j
  {
    var st := States(lastSpoken, inputs, tokens, autoSpeakWord, practiceMode);
    RunAt(lastSpoken, inputs, tokens, autoSpeakWord, practiceMode, j - 1);
    if j > k + 1 {
      StaysAtTrigger(lastSpoken, inputs, tokens, autoSpeakWord, practiceMode, k, j - 1);
      assert |inputs[j - 1]| >= st[j - 1];
    }
  }

  /**
    Over any run, two calls at the same typed length never both speak unless
    some call between them went below the tracker value (and so reset it):
    a word is announced at most once per completion, whatever lengths are
    typed in between.
   */
  lemma OncePerCompletion(lastSpoken: int, inputs: seq<Text>, tokens: seq<Token>, autoSpeakWord: bool,
                          practiceMode: bool, k: nat, m: nat)
    requires k < m < |inputs| && |inputs[k]| == |inputs[m]|
    requires var t := Run(lastSpoken, inputs, tokens, autoSpeakWord, practiceMode);
             t.spoken[k].Some? && t.spoken[m].Some?
    ensures var st := States(lastSpoken, inputs, tokens, autoSpeakWord, practiceMode);
            exists j :: k < j < m && |inputs[j]| < st[j]
  {
    var st := States(lastSpoken, inputs, tokens, autoSpeakWord, practiceMode);
    if forall i :: k < i < m ==> |inputs[i]| >= st[i] {
      StaysAtTrigger(lastSpoken, inputs, tokens, autoSpeakWord, practiceMode, k, m);
      RunAt(lastSpoken, inputs, tokens, autoSpeakWord, practiceMode, m);
      assert false;
    }
  }

  /** "hi yo" as the reference: the word "hi", the space, the word "yo". */
  const HiYo: seq<Token> := [Token([104, 105], true, 0, 2, false), Token([32], false, 2, 3, false),
                             Token([121, 111], true, 3, 5, false)]

  /** "hi yo" splits into "hi", " " and "yo". */
  lemma SplitHiYo()
    ensures Split([104, 105, 32, 121, 111]) == [[104, 105], [32], [121, 111]]
  {
    var s: Text := [104, 105, 32, 121, 111];
    assert SplitFrom(s, 0, 0) == SplitFrom(s, 0, 2) by {
      assert !IsSeparator(s[0]) && !IsSeparator(s[1]);
    }
    SplitHiYoTail(s);
    assert s[0..2] == [104, 105] && s[2..3] == [32];
  }

  /** From the space on, "hi yo" splits into " " and "yo". */
  lemma SplitHiYoTail(s: Text)
    requires s == [104, 105, 32, 121, 111]
    ensures SplitFrom(s, 0, 2) == [s[0..2], s[2..3], [121, 111]]
  {
    assert RunEnd(s, 2) == 3;
    assert SplitFrom(s, 3, 3) == [[121, 111]] by {
      assert !IsSeparator(s[3]) && !IsSeparator(s[4]);
      assert SplitFrom(s, 3, 5) == [s[3..]];
    }
  }

  /** The flags of the three pieces of "hi yo". */
  lemma HiYoFlags()
    ensures HasWordUnit([104, 105]) && !HasWordUnit([32]) && HasWordUnit([121, 111])
    ensures !HasCJK([104, 105]) && !HasCJK([32]) && !HasCJK([121, 111])
  {
    assert IsWordUnit(104) && IsWordUnit(121) && !IsWordUnit(32);
  }

  /** `HiYo` is what the tokenizer makes of "hi yo". */
  lemma HiYoIsTokenized()
    ensures Tokenize([104, 105, 32, 121, 111]) == HiYo
  {
    SplitHiYo();
    HiYoFlags();
    var pieces: seq<Text> := [[104, 105], [32], [121, 111]];
    assert pieces[..1] == [[104, 105]] && pieces[..2] == [[104, 105], [32]];
    assert Offset(pieces, 0) == 0 && Offset(pieces, 1) == 2 && Offset(pieces, 2) == 3;
    var tokens := Numbered(pieces);
    assert tokens[0] == HiYo[0] && tokens[1] == HiYo[1] && tokens[2] == HiYo[2];
  }

  /**
    Typing "h", "hi", "hi ", then backspacing to "hi", "h" and retyping "hi":
    "hi" is spoken when first completed, not when the caret comes back to the
    trigger length, and again after the text went below it.
   */
  lemma BackspaceScenario()
    ensures Run(-1, [[104], [104, 105], [104, 105, 32], [104, 105], [104], [104, 105]], HiYo, true, true)
            == Trace(2, [None, Some([104, 105]), None, None, None, Some([104, 105])])
  {
  }

  /**
    With auto-speak off, typing "h" and "hi" says nothing and leaves the
    tracker at -1; once the switch is on, the next call on the unchanged
    "hi" (the input effect re-run because the tokens were rebuilt) speaks it.
   */
  lemma DeferredSpeech()
    ensures Run(-1, [[104], [104, 105]], HiYo, false, true) == Trace(-1, [None, None])
    ensures MatchStep(-1, [104, 105], HiYo, true, true) == Outcome(2, Some([104, 105]))
  {
  }

  /** An empty typed text never speaks, and leaves a tracker at -1 or 0 as it is. */
  lemma EmptyTypingIsSilent(lastSpoken: int, reference: Text, autoSpeakWord: bool, practiceMode: bool)
    ensures var r := MatchStep(lastSpoken, [], Tokenize(reference), autoSpeakWord, practiceMode);
            r.spoken == None && (lastSpoken <= 0 ==> r.lastSpoken == lastSpoken)
  {
    var tokens := Tokenize(reference);
    TokenizeIsTokenization(reference);
    forall i | 0 <= i < |tokens|
      ensures !Completes(tokens[i], 0)
    {
      if tokens[i].end == 0 {
        assert tokens[i].text == [];
      }
    }
    assert FindCompleted(tokens, 0) == None;
  }
}
