/**
  The practice state of the component that its handlers and effects update in
  place: the reference text, the typed text, the accuracy figure, the
  auto-speak tracker's `lastSpokenIndexRef` and the IME composition flag,
  together with the two switches that gate the tracker and the accuracy.
 */
module Session {
  import opened Chars
  import opened Segmenter
  import opened Accuracy
  import opened MatchTracker

  /** The sample text the component loads when it first mounts, as written in the source. */
  const SampleText: string :=
    "Accessibility is essential. こうした問題は解決できます。\n今天天氣很好，適合寫程式。\n안녕하세요.\nNamaste duniya.\nBonjour le monde.\n"

  class PracticeSession {
    var referenceText: Text
    var inputText: Text
    var accuracy: int
    var lastSpoken: int
    var composing: bool
    var practiceMode: bool
    var autoSpeakWord: bool
    var sourceLang: Text

    /** The accuracy is a percentage and the tracker is -1 or at the end of a reference word. */
    ghost predicate Valid()
      reads this
    {
      0 <= accuracy <= 100 && Tracks(lastSpoken, Tokenize(referenceText))
    }

    /** The state the component starts from: nothing loaded, nothing typed, both switches on, source "en-US". */
    constructor ()
      ensures Valid()
      ensures referenceText == [] && inputText == []
      ensures accuracy == 100 && lastSpoken == -1 && !composing
      ensures practiceMode && autoSpeakWord
      ensures sourceLang == [0x65, 0x6E, 0x2D, 0x55, 0x53]
    {
      referenceText := [];
      inputText := [];
      accuracy := 100;
      lastSpoken := -1;
      composing := false;
      practiceMode := true;
      autoSpeakWord := true;
      sourceLang := [0x65, 0x6E, 0x2D, 0x55, 0x53]; // "en-US"
    }

    /** The mount effect, right after construction: the sample text becomes the reference. */
    method Mount()
      requires Valid() && lastSpoken == -1 && inputText == []
      modifies this`referenceText, this`lastSpoken, this`accuracy
      ensures Valid() && lastSpoken == -1
      ensures referenceText == Utf16(SampleText)
      ensures practiceMode && referenceText != [] ==> accuracy == 100
      ensures !practiceMode || referenceText == [] ==> accuracy == old(accuracy)
    {
      var spoken := SetReference(Utf16(SampleText));
    }

    /**
      `setReferenceText(text)` with nothing typed and the tracker reset, and
      the two effects that follow: the input effect (the tokens changed),
      which stays silent, and the accuracy effect.
     */
    method SetReference(text: Text) returns (spoken: Option<Text>)
      requires Valid() && lastSpoken == -1 && inputText == []
      modifies this`referenceText, this`lastSpoken, this`accuracy
      ensures Valid() && lastSpoken == -1 && spoken == None
      ensures referenceText == text
      ensures practiceMode && text != [] ==> accuracy == 100
      ensures !practiceMode || text == [] ==> accuracy == old(accuracy)
    {
      referenceText := text;
      spoken := InputEffect();
      EmptyTypingIsSilent(-1, referenceText, autoSpeakWord, practiceMode);
      RefreshAccuracy();
    }

    /**
      `checkInputMatch(currentText)`: updates the tracker and returns the word
      handed to speech, if any.
     */
    method CheckInputMatch(currentText: Text) returns (spoken: Option<Text>)
      requires Valid()
      modifies this`lastSpoken
      ensures Valid()
      ensures Outcome(lastSpoken, spoken)
              == MatchStep(old(lastSpoken), currentText, Tokenize(referenceText), autoSpeakWord, practiceMode)
    {
      var tokens := ReferenceTokens(referenceText);
      MatchStepTracks(lastSpoken, currentText, tokens, autoSpeakWord, practiceMode);
      lastSpoken, spoken := CheckMatch(lastSpoken, currentText, tokens, autoSpeakWord, practiceMode);
    }

    /** The accuracy effect: recomputed only in practice mode with a non-empty reference. */
    method RefreshAccuracy()
      requires Valid()
      modifies this`accuracy
      ensures Valid()
      ensures practiceMode && referenceText != [] ==> accuracy == Score(inputText, referenceText)
      ensures !practiceMode || referenceText == [] ==> accuracy == old(accuracy)
    {
      if !practiceMode || referenceText == [] {
        return;
      }
      accuracy := ComputeAccuracy(inputText, referenceText);
    }

    /**
      The input effect, re-run whenever the typed text or the reference
      tokens change: the tracker runs unless an IME composition is in progress.
     */
    method InputEffect() returns (spoken: Option<Text>)
      requires Valid()
      modifies this`lastSpoken
      ensures Valid()
      ensures composing ==> spoken == None && lastSpoken == old(lastSpoken)
      ensures !composing ==>
                Outcome(lastSpoken, spoken)
                == MatchStep(old(lastSpoken), inputText, Tokenize(referenceText), autoSpeakWord, practiceMode)
    {
      spoken := None;
      if !composing {
        spoken := CheckInputMatch(inputText);
      }
    }

    /**
      `setInputText(text)` from the text area's `onChange`, and the two effects
      that follow a change. React re-runs an effect only when one of its
      dependencies changed, so setting the text it already holds changes nothing.
     */
    method Type(text: Text) returns (spoken: Option<Text>)
      requires Valid()
      modifies this`inputText, this`lastSpoken, this`accuracy
      ensures Valid()
      ensures inputText == text
      ensures text == old(inputText) ==> spoken == None && lastSpoken == old(lastSpoken) && accuracy == old(accuracy)
      ensures text != old(inputText) && composing ==> spoken == None && lastSpoken == old(lastSpoken)
      ensures text != old(inputText) && !composing ==>
                Outcome(lastSpoken, spoken)
                == MatchStep(old(lastSpoken), text, Tokenize(referenceText), autoSpeakWord, practiceMode)
      ensures text != old(inputText) && practiceMode && referenceText != [] ==> accuracy == Score(text, referenceText)
      ensures !practiceMode || referenceText == [] ==> accuracy == old(accuracy)
    {
      spoken := None;
      if text != inputText {
        inputText := text;
        spoken := InputEffect();
        RefreshAccuracy();
      }
    }

    /**
      The source-language selector. A new language rebuilds the memoized
      tokens (the same tokens on this path), so the input effect re-runs on
      the unchanged typed text; selecting the current language changes nothing.
     */
    method SetSourceLang(lang: Text) returns (spoken: Option<Text>)
      requires Valid()
      modifies this`sourceLang, this`lastSpoken
      ensures Valid() && sourceLang == lang
      ensures lang == old(sourceLang) || composing ==> spoken == None && lastSpoken == old(lastSpoken)
      ensures lang != old(sourceLang) && !composing ==>
                Outcome(lastSpoken, spoken)
                == MatchStep(old(lastSpoken), inputText, Tokenize(referenceText), autoSpeakWord, practiceMode)
    {
      spoken := None;
      if lang != sourceLang {
        sourceLang := lang;
        spoken := InputEffect();
      }
    }

    /** `handleCompositionStart`: the tracker pauses while an IME composes. */
    method CompositionStart()
      modifies this`composing
      ensures composing
    {
      composing := true;
    }

    /** `handleCompositionEnd`: the tracker runs on the composed text. */
    method CompositionEnd(value: Text) returns (spoken: Option<Text>)
      requires Valid()
      modifies this`composing, this`lastSpoken
      ensures Valid() && !composing
      ensures Outcome(lastSpoken, spoken)
              == MatchStep(old(lastSpoken), value, Tokenize(referenceText), autoSpeakWord, practiceMode)
    {
      composing := false;
      spoken := CheckInputMatch(value);
    }

    /**
      The reader's `onload` in `handleFileUpload`: new reference, cleared
      input, reset figures; the effects that follow change none of them.
     */
    method LoadFile(content: Text)
      modifies this`referenceText, this`inputText, this`accuracy, this`lastSpoken
      ensures Valid()
      ensures referenceText == content && inputText == []
      ensures accuracy == 100 && lastSpoken == -1
    {
      inputText := [];
      accuracy := 100;
      lastSpoken := -1;
      var spoken := SetReference(content);
    }

    /**
      The practice-mode switch and the accuracy effect it triggers when the
      mode changes; setting the mode it already has changes nothing.
     */
    method SetPracticeMode(on: bool)
      requires Valid()
      modifies this`practiceMode, this`accuracy
      ensures Valid() && practiceMode == on
      ensures on != old(practiceMode) && on && referenceText != [] ==> accuracy == Score(inputText, referenceText)
      ensures on == old(practiceMode) || !on || referenceText == [] ==> accuracy == old(accuracy)
    {
      if on != practiceMode {
        practiceMode := on;
        RefreshAccuracy();
      }
    }

    /** The auto-speak switch. */
    method SetAutoSpeakWord(on: bool)
      modifies this`autoSpeakWord
      ensures autoSpeakWord == on
    {
      autoSpeakWord := on;
    }
  }
}
