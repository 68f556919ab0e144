# Typing-practice core, in Dafny

The application is a single React component (`src/App.jsx`). It shows a
reference text (a built-in sample or a loaded file), and the user types a copy
of it into a text area. The component then:

- splits the reference into word and separator tokens;
- finds the word under the caret in the typed text;
- speaks each reference word once, as soon as it has been typed correctly;
- shows a positional accuracy percentage;
- translates the typed text through an online service, with an offline fallback;
- shows a demonstration phonetic when the user hovers over a reference word.

This project models the string and state logic behind those features and
proves what each part promises.

- `chars.dfy` (`Chars`): text as UTF-16 code units, the way JavaScript
  indexes and measures strings. It defines the character classes the
  component's regular expressions use:
  - `\s`;
  - `\p{P}`;
  - the separator class `[\s,.!?;:，。！？、：；「」『』()（）\n]`;
  - the CJK ranges of `isCJK`.

  It also has `substring` and `includes`.
- `segmenter.dfy` (`Segmenter`): `referenceTokens` on its regular-expression
  path.
  - The capturing split follows `RegExp.prototype[@@split]` (section
    22.2.6.14 of ECMA-262, 2023 edition).
  - The numbering loop keeps a running `globalIndex`.
  - Proved: contiguous spans that rebuild the text, alternation of separator-free
    pieces and separator runs, and maximality of the separator-free pieces.
- `cursor.dfy` (`Cursor`): `getWordAtCursor` on its fallback path, as a method
  with its two scanning loops. Proved: the located word is the maximal
  separator-free span around the (possibly shifted) caret, and it is exactly
  one of the tokenizer's separator-free pieces.
- `accuracy.dfy` (`Accuracy`): the accuracy effect, as a counting loop proved
  against `Score`. Proved: the rounding bounds of `Score` and when it reaches
  100.
- `matcher.dfy` (`MatchTracker`): `checkInputMatch` as a step function on the
  one-integer state `lastSpokenIndexRef`. Proved:
  - when it speaks (an if-and-only-if);
  - that the state stays -1 or at a word end;
  - that repeated calls at one length speak at most once, and that between
    two speakings at one length the text went below the tracker;
  - a backspacing scenario.
- `session.dfy` (`Session`): the class `PracticeSession` holds the fields that
  the handlers and effects update in place. Its methods are stated against the
  functions above:
  - the tracker;
  - the accuracy effect;
  - typing;
  - IME composition;
  - the source-language selector;
  - file load;
  - the two switches.
- `translation.dfy` (`Translation`): the pure parts of `fetchTranslation`:
  - the blank-text test;
  - the language codes;
  - the offline dictionary and fallback text;
  - the result and offline flag for a given service reply.
- `phonetic.dfy` (`Phonetic`): `getMockPhonetic`, as written and corrected
  (see Findings).

A reference made only of separators might be expected to become a single
separator token. The code does otherwise, and the model follows the code. The capturing split yields three pieces: `""`, the run, and
`""` (`Segmenter.SplitOfSeparatorsOnly`). Numbering turns them into three
tokens: an empty one at 0, the run, and an empty one at the end.

## Model

| member | source | states |
|---|---|---|
| Chars.SeparatorIsNotWordUnit | src/App.jsx:119-127 | every unit of the separator class (also the locator's `isSeparator` at line 204) fails `[^\s\p{P}]`, so no separator can make a token a word |
| Chars.HasWordUnit | src/App.jsx:127 | `/[^\s\p{P}]/u.test(s)` holds iff some unit of `s` is neither white space nor punctuation |
| Chars.HasCJK | src/App.jsx:74 | `isCJK(s)` holds iff some unit of `s` lies in U+4E00–U+9FA5, U+3040–U+30FF or U+AC00–U+D7AF |
| Chars.Substring | src/App.jsx:210 | `substring(a, b)` with `0 <= a <= b <= length` is the slice `[a, b)`; never longer than the text |
| Chars.Contains | src/App.jsx:360 | `hay.includes(needle)` iff the needle occurs at some offset |
| Segmenter.RunEnd | src/App.jsx:119 | the greedy `[sep]+` match from a separator ends after at least one unit, covers only separators and stops at a non-separator or the end |
| Segmenter.SplitFrom | src/App.jsx:119 | the split from any position yields an odd number of pieces: one more piece than captured separator runs |
| Segmenter.Split | src/App.jsx:119 | the pieces of `split` concatenate back to the text and alternate separator-free pieces with non-empty separator runs, only the first and last piece possibly empty |
| Segmenter.SplitFromConcat | src/App.jsx:119 | the pieces of the split from any position, joined, give back the rest of the text |
| Segmenter.SplitFromAlternates | src/App.jsx:119 | the split alternates separator-free pieces with non-empty separator runs, and starts with a non-empty piece when the text starts with a non-separator |
| Segmenter.SplitOfSeparatorsOnly | src/App.jsx:119 | a text made only of separators splits into an empty piece, the whole run, and an empty piece |
| Segmenter.SplitWithoutSeparators | src/App.jsx:119 | a text with no separator splits into itself alone |
| Segmenter.OffsetsStep | src/App.jsx:128-130 | each piece starts at the start of the piece before it plus that piece's length |
| Segmenter.Numbered | src/App.jsx:125-139 | one token per piece; the first starts at 0, each next one where the one before ends, and the last ends at the total length of the pieces |
| Segmenter.NumberedSpans | src/App.jsx:125-139 | numbering pieces that concatenate to the text gives spans starting at 0, each starting where the previous ended, each holding its text's slice, the last ending at the text's length |
| Segmenter.NumberedSplitIsTokenization | src/App.jsx:108-140 | numbering the split of a non-empty text gives contiguous spans, correct `isWord`/`isCJK` flags and the alternating shape |
| Segmenter.Tokenize | src/App.jsx:108-140 | no tokens iff the reference is empty; otherwise an odd number of tokens whose spans run from 0 to the reference's length |
| Segmenter.TokenizeIsTokenization | src/App.jsx:108-140 | the token list of every reference, empty or not, is such a tokenization; the empty reference has no tokens |
| Segmenter.ReferenceTokens | src/App.jsx:108-140 | the `globalIndex` loop produces exactly the numbered split (none for the empty text) |
| Segmenter.SpansOrdered | src/App.jsx:128-130 | an earlier token ends no later than a later one starts |
| Segmenter.SuffixReconstructs | src/App.jsx:125-139 | the texts of the tokens from `i` on concatenate to the reference from `tokens[i].start` on |
| Segmenter.Reconstructs | src/App.jsx:125-139 | joining all token texts gives back the reference exactly |
| Segmenter.Covers | src/App.jsx:125-139 | every offset of the reference lies in some token's span |
| Segmenter.SeparatorRunsAreNotWords | src/App.jsx:119-127 | every separator-run token is non-empty and has `isWord == false` |
| Segmenter.PieceFollowsSeparator | src/App.jsx:119 | every piece after the first starts right after a separator |
| Segmenter.PiecePrecedesSeparator | src/App.jsx:119 | every piece before the last ends right before a separator |
| Segmenter.PiecesAreMaximal | src/App.jsx:119 | every piece is a maximal separator-free span |
| Segmenter.WordEndsUnique | src/App.jsx:125-139 | two different word tokens never end at the same offset, so the tracker's `find` has at most one candidate |
| Segmenter.WordEndsIncreasing | src/App.jsx:125-139 | in every tokenization the word tokens end at strictly increasing offsets |
| Cursor.WordAtCursor | src/App.jsx:186-211 | empty text gives `''`; a caret on a separator not preceded by a word gives `''`; otherwise the result is the maximal separator-free span around the shifted caret; `''` exactly in those cases or at the end after a separator; a caret just after a word and a caret at the end after a word both give the word ending there |
| Cursor.Anchor | src/App.jsx:204-206 | the caret moves back at most one unit, only off a separator, and it rests on a separator exactly when it started on a separator with no word just before it (the case that returns `''`) |
| Cursor.LocatedSpan | src/App.jsx:204-210 | the maximal span around the anchor is empty only at the end of a text ending in a separator, and ends at the caret when the caret follows a word |
| Cursor.MaximalWordSpanUnique | src/App.jsx:207-209 | the maximal separator-free span around an offset is unique, so the outward scans determine the word |
| Cursor.NonSeparatorIsInPiece | src/App.jsx:119-127 | a token holding a non-separator is a piece, not a separator run |
| Cursor.LocatedWordIsToken | src/App.jsx:204-210 | a non-empty located word of a text is exactly the span and text of a separator-free piece (an even-position token) of that text's tokenization |
| Accuracy.Compared | src/App.jsx:337 | the compared length is the smaller of the two lengths |
| Accuracy.CorrectChars | src/App.jsx:338-340 | the count over `n` positions is at most `n` |
| Accuracy.CorrectCharsCountsMatches | src/App.jsx:338-340 | the running count is the number of positions where the texts agree |
| Accuracy.RoundedPercent | src/App.jsx:341 | the rounded percentage is in [0, 100] and within half a unit of `100*correct/len`, halves rounded up |
| Accuracy.AllCorrectIsHundred | src/App.jsx:341 | all positions right gives 100 |
| Accuracy.Score | src/App.jsx:337-341 | the accuracy is in [0, 100] and is 100 when nothing is compared |
| Accuracy.ComputeAccuracy | src/App.jsx:336-341 | the counting loop computes `Score` |
| Accuracy.PerfectScore | src/App.jsx:341 | the score is 100 iff the mismatches are at most half a percent of the compared length |
| Accuracy.AgreementScoresFull | src/App.jsx:336-341 | agreement over the compared length (for instance, typing past the end of the reference) scores 100 |
| Accuracy.AllAgree | src/App.jsx:338-340 | agreement on the first `n` positions counts `n` |
| Accuracy.ScoreIdentical | src/App.jsx:334-343 | "hello" against "hello" shows 100 |
| Accuracy.ScoreOneTypo | src/App.jsx:334-343 | "hxllo" against "hello" shows 80 |
| Accuracy.ScoreNothingTyped | src/App.jsx:334-343 | nothing typed shows 100 |
| Accuracy.ScoreTypedPastReference | src/App.jsx:334-343 | "hello world" against "hello" shows 100 |
| Accuracy.ScoreLastLetterWrong | src/App.jsx:334-343 | "Hello Worle" against "Hello World" shows 91 |
| MatchTracker.FindCompletedFrom | src/App.jsx:152 | returns the first index from `k` whose token is a word ending at the typed length, or none iff there is none |
| MatchTracker.FindCompleted | src/App.jsx:152 | `find` returns the first completing word token, or nothing iff none completes |
| MatchTracker.MatchStep | src/App.jsx:143-162 | switches off: nothing changes; typed length below the state: reset to -1, silent; a spoken word leaves the state at the typed length, past the old state; a silent call leaves the state unchanged or -1, and unchanged when the typed length is not below the state |
| MatchTracker.CheckMatch | src/App.jsx:143-162 | the statements of `checkInputMatch`, early returns included, produce exactly the tracker state and spoken word of `MatchStep` |
| MatchTracker.FirstCompletedIs | src/App.jsx:152 | when word ends increase, `find` returns the one word ending at the typed length |
| MatchTracker.SpeaksWhenTyped | src/App.jsx:152-160 | over tokens whose word ends increase, a word ending at the typed length, typed verbatim at its offsets, past the last trigger, is spoken and recorded |
| MatchTracker.TypedWhenSpeaks | src/App.jsx:152-160 | whatever is spoken is a reference word that the typed text spells at its offsets |
| MatchTracker.SpeaksIff | src/App.jsx:143-162 | with both switches on, a call speaks iff the state is below the typed length and some word token ends there and is typed verbatim; the word spoken is that token's text |
| MatchTracker.TypingReferenceSpeaksWord | src/App.jsx:152-160 | typing the reference correctly up to the end of a word, past the last trigger, speaks that word |
| MatchTracker.SpokenWordEndsTyping | src/App.jsx:156-158 | a spoken word holds a unit that is neither white space nor punctuation (a letter, digit or symbol) and is a suffix of the typed text |
| MatchTracker.MatchStepTracks | src/App.jsx:147-159 | every call keeps the state -1 or at the end of a reference word, never below -1 |
| MatchTracker.SilentAfterSpeaking | src/App.jsx:155 | once the state is at length `n`, calls with texts of length `n` stay silent and keep it |
| MatchTracker.SameLengthSpeaksAtMostOnce | src/App.jsx:155-159 | any run of calls with texts of one length speaks at most once |
| MatchTracker.States | src/App.jsx:147-159 | the tracker value before each call of a run, one per typed text, the first being the starting value |
| MatchTracker.RunAt | src/App.jsx:143-162 | the `j`-th call of a run speaks what `MatchStep` says from the tracker value before it, and leaves the value the next call starts from |
| MatchTracker.StaysAtTrigger | src/App.jsx:147-159 | after a call speaks at length `n`, the tracker stays at `n` or above as long as no typed text falls below it |
| MatchTracker.OncePerCompletion | src/App.jsx:147-159 | in any run, if two calls with texts of one length both speak, some call between them had a text shorter than the tracker (the reset at 147-149) |
| MatchTracker.EmptyTypingIsSilent | src/App.jsx:147-160 | an empty typed text never speaks (no word token ends at 0) and leaves a tracker at -1 or 0 as it is |
| MatchTracker.SplitHiYo | src/App.jsx:119 | "hi yo" splits into "hi", " ", "yo" |
| MatchTracker.HiYoIsTokenized | src/App.jsx:108-140 | the scenario's tokens are those of "hi yo" |
| MatchTracker.BackspaceScenario | src/App.jsx:143-162 | typing "h", "hi", "hi ", backspacing to "hi" and "h", then retyping "hi" speaks "hi" on completion, not on return to the trigger length, and again after going below it |
| MatchTracker.DeferredSpeech | src/App.jsx:143-162 | with auto-speak off, typing "hi" says nothing and leaves the tracker at -1; with it on, the next call on "hi" speaks it |
| Session.PracticeSession.constructor | src/App.jsx:6-52 | starts with no reference, nothing typed, accuracy 100, tracker -1, both switches on |
| Session.PracticeSession.Mount | src/App.jsx:63-70 | the mount effect makes the sample text the reference, with the tracker still -1, accuracy 100 in practice mode (nothing typed), and the invariant kept |
| Session.PracticeSession.SetReference | src/App.jsx:180-183 | `setReferenceText` (lines 63 and 384) with nothing typed and the tracker at -1: the rebuilt tokens re-run the input effect, which stays silent and keeps -1; accuracy becomes 100 in practice mode with a reference; the invariant is kept |
| Session.PracticeSession.CheckInputMatch | src/App.jsx:143-162 | the new tracker state and spoken word are `MatchStep` of the old state on the reference's tokens; the invariant is kept |
| Session.PracticeSession.InputEffect | src/App.jsx:180-183 | unless composing, the tracker state and spoken word become `MatchStep` of the typed text; while composing nothing changes |
| Session.PracticeSession.RefreshAccuracy | src/App.jsx:334-343 | in practice mode with a reference, accuracy becomes `Score`; otherwise it is unchanged |
| Session.PracticeSession.Type | src/App.jsx:180-183 | a changed typed text (the `onChange` at line 638) runs the tracker unless composing (then state and speech unchanged) and refreshes the accuracy; setting the text already held changes nothing, since neither effect's dependencies changed |
| Session.PracticeSession.CompositionStart | src/App.jsx:165-168 | composition pauses the tracker |
| Session.PracticeSession.CompositionEnd | src/App.jsx:170-176 | the end of composition runs the tracker on the composed text |
| Session.PracticeSession.LoadFile | src/App.jsx:383-386 | a loaded file becomes the reference, the typed text is cleared, accuracy is 100 and the tracker is reset to -1 |
| Session.PracticeSession.SetSourceLang | src/App.jsx:478 | a new source language re-runs the input effect of lines 180-183 on the unchanged typed text (the memo of line 140 rebuilds the tokens); the same language changes nothing |
| Session.PracticeSession.SetPracticeMode | src/App.jsx:419 | a new mode sets the switch and re-runs the accuracy effect; the mode it already has changes nothing |
| Session.PracticeSession.SetAutoSpeakWord | src/App.jsx:611 | toggling auto-speak sets the switch |
| Translation.TrimStart | src/App.jsx:347 | the result is a suffix not starting with white space, and all units dropped are white space |
| Translation.TrimEnd | src/App.jsx:347 | the result is a prefix not ending with white space, and all units dropped are white space |
| Translation.Trim | src/App.jsx:347 | `trim()` is no longer than the text and neither starts nor ends with white space |
| Translation.TrimIsInnerSlice | src/App.jsx:347 | `trim()` is a slice of the text with only white space outside it |
| Translation.TrimEmptyIffAllWhiteSpace | src/App.jsx:347 | `trim()` is empty iff every unit is white space |
| Translation.IsBlank | src/App.jsx:347 | `!text \|\| !text.trim()` holds iff every unit is white space |
| Translation.PrimarySubtag | src/App.jsx:349-350 | `split('-')[0]` is a hyphen-free prefix followed by a hyphen or the end |
| Translation.LanguageCode | src/App.jsx:349-350 | "zh-TW" is kept; any other tag becomes its primary subtag |
| Translation.LanguageCodeHasNoHyphenButZhTW | src/App.jsx:349-350 | the code sent is a prefix of the tag and has no hyphen unless it is "zh-TW" |
| Translation.LanguagePair | src/App.jsx:349-351 | `langpair` is the source code, a bar, then the target code; it holds a hyphen only when one side is "zh-TW" |
| Translation.DefaultLanguagePair | src/App.jsx:351 | the default languages "en-US" and "zh-TW" are asked as `en\|zh-TW` |
| Translation.LowerUnit | src/App.jsx:360 | A–Z map to a–z, every other unit is kept |
| Translation.ToLower | src/App.jsx:360 | lower-casing keeps the length and lowers unit by unit |
| Translation.ToLowerIdempotent | src/App.jsx:360 | lower-cased text has no capitals and lower-casing it again changes nothing |
| Translation.FindKeyFrom | src/App.jsx:360 | returns the first dictionary key from `k` contained case-insensitively in the text, or none iff there is none |
| Translation.OfflineFallbackCases | src/App.jsx:359-361 | text containing "accessibility" in any case gives 無障礙; else "essential" gives 必要的; else "[離線] " + text for targets containing "zh", the text itself otherwise |
| Translation.OfflineFallback | src/App.jsx:359-361 | the fallback is one of the two dictionary translations, the text, or "[離線] " + text, the tag only for targets containing "zh"; non-empty for non-empty text |
| Translation.FetchTranslation | src/App.jsx:346-362 | blank text gives `''` with the flag unchanged; a status-200 reply gives its text and clears offline mode |
| Translation.FailureFallsBack | src/App.jsx:357-361 | without a usable reply, the result is the fallback, non-empty; a sentence sets offline mode and a word leaves it |
| Translation.EmptyResultMeansBlankOrService | src/App.jsx:347-361 | the result is `''` iff the text is blank or the service answered with `''` |
| Translation.OfflineExamples | src/App.jsx:361 | "hello" with target "zh-TW" falls back to "[離線] hello" |
| Phonetic.Clean | src/App.jsx:78 | the cleaned word is no longer and holds none of `.,!?;:，。！？` |
| Phonetic.CleanAppend | src/App.jsx:78 | cleaning a concatenation is concatenating the cleanings |
| Phonetic.CleanKeeps | src/App.jsx:78 | a word without stripped punctuation is unchanged |
| Phonetic.CleanIdempotent | src/App.jsx:78 | cleaning twice equals cleaning once |
| Phonetic.FindEntryFrom | src/App.jsx:93 | returns the first entry from `k` with the given key, or none iff there is none |
| Phonetic.PhoneticAsWritten | src/App.jsx:93 | a dictionary word gives its non-empty phonetic; otherwise an inherited property name gives that inherited value; anything else misses |
| Phonetic.MockPhonetic | src/App.jsx:77-94 | a phonetic is found iff the cleaned word is a dictionary key, and it is that key's non-empty entry |
| Phonetic.DictionaryValuesNonEmpty | src/App.jsx:79-92 | every dictionary phonetic is a non-empty string, so `\|\| null` keeps it |
| Phonetic.KeysAreNotInheritedNames | src/App.jsx:79-92 | no dictionary key is an `Object.prototype` property name |
| Phonetic.CorrectedAgreesOnOwnKeys | src/App.jsx:93 | the corrected lookup agrees with the component on dictionary words and differs exactly on inherited property names |
| Phonetic.NoElevenUnitKey | src/App.jsx:79-92 | no dictionary key has eleven units |
| Phonetic.ConstructorIsInherited | src/App.jsx:93 | the reference token "constructor" finds an inherited value in the component, and nothing in the corrected lookup |
| Phonetic.PunctuationIgnored | src/App.jsx:78 | trailing sentence punctuation does not change the phonetic found |
| Phonetic.HelloKeyUnique | src/App.jsx:88 | exactly one dictionary key is "Hello" |
| Phonetic.HelloExample | src/App.jsx:88-93 | "Hello!" finds the phonetic of "Hello" |

## Left out

- The `Intl.Segmenter` branches of `referenceTokens` and `getWordAtCursor` (src/App.jsx:114-118, 190-202) are left out. Their word boundaries come from locale data inside the browser and cannot be seen. Only the regular-expression path, which the code falls back to, is modelled.
- The request to the translation service and the parsing of its JSON (src/App.jsx:351-356) are I/O. The reply is a parameter (`Translation.Reply`). The URL encoding of the query is not modelled.
- Chars.HasWordUnit: `\p{P}` is the Unicode Punctuation category. `Chars.IsPunctuation` lists it only for the Basic Latin, Latin-1, Devanagari, General Punctuation, CJK Symbols and Punctuation, Katakana and fullwidth blocks. Punctuation from other scripts counts as a word unit in the model.
- Translation.ToLower and Translation.LowerUnit: `toLowerCase` is modelled on A–Z only. Two non-ASCII characters do lower into ASCII letters: U+0130 (İ) becomes "i" followed by U+0307, and U+212A (the Kelvin sign) becomes "k". Neither changes the dictionary test. The U+0307 that follows the "i" cannot be part of a match of the ASCII keys "accessibility" and "essential", and neither key contains "k". So the model finds the same key as the component. The lowered text itself is never shown.
- Accuracy.RoundedPercent: `Math.round((correct / len) * 100)` is computed in binary floating point. The model uses exact rationals. They differ where the product should be an exact half but rounds below it. For example, 29 of 200 right gives 14.499999999999998 and shows 14, where the model gives 15.
- Accuracy.Score: has the same floating-point difference as RoundedPercent.
- The 2^32 − 1 piece limit of `split` is not modelled. Texts are unbounded sequences.
- Debounce timers, the `setTimeout` around composition end and the order of `await`s are not modelled (src/App.jsx:172-175, 231-236, 366-376). The model runs each handler to completion. The sentence-translation effect that clears offline mode before a request (src/App.jsx:369) belongs to that timed effect and is not modelled.
- Speech synthesis and voice choice (src/App.jsx:55-61, 97-105) are not modelled. The tracker returns the word it would hand to `handleSpeak`. `FileReader` and the Blob download (src/App.jsx:379-414) are not modelled either; `LoadFile` receives the file's text.
- The DOM mirror and caret coordinates, reference auto-scroll, tooltip placement, JSX rendering and keyboard shortcuts (src/App.jsx:213-325, 417-711) are UI and pixel arithmetic. The two switches are modelled as setters only.
- Session.PracticeSession.Mount: it requires the tracker to be -1 and nothing typed, as right after construction, because the mount effect runs only then. Session.PracticeSession.SetReference has the same requirement: the component sets the reference only on mount and on file load, and both states have it.
- The target-language selector (src/App.jsx:480) only feeds `Translation.FetchTranslation`'s `targetLang` parameter and the timed translation effects, which are not modelled; it has no setter in the class.
- vite.config.js is build configuration and is not part of this model.

## Findings

| source | as written | input that shows it | evidently intended | confidence | as-written member | corrected member |
|---|---|---|---|---|---|---|
| src/App.jsx:93 | `demoDict[cleanText] \|\| null` reads a plain object literal. A cleaned word naming an `Object.prototype` property finds the inherited function (or, for `__proto__`, the prototype object). The tooltip then puts a non-string in the phonetic slot and suppresses "Click to Listen". | the reference token "constructor", hovered (the hover passes the token text, src/App.jsx:305) | only the dictionary's own entries are found; other words give `null` | medium; not executed | Phonetic.ConstructorIsInherited | Phonetic.MockPhonetic |
