/**
  The pure parts of `fetchTranslation`: the blank-text short-circuit, the
  language codes sent to the translation service, and what is shown when the
  service cannot be used (a two-entry offline dictionary, else the text
  itself, tagged as offline for Chinese targets). The request and its reply
  are outside the model: the reply is a parameter.
 */
module Translation {
  import opened Chars

  /** How many `\s` units the text starts with. */
  function LeadingWhiteSpace(s: Text): (n: nat)
    ensures n <= |s|
    ensures forall i :: 0 <= i < n ==> IsWhiteSpace(s[i])
    ensures n == |s| || !IsWhiteSpace(s[n])
  {
    if s != [] && IsWhiteSpace(s[0]) then
      var n := LeadingWhiteSpace(s[1..]);
      assert forall i :: 1 <= i < n + 1 ==> s[i] == s[1..][i - 1];
      n + 1
    else 0
  }

  /** Where the run of `\s` units that ends the text begins. */
  function TrailingWhiteSpace(s: Text): (n: nat)
    ensures n <= |s|
    ensures forall i :: n <= i < |s| ==> IsWhiteSpace(s[i])
    ensures n == 0 || !IsWhiteSpace(s[n - 1])
  {
    if s != [] && IsWhiteSpace(s[|s| - 1]) then
      var n := TrailingWhiteSpace(s[..|s| - 1]);
      assert forall i :: n <= i < |s| - 1 ==> s[i] == s[..|s| - 1][i];
      n
    else |s|
  }

  /** `s.trimStart()`: leading `\s` units removed. */
  function TrimStart(s: Text): (r: Text)
    ensures |r| <= |s| && r == s[|s| - |r|..]
    ensures r == [] || !IsWhiteSpace(r[0])
    ensures forall i :: 0 <= i < |s| - |r| ==> IsWhiteSpace(s[i])
  {
    s[LeadingWhiteSpace(s)..]
  }

  /** `s.trimEnd()`: trailing `\s` units removed. */
  function TrimEnd(s: Text): (r: Text)
    ensures |r| <= |s| && r == s[..|r|]
    ensures r == [] || !IsWhiteSpace(r[|r| - 1])
    ensures forall i :: |r| <= i < |s| ==> IsWhiteSpace(s[i])
  {
    s[..TrailingWhiteSpace(s)]
  }

  /** `s.trim()`: no longer than the text, and neither starting nor ending with white space. */
  function Trim(s: Text): (r: Text)
    ensures |r| <= |s|
    ensures r == [] || (!IsWhiteSpace(r[0]) && !IsWhiteSpace(r[|r| - 1]))
  {
    var t := TrimStart(s);
    var r := TrimEnd(t);
    assert r != [] ==> r[0] == t[0];
    r
  }

  /** Trimming leaves the slice `[a, b)` of the text, with only white space outside it. */
  lemma TrimIsInnerSlice(s: Text) returns (a: nat, b: nat)
    ensures a <= b <= |s| && Trim(s) == s[a..b]
    ensures forall i :: 0 <= i < a ==> IsWhiteSpace(s[i])
    ensures forall i :: b <= i < |s| ==> IsWhiteSpace(s[i])
  {
    a := LeadingWhiteSpace(s);
    var t := s[a..];
    var m := TrailingWhiteSpace(t);
    b := a + m;
    SliceOfSuffix(s, t, a, m);
    WhiteSpaceTail(s, t, a, m);
  }

  /** A prefix of the suffix `s[a..]` is a slice of `s`. */
  lemma SliceOfSuffix(s: Text, t: Text, a: nat, k: nat)
    requires a <= |s| && t == s[a..] && k <= |t|
    ensures t[..k] == s[a..a + k]
  {
  }

  /** White space after offset `k` of the suffix `s[a..]` is white space after `a + k` in `s`. */
  lemma WhiteSpaceTail(s: Text, t: Text, a: nat, k: nat)
    requires a <= |s| && t == s[a..] && k <= |t|
    requires forall i :: k <= i < |t| ==> IsWhiteSpace(t[i])
    ensures forall i :: a + k <= i < |s| ==> IsWhiteSpace(s[i])
  {
    forall i | a + k <= i < |s|
      ensures IsWhiteSpace(s[i])
    {
      assert s[i] == t[i - a];
    }
  }

  /** Trimming removes everything exactly when every unit is `\s` white space. */
  lemma TrimEmptyIffAllWhiteSpace(text: Text)
    ensures Trim(text) == [] <==> forall i :: 0 <= i < |text| ==> IsWhiteSpace(text[i])
  {
    var a, b := TrimIsInnerSlice(text);
  }

  /** `!text || !text.trim()`: the text is empty or only white space. */
  function IsBlank(text: Text): (blank: bool)
    ensures blank <==> forall i :: 0 <= i < |text| ==> IsWhiteSpace(text[i])
  {
    TrimEmptyIffAllWhiteSpace(text);
    text == [] || Trim(text) == []
  }

  const Hyphen: CodeUnit := 0x2D

  /** "zh-TW" */
  const ZhTW: Text := [0x7A, 0x68, 0x2D, 0x54, 0x57]

  /** "zh" */
  const Zh: Text := [0x7A, 0x68]

  /** "[離線] ", the offline marker. */
  const OfflineTag: Text := [0x5B, 0x96E2, 0x7DDA, 0x5D, 0x20]

  /** `tag.split('-')[0]`: the tag up to its first hyphen, or all of it. */
  function PrimarySubtag(tag: Text): (r: Text)
    ensures |r| <= |tag| && r == tag[..|r|]
    ensures forall i :: 0 <= i < |r| ==> r[i] != Hyphen
    ensures |r| < |tag| ==> tag[|r|] == Hyphen
  {
    if tag == [] || tag[0] == Hyphen then []
    else
      var r := [tag[0]] + PrimarySubtag(tag[1..]);
      assert tag[1..][..|r| - 1] == tag[1..|r|];
      r
  }

  /** `lang === 'zh-TW' ? 'zh-TW' : lang.split('-')[0]`: the code sent to the service. */
  function LanguageCode(lang: Text): (code: Text)
    ensures lang == ZhTW ==> code == lang
    ensures lang != ZhTW ==> code == PrimarySubtag(lang)
  {
    if lang == ZhTW then lang else PrimarySubtag(lang)
  }

  /** The service is asked in plain language codes: the only code with a hyphen is "zh-TW". */
  lemma LanguageCodeHasNoHyphenButZhTW(lang: Text)
    ensures LanguageCode(lang) == ZhTW || forall i :: 0 <= i < |LanguageCode(lang)| ==> LanguageCode(lang)[i] != Hyphen
    ensures LanguageCode(lang) == lang[..|LanguageCode(lang)|]
  {
  }

  const Bar: CodeUnit := 0x7C

  /**
    The `langpair` query value `${srcCode}|${tgtCode}`: the source code, a
    bar, then the target code; a hyphen appears in it only when one side is
    "zh-TW".
   */
  function LanguagePair(sourceLang: Text, targetLang: Text): (pair: Text)
    ensures var n := |LanguageCode(sourceLang)|;
            n < |pair| && pair[n] == Bar
            && pair[..n] == LanguageCode(sourceLang) && pair[n + 1..] == LanguageCode(targetLang)
    ensures sourceLang != ZhTW && targetLang != ZhTW ==> forall i :: 0 <= i < |pair| ==> pair[i] != Hyphen
  {
    var source, target := LanguageCode(sourceLang), LanguageCode(targetLang);
    var pair := source + [Bar] + target;
    assert forall i :: 0 <= i < |source| ==> pair[i] == source[i];
    assert forall i :: |source| < i < |pair| ==> pair[i] == target[i - |source| - 1];
    assert pair[..|source|] == source && pair[|source| + 1..] == target;
    pair
  }

  /** The codes of the component's default languages: "en-US" to "zh-TW" is asked as "en|zh-TW". */
  lemma DefaultLanguagePair()
    ensures LanguagePair([0x65, 0x6E, 0x2D, 0x55, 0x53], ZhTW) == [0x65, 0x6E, 0x7C] + ZhTW
  {
    var enUS: Text := [0x65, 0x6E, 0x2D, 0x55, 0x53];
    assert enUS != ZhTW by { assert enUS[0] != ZhTW[0]; }
    assert PrimarySubtag(enUS) == [0x65, 0x6E] by {
      assert PrimarySubtag(enUS[2..]) == [];
    }
  }

  /** ASCII lower-casing of one code unit. */
  function LowerUnit(u: CodeUnit): (l: CodeUnit)
    ensures 0x41 <= u <= 0x5A ==> l == u + 0x20
    ensures !(0x41 <= u <= 0x5A) ==> l == u
  {
    if 0x41 <= u <= 0x5A then u + 0x20 else u
  }

  /** `s.toLowerCase()`, on the letters A to Z. */
  function ToLower(s: Text): (r: Text)
    ensures |r| == |s|
    ensures forall i :: 0 <= i < |s| ==> r[i] == LowerUnit(s[i])
  {
    seq(|s|, i requires 0 <= i < |s| => LowerUnit(s[i]))
  }

  /** Lower-casing leaves no capital letter, and doing it twice changes nothing more. */
  lemma ToLowerIdempotent(s: Text)
    ensures forall i :: 0 <= i < |s| ==> !(0x41 <= ToLower(s)[i] <= 0x5A)
    ensures ToLower(ToLower(s)) == ToLower(s)
  {
  }

  /** `mockDictionary`, in its key order. */
  const MockDictionary: seq<(Text, Text)> := [
    // "Accessibility" -> "無障礙"
    ([0x41, 0x63, 0x63, 0x65, 0x73, 0x73, 0x69, 0x62, 0x69, 0x6C, 0x69, 0x74, 0x79], [0x7121, 0x969C, 0x7919]),
    // "Essential" -> "必要的"
    ([0x45, 0x73, 0x73, 0x65, 0x6E, 0x74, 0x69, 0x61, 0x6C], [0x5FC5, 0x8981, 0x7684])
  ]

  /** "accessibility" */
  const LowerAccessibility: Text := [0x61, 0x63, 0x63, 0x65, 0x73, 0x73, 0x69, 0x62, 0x69, 0x6C, 0x69, 0x74, 0x79]

  /** "essential" */
  const LowerEssential: Text := [0x65, 0x73, 0x73, 0x65, 0x6E, 0x74, 0x69, 0x61, 0x6C]

  /** The entry's key, lower-cased, occurs in the lower-cased text. */
  predicate KeyMatches(lowered: Text, entry: (Text, Text)) {
    Contains(lowered, ToLower(entry.0))
  }

  /** The index of the first entry at or after `k` whose key matches. */
  function FindKeyFrom(dictionary: seq<(Text, Text)>, lowered: Text, k: nat): (r: Option<nat>)
    requires k <= |dictionary|
    ensures r.None? <==> forall i :: k <= i < |dictionary| ==> !KeyMatches(lowered, dictionary[i])
    ensures r.Some? ==> k <= r.value < |dictionary| && KeyMatches(lowered, dictionary[r.value])
                        && forall i :: k <= i < r.value ==> !KeyMatches(lowered, dictionary[i])
    decreases |dictionary| - k
  {
    if k == |dictionary| then None
    else if KeyMatches(lowered, dictionary[k]) then Some(k)
    else FindKeyFrom(dictionary, lowered, k + 1)
  }

  /**
    The `catch` branch's value: the translation of the first dictionary key
    contained in the text regardless of case, else the text itself, prefixed
    "[離線] " when the target language mentions "zh".
   */
  function OfflineFallback(text: Text, targetLang: Text): (r: Text)
    ensures r == MockDictionary[0].1 || r == MockDictionary[1].1 || r == text || r == OfflineTag + text
    ensures r == OfflineTag + text ==> Contains(targetLang, Zh)
    ensures text != [] ==> r != []
  {
    match FindKeyFrom(MockDictionary, ToLower(text), 0)
    case Some(k) => MockDictionary[k].1
    case None => if Contains(targetLang, Zh) then OfflineTag + text else text
  }

  /** What the fallback shows, case by case. */
  lemma OfflineFallbackCases(text: Text, targetLang: Text)
    ensures var lowered := ToLower(text);
            Contains(lowered, LowerAccessibility) ==> OfflineFallback(text, targetLang) == MockDictionary[0].1
    ensures var lowered := ToLower(text);
            !Contains(lowered, LowerAccessibility) && Contains(lowered, LowerEssential) ==>
              OfflineFallback(text, targetLang) == MockDictionary[1].1
    ensures var lowered := ToLower(text);
            !Contains(lowered, LowerAccessibility) && !Contains(lowered, LowerEssential) ==>
              OfflineFallback(text, targetLang)
              == if Contains(targetLang, Zh) then OfflineTag + text else text
  {
    assert ToLower(MockDictionary[0].0) == LowerAccessibility;
    assert ToLower(MockDictionary[1].0) == LowerEssential;
  }

  datatype Kind = Word | Sentence

  /** The service's answer: a status with a translated text, or no usable answer at all. */
  datatype Reply = Reply(status: int, translated: Text) | NoReply

  /** The text `fetchTranslation` resolves to and the offline-mode flag after it. */
  datatype Outcome = Outcome(text: Text, offline: bool)

  /** `fetchTranslation(text, kind)` with the service's reply given. */
  function FetchTranslation(text: Text, kind: Kind, targetLang: Text, reply: Reply, offline: bool): (r: Outcome)
    ensures IsBlank(text) ==> r == Outcome([], offline)
    ensures !IsBlank(text) && reply.Reply? && reply.status == 200 ==> r == Outcome(reply.translated, false)
  {
    if IsBlank(text) then Outcome([], offline)
    else if reply.Reply? && reply.status == 200 then Outcome(reply.translated, false)
    else Outcome(OfflineFallback(text, targetLang), offline || kind == Sentence)
  }

  /**
    Without a usable reply, a non-blank text still gets a non-empty result; a
    failed sentence turns offline mode on, a failed word leaves it as it was.
   */
  lemma FailureFallsBack(text: Text, kind: Kind, targetLang: Text, reply: Reply, offline: bool)
    requires !IsBlank(text)
    requires !(reply.Reply? && reply.status == 200)
    ensures var r := FetchTranslation(text, kind, targetLang, reply, offline);
            r.text == OfflineFallback(text, targetLang) && r.text != []
            && (kind == Sentence ==> r.offline) && (kind == Word ==> r.offline == offline)
  {
  }

  /** Only a blank text resolves to the empty string without the service having answered so. */
  lemma EmptyResultMeansBlankOrService(text: Text, kind: Kind, targetLang: Text, reply: Reply, offline: bool)
    ensures FetchTranslation(text, kind, targetLang, reply, offline).text == [] <==>
              IsBlank(text) || (reply.Reply? && reply.status == 200 && reply.translated == [])
  {
    if !IsBlank(text) && !(reply.Reply? && reply.status == 200) {
      FailureFallsBack(text, kind, targetLang, reply, offline);
    }
  }

  /** The fallback of "hello": tagged for a Chinese target, unchanged otherwise. */
  lemma OfflineExamples()
    ensures OfflineFallback([0x68, 0x65, 0x6C, 0x6C, 0x6F], ZhTW) == OfflineTag + [0x68, 0x65, 0x6C, 0x6C, 0x6F]
  {
    var hello: Text := [0x68, 0x65, 0x6C, 0x6C, 0x6F];
    OfflineFallbackCases(hello, ZhTW);
    assert OccursAt(ZhTW, Zh, 0);
    assert !Contains(ToLower(hello), LowerAccessibility);
    assert !Contains(ToLower(hello), LowerEssential);
  }
}
