/**
  The demonstration phonetic lookup (`getMockPhonetic`) shown in the
  reference-word tooltip: the word is stripped of the punctuation
  `[.,!?;:，。！？]` and looked up in a fixed dictionary; no entry gives
  `null`.

  The lookup indexes a plain object literal, so a cleaned word that names a
  property every object inherits ("constructor", "toString", ...) finds that
  inherited value, a function or an object, instead of missing.
  `PhoneticAsWritten` keeps that behaviour; `MockPhonetic` looks at the
  dictionary's own entries only and is the lookup the tooltip is meant to use.
 */
module Phonetic {
  import opened Chars

  /** A code unit that `text.replace(/[.,!?;:，。！？]/g, '')` removes. */
  predicate IsStripped(u: CodeUnit) {
    u == 0x2E || u == 0x2C || u == 0x21 || u == 0x3F || u == 0x3B || u == 0x3A
    || u == 0xFF0C || u == 0x3002 || u == 0xFF01 || u == 0xFF1F
  }

  /** The word with every stripped unit removed and the rest kept in order. */
  function Clean(s: Text): (r: Text)
    ensures |r| <= |s|
    ensures forall i :: 0 <= i < |r| ==> !IsStripped(r[i])
  {
    if s == [] then []
    else (if IsStripped(s[0]) then [] else [s[0]]) + Clean(s[1..])
  }

  /** Cleaning works piece by piece: the cleaning of a concatenation is the concatenation of the cleanings. */
  lemma {:induction false} CleanAppend(a: Text, b: Text)
    ensures Clean(a + b) == Clean(a) + Clean(b)
  {
    if a == [] {
      assert a + b == b;
    } else {
      assert (a + b)[0] == a[0] && (a + b)[1..] == a[1..] + b;
      CleanAppend(a[1..], b);
    }
  }

  /** A word without stripped units is its own cleaning; in particular cleaning twice changes nothing. */
  lemma {:induction false} CleanKeeps(s: Text)
    requires forall i :: 0 <= i < |s| ==> !IsStripped(s[i])
    ensures Clean(s) == s
  {
    if s != [] {
      CleanKeeps(s[1..]);
    }
  }

  lemma CleanIdempotent(s: Text)
    ensures Clean(Clean(s)) == Clean(s)
  {
    CleanKeeps(Clean(s));
  }

  /** `demoDict`, entry by entry in the order written. */
  const DemoDict: seq<(Text, Text)> := [
    // 今天 -> Jīntiān
    ([0x4ECA, 0x5929], [0x4A, 0x12B, 0x6E, 0x74, 0x69, 0x101, 0x6E]),
    // 天氣 -> Tiānqì
    ([0x5929, 0x6C23], [0x54, 0x69, 0x101, 0x6E, 0x71, 0xEC]),
    // 很好 -> Hěn hǎo
    ([0x5F88, 0x597D], [0x48, 0x11B, 0x6E, 0x20, 0x68, 0x1CE, 0x6F]),
    // 適合 -> Shìhé
    ([0x9069, 0x5408], [0x53, 0x68, 0xEC, 0x68, 0xE9]),
    // 寫程式 -> Xiě chéngshì
    ([0x5BEB, 0x7A0B, 0x5F0F], [0x58, 0x69, 0x11B, 0x20, 0x63, 0x68, 0xE9, 0x6E, 0x67, 0x73, 0x68, 0xEC]),
    // 寫 -> Xiě
    ([0x5BEB], [0x58, 0x69, 0x11B]),
    // 程式 -> Chéngshì
    ([0x7A0B, 0x5F0F], [0x43, 0x68, 0xE9, 0x6E, 0x67, 0x73, 0x68, 0xEC]),
    // 真好 -> Zhēn hǎo
    ([0x771F, 0x597D], [0x5A, 0x68, 0x113, 0x6E, 0x20, 0x68, 0x1CE, 0x6F]),
    // こうした -> Kōshita
    ([0x3053, 0x3046, 0x3057, 0x305F], [0x4B, 0x14D, 0x73, 0x68, 0x69, 0x74, 0x61]),
    // 問題 -> Mondai
    ([0x554F, 0x984C], [0x4D, 0x6F, 0x6E, 0x64, 0x61, 0x69]),
    // は -> Wa
    ([0x306F], [0x57, 0x61]),
    // 解決 -> Kaiketsu
    ([0x89E3, 0x6C7A], [0x4B, 0x61, 0x69, 0x6B, 0x65, 0x74, 0x73, 0x75]),
    // できます -> Dekimasu
    ([0x3067, 0x304D, 0x307E, 0x3059], [0x44, 0x65, 0x6B, 0x69, 0x6D, 0x61, 0x73, 0x75]),
    // でき -> Deki
    ([0x3067, 0x304D], [0x44, 0x65, 0x6B, 0x69]),
    // ます -> Masu
    ([0x307E, 0x3059], [0x4D, 0x61, 0x73, 0x75]),
    // こんにちは -> Konnichiwa
    ([0x3053, 0x3093, 0x306B, 0x3061, 0x306F], [0x4B, 0x6F, 0x6E, 0x6E, 0x69, 0x63, 0x68, 0x69, 0x77, 0x61]),
    // 世界 -> Sekai
    ([0x4E16, 0x754C], [0x53, 0x65, 0x6B, 0x61, 0x69]),
    // 안녕하세요 -> Annyeonghaseyo
    ([0xC548, 0xB155, 0xD558, 0xC138, 0xC694], [0x41, 0x6E, 0x6E, 0x79, 0x65, 0x6F, 0x6E, 0x67, 0x68, 0x61, 0x73, 0x65, 0x79, 0x6F]),
    // 사랑해요 -> Saranghaeyo
    ([0xC0AC, 0xB791, 0xD574, 0xC694], [0x53, 0x61, 0x72, 0x61, 0x6E, 0x67, 0x68, 0x61, 0x65, 0x79, 0x6F]),
    // Accessibility -> /əkˌses.əˈbɪl.ə.t̬i/
    ([0x41, 0x63, 0x63, 0x65, 0x73, 0x73, 0x69, 0x62, 0x69, 0x6C, 0x69, 0x74, 0x79], [0x2F, 0x259, 0x6B, 0x2CC, 0x73, 0x65, 0x73, 0x2E, 0x259, 0x2C8, 0x62, 0x26A, 0x6C, 0x2E, 0x259, 0x2E, 0x74, 0x32C, 0x69, 0x2F]),
    // Essential -> /ɪˈsen.ʃəl/
    ([0x45, 0x73, 0x73, 0x65, 0x6E, 0x74, 0x69, 0x61, 0x6C], [0x2F, 0x26A, 0x2C8, 0x73, 0x65, 0x6E, 0x2E, 0x283, 0x259, 0x6C, 0x2F]),
    // Hello -> /həˈloʊ/
    ([0x48, 0x65, 0x6C, 0x6C, 0x6F], [0x2F, 0x68, 0x259, 0x2C8, 0x6C, 0x6F, 0x28A, 0x2F]),
    // World -> /wɝːld/
    ([0x57, 0x6F, 0x72, 0x6C, 0x64], [0x2F, 0x77, 0x25D, 0x2D0, 0x6C, 0x64, 0x2F]),
    // Namaste -> Namaste
    ([0x4E, 0x61, 0x6D, 0x61, 0x73, 0x74, 0x65], [0x4E, 0x61, 0x6D, 0x61, 0x73, 0x74, 0x65]),
    // duniya -> Duniya
    ([0x64, 0x75, 0x6E, 0x69, 0x79, 0x61], [0x44, 0x75, 0x6E, 0x69, 0x79, 0x61]),
    // नमस्ते -> Namaste
    ([0x928, 0x92E, 0x938, 0x94D, 0x924, 0x947], [0x4E, 0x61, 0x6D, 0x61, 0x73, 0x74, 0x65]),
    // दुनिया -> Duniya
    ([0x926, 0x941, 0x928, 0x93F, 0x92F, 0x93E], [0x44, 0x75, 0x6E, 0x69, 0x79, 0x61]),
    // Guten -> ɡuːtən
    ([0x47, 0x75, 0x74, 0x65, 0x6E], [0x261, 0x75, 0x2D0, 0x74, 0x259, 0x6E]),
    // Tag -> taːk
    ([0x54, 0x61, 0x67], [0x74, 0x61, 0x2D0, 0x6B]),
    // Bonjour -> /bɔ̃.ʒuʁ/
    ([0x42, 0x6F, 0x6E, 0x6A, 0x6F, 0x75, 0x72], [0x2F, 0x62, 0x254, 0x303, 0x2E, 0x292, 0x75, 0x281, 0x2F]),
    // le -> /lə/
    ([0x6C, 0x65], [0x2F, 0x6C, 0x259, 0x2F]),
    // monde -> /mɔ̃d/
    ([0x6D, 0x6F, 0x6E, 0x64, 0x65], [0x2F, 0x6D, 0x254, 0x303, 0x64, 0x2F])
  ]

  /** The properties every plain object inherits from `Object.prototype`. */
  const ObjectPrototypeNames: seq<Text> := [
    // constructor
    [0x63, 0x6F, 0x6E, 0x73, 0x74, 0x72, 0x75, 0x63, 0x74, 0x6F, 0x72],
    // __defineGetter__
    [0x5F, 0x5F, 0x64, 0x65, 0x66, 0x69, 0x6E, 0x65, 0x47, 0x65, 0x74, 0x74, 0x65, 0x72, 0x5F, 0x5F],
    // __defineSetter__
    [0x5F, 0x5F, 0x64, 0x65, 0x66, 0x69, 0x6E, 0x65, 0x53, 0x65, 0x74, 0x74, 0x65, 0x72, 0x5F, 0x5F],
    // hasOwnProperty
    [0x68, 0x61, 0x73, 0x4F, 0x77, 0x6E, 0x50, 0x72, 0x6F, 0x70, 0x65, 0x72, 0x74, 0x79],
    // __lookupGetter__
    [0x5F, 0x5F, 0x6C, 0x6F, 0x6F, 0x6B, 0x75, 0x70, 0x47, 0x65, 0x74, 0x74, 0x65, 0x72, 0x5F, 0x5F],
    // __lookupSetter__
    [0x5F, 0x5F, 0x6C, 0x6F, 0x6F, 0x6B, 0x75, 0x70, 0x53, 0x65, 0x74, 0x74, 0x65, 0x72, 0x5F, 0x5F],
    // isPrototypeOf
    [0x69, 0x73, 0x50, 0x72, 0x6F, 0x74, 0x6F, 0x74, 0x79, 0x70, 0x65, 0x4F, 0x66],
    // propertyIsEnumerable
    [0x70, 0x72, 0x6F, 0x70, 0x65, 0x72, 0x74, 0x79, 0x49, 0x73, 0x45, 0x6E, 0x75, 0x6D, 0x65, 0x72, 0x61, 0x62, 0x6C, 0x65],
    // toString
    [0x74, 0x6F, 0x53, 0x74, 0x72, 0x69, 0x6E, 0x67],
    // valueOf
    [0x76, 0x61, 0x6C, 0x75, 0x65, 0x4F, 0x66],
    // __proto__
    [0x5F, 0x5F, 0x70, 0x72, 0x6F, 0x74, 0x6F, 0x5F, 0x5F],
    // toLocaleString
    [0x74, 0x6F, 0x4C, 0x6F, 0x63, 0x61, 0x6C, 0x65, 0x53, 0x74, 0x72, 0x69, 0x6E, 0x67]
  ]

  /** The index of the first entry at or after `k` whose key is `key`. */
  function FindEntryFrom(dict: seq<(Text, Text)>, key: Text, k: nat): (r: Option<nat>)
    requires k <= |dict|
    ensures r.None? <==> forall i :: k <= i < |dict| ==> dict[i].0 != key
    ensures r.Some? ==> k <= r.value < |dict| && dict[r.value].0 == key
                        && forall i :: k <= i < r.value ==> dict[i].0 != key
    decreases |dict| - k
  {
    if k == |dict| then None
    else if dict[k].0 == key then Some(k)
    else FindEntryFrom(dict, key, k + 1)
  }

  /** What `demoDict[cleanText] || null` evaluates to. */
  datatype Lookup =
    | OwnEntry(phonetic: Text)   // a dictionary string, always non-empty
    | Inherited(name: Text)      // the inherited property of that name: a function or an object
    | Missing                    // `undefined || null`

  /** `getMockPhonetic(text)` as the component evaluates it. */
  function PhoneticAsWritten(text: Text): (r: Lookup)
    ensures r.OwnEntry? <==> exists i :: 0 <= i < |DemoDict| && DemoDict[i].0 == Clean(text)
    ensures r.OwnEntry? ==> r.phonetic != []
    ensures r.Inherited? <==> !r.OwnEntry? && Clean(text) in ObjectPrototypeNames
    ensures r.Inherited? ==> r.name == Clean(text)
  {
    DictionaryValuesNonEmpty();
    var key := Clean(text);
    match FindEntryFrom(DemoDict, key, 0)
    case Some(i) => OwnEntry(DemoDict[i].1)
    case None => if key in ObjectPrototypeNames then Inherited(key) else Missing
  }

  /** The phonetic of a word from the dictionary's own entries only: a string or nothing. */
  function MockPhonetic(text: Text): (r: Option<Text>)
    ensures r.Some? <==> exists i :: 0 <= i < |DemoDict| && DemoDict[i].0 == Clean(text)
    ensures r.Some? ==> exists i :: 0 <= i < |DemoDict| && DemoDict[i] == (Clean(text), r.value)
    ensures r.Some? ==> r.value != []
  {
    DictionaryValuesNonEmpty();
    match FindEntryFrom(DemoDict, Clean(text), 0)
    case Some(i) => Some(DemoDict[i].1)
    case None => None
  }

  /** Every phonetic in the dictionary is a non-empty string, so `|| null` never replaces a found entry. */
  lemma DictionaryValuesNonEmpty()
    ensures forall i :: 0 <= i < |DemoDict| ==> DemoDict[i].1 != []
  {
  }

  /** No dictionary key shadows an inherited property name. */
  lemma KeysAreNotInheritedNames()
    ensures forall i, j :: 0 <= i < |DemoDict| && 0 <= j < |ObjectPrototypeNames| ==> DemoDict[i].0 != ObjectPrototypeNames[j]
  {
  }

  /**
    The corrected lookup agrees with the component's on every word except
    those whose cleaning is an inherited property name, where the component
    finds a non-string value and the corrected lookup finds nothing.
   */
  lemma CorrectedAgreesOnOwnKeys(text: Text)
    ensures PhoneticAsWritten(text).OwnEntry? <==> MockPhonetic(text).Some?
    ensures MockPhonetic(text).Some? ==> PhoneticAsWritten(text).phonetic == MockPhonetic(text).value
    ensures PhoneticAsWritten(text).Inherited? <==> MockPhonetic(text).None? && Clean(text) in ObjectPrototypeNames
  {
  }

  /** No dictionary key is eleven units long, as "constructor" is. */
  lemma NoElevenUnitKey()
    ensures forall i :: 0 <= i < |DemoDict| ==> |DemoDict[i].0| != 11
  {
  }

  /**
    The reference token "constructor" (a token never holds ".", a separator of
    the tokenizer): the component shows a function where a phonetic belongs.
   */
  lemma ConstructorIsInherited()
    ensures PhoneticAsWritten(ObjectPrototypeNames[0]).Inherited?
    ensures MockPhonetic(ObjectPrototypeNames[0]) == None
  {
    CleanKeeps(ObjectPrototypeNames[0]);
    NoElevenUnitKey();
  }

  /** Trailing sentence punctuation does not change the phonetic found. */
  lemma PunctuationIgnored(word: Text, mark: CodeUnit)
    requires IsStripped(mark)
    ensures MockPhonetic(word + [mark]) == MockPhonetic(word)
    ensures PhoneticAsWritten(word + [mark]) == PhoneticAsWritten(word)
  {
    CleanAppend(word, [mark]);
    assert Clean(word + [mark]) == Clean(word);
  }

  /** Entry 21 is the only one keyed "Hello". */
  lemma HelloKeyUnique()
    ensures DemoDict[21].0 == [0x48, 0x65, 0x6C, 0x6C, 0x6F]
    ensures forall i :: 0 <= i < |DemoDict| && i != 21 ==> DemoDict[i].0 != [0x48, 0x65, 0x6C, 0x6C, 0x6F]
  {
    assert forall i :: 0 <= i < |DemoDict| && i != 21 ==> |DemoDict[i].0| != 5 || DemoDict[i].0[0] != 0x48;
  }

  /** "Hello!" finds the entry for "Hello". */
  lemma HelloExample()
    ensures MockPhonetic([0x48, 0x65, 0x6C, 0x6C, 0x6F, 0x21]) == Some(DemoDict[21].1)
  {
    var word: Text := [0x48, 0x65, 0x6C, 0x6C, 0x6F];
    CleanKeeps(word);
    PunctuationIgnored(word, 0x21);
    assert word + [0x21] == [0x48, 0x65, 0x6C, 0x6C, 0x6F, 0x21];
    HelloKeyUnique();
  }
}
