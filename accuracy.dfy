/**
  The live accuracy figure: typed text is compared with the reference
  position by position over the shorter of the two lengths, and the share of
  equal code units is shown as a rounded percentage.
 */
module Accuracy {
  import opened Chars

  /** `Math.min(inputText.length, referenceText.length)`. */
  function Compared(typed: Text, reference: Text): (n: nat)
    ensures n <= |typed| && n <= |reference|
    ensures n == |typed| || n == |reference|
  {
    if |typed| < |reference| then |typed| else |reference|
  }

  /** How many of the first `n` positions hold equal code units in both texts. */
  function CorrectChars(typed: Text, reference: Text, n: nat): (c: nat)
    requires n <= |typed| && n <= |reference|
    ensures c <= n
  {
    if n == 0 then 0
    else CorrectChars(typed, reference, n - 1) + (if typed[n - 1] == reference[n - 1] then 1 else 0)
  }

  /** The positions below `n` where the two texts agree. */
  ghost function MatchPositions(typed: Text, reference: Text, n: nat): set<nat>
    requires n <= |typed| && n <= |reference|
  {
    set i: nat | i < n && typed[i] == reference[i]
  }

  /** The running count is the number of agreeing positions. */
  lemma {:induction false} CorrectCharsCountsMatches(typed: Text, reference: Text, n: nat)
    requires n <= |typed| && n <= |reference|
    ensures CorrectChars(typed, reference, n) == |MatchPositions(typed, reference, n)|
  {
    if n == 0 {
      assert MatchPositions(typed, reference, 0) == {};
    } else {
      CorrectCharsCountsMatches(typed, reference, n - 1);
      var before := MatchPositions(typed, reference, n - 1);
      if typed[n - 1] == reference[n - 1] {
        assert MatchPositions(typed, reference, n) == before + {n - 1};
      } else {
        assert MatchPositions(typed, reference, n) == before;
      }
    }
  }

  /** A positive factor keeps a product at least as far from zero as the factor. */
  lemma ProductSign(d: int, x: int)
    requires d > 0
    ensures x >= 1 ==> d * x >= d
    ensures x <= -1 ==> d * x <= -d
  {
  }

  /** Euclidean division is determined by its quotient-remainder equation. */
  lemma DivideExactly(num: int, den: int, q: int, r: int)
    requires den > 0 && 0 <= r < den && num == den * q + r
    ensures num / den == q
  {
    var x := num / den - q;
    assert den * x == den * (num / den) - den * q;
    ProductSign(den, x);
  }

  /**
    `Math.round((correct / len) * 100)` for `0 <= correct <= len`, `len > 0`,
    read over exact rationals: the integer nearest to `100 * correct / len`,
    halves rounded up.
   */
  function RoundedPercent(correct: nat, len: nat): (p: int)
    requires 0 < len && correct <= len
    ensures 0 <= p <= 100
    ensures 2 * len * p - len <= 200 * correct < 2 * len * p + len
  {
    var num, den := 200 * correct + len, 2 * len;
    var p := num / den;
    assert num == den * p + num % den;
    assert den * (p - 100) == den * p - 100 * den;
    ProductSign(den, p - 100);
    p
  }

  /** Nothing wrong over the compared length is 100 percent. */
  lemma AllCorrectIsHundred(len: nat)
    requires len > 0
    ensures RoundedPercent(len, len) == 100
  {
    DivideExactly(200 * len + len, 2 * len, 100, len);
  }

  /** The accuracy shown for the typed text against the reference. */
  function Score(typed: Text, reference: Text): (s: int)
    ensures 0 <= s <= 100
    ensures Compared(typed, reference) == 0 ==> s == 100
  {
    var len := Compared(typed, reference);
    if len > 0 then RoundedPercent(CorrectChars(typed, reference, len), len) else 100
  }

  /** The counting loop of the accuracy effect. */
  method ComputeAccuracy(typed: Text, reference: Text) returns (acc: int)
    ensures acc == Score(typed, reference)
    ensures 0 <= acc <= 100
  {
    var correctChars := 0;
    var len := if |typed| < |reference| then |typed| else |reference|;
    for i := 0 to len
      invariant correctChars == CorrectChars(typed, reference, i)
    {
      if typed[i] == reference[i] {
        correctChars := correctChars + 1;
      }
    }
    acc := if len > 0 then RoundedPercent(correctChars, len) else 100;
  }

  /** Twice the length times a percentage below 100 is at most 198 times the length. */
  lemma BelowHundred(len: nat, p: int)
    requires p <= 99
    ensures 2 * len * p <= 198 * len
  {
    var x := 99 - p;
    assert 2 * len * x == 198 * len - 2 * len * p;
    if len > 0 {
      ProductSign(2 * len, x + 1);
    }
  }

  /**
    The score is 100 exactly when the mismatches are at most half a percent
    of the compared length: a long text can show 100 with one mistake.
   */
  lemma PerfectScore(typed: Text, reference: Text)
    requires Compared(typed, reference) > 0
    ensures var len := Compared(typed, reference);
            Score(typed, reference) == 100 <==> 200 * (len - CorrectChars(typed, reference, len)) <= len
  {
    var len := Compared(typed, reference);
    var c := CorrectChars(typed, reference, len);
    var s := RoundedPercent(c, len);
    if s != 100 {
      BelowHundred(len, s);
    }
  }

  /** Agreement over the whole compared length scores 100. */
  lemma AgreementScoresFull(typed: Text, reference: Text)
    requires var len := Compared(typed, reference); typed[..len] == reference[..len]
    ensures Score(typed, reference) == 100
  {
    var len := Compared(typed, reference);
    assert forall i :: 0 <= i < len ==> typed[i] == typed[..len][i] == reference[..len][i] == reference[i];
    AllAgree(typed, reference, len);
    if len > 0 {
      AllCorrectIsHundred(len);
    }
  }

  lemma {:induction false} AllAgree(typed: Text, reference: Text, n: nat)
    requires n <= |typed| && n <= |reference|
    requires forall i :: 0 <= i < n ==> typed[i] == reference[i]
    ensures CorrectChars(typed, reference, n) == n
  {
    if n > 0 {
      AllAgree(typed, reference, n - 1);
    }
  }

  /** Worked examples of the accuracy display. */
  lemma ScoreIdentical()
    ensures Score(Utf16("hello"), Utf16("hello")) == 100
  {
    AgreementScoresFull(Utf16("hello"), Utf16("hello"));
  }

  lemma ScoreOneTypo()
    ensures Score(Utf16("hxllo"), Utf16("hello")) == 80
  {
    var t, r := Utf16("hxllo"), Utf16("hello");
    assert CorrectChars(t, r, 5) == 4;
    DivideExactly(200 * 4 + 5, 10, 80, 5);
  }

  lemma ScoreNothingTyped()
    ensures Score(Utf16(""), Utf16("hello")) == 100
  {
  }

  /** "hello world" typed against "hello": only the first five units count. */
  lemma ScoreTypedPastReference()
    ensures Score([104, 101, 108, 108, 111, 32, 119, 111, 114, 108, 100], [104, 101, 108, 108, 111]) == 100
  {
    var t: Text := [104, 101, 108, 108, 111, 32, 119, 111, 114, 108, 100];
    var r: Text := [104, 101, 108, 108, 111];
    assert t[..5] == r;
    AgreementScoresFull(t, r);
  }

  /** "Hello Worle" typed against "Hello World": 10 of 11 right shows 91. */
  lemma ScoreLastLetterWrong()
    ensures Score([72, 101, 108, 108, 111, 32, 87, 111, 114, 108, 101],
                  [72, 101, 108, 108, 111, 32, 87, 111, 114, 108, 100]) == 91
  {
    var t: Text := [72, 101, 108, 108, 111, 32, 87, 111, 114, 108, 101];
    var r: Text := [72, 101, 108, 108, 111, 32, 87, 111, 114, 108, 100];
    assert t[..10] == r[..10];
    AllAgree(t, r, 10);
    assert CorrectChars(t, r, 11) == 10;
    DivideExactly(200 * 10 + 11, 22, 91, 9);
  }
}
