/** The Telugu script classifier: a full match of a regular expression
    accepting one or more characters of the Unicode Telugu block
    (U+0C00 to U+0C7F) and nothing else. */
module Script {

  const TeluguFirst: int := 0x0C00
  const TeluguLast: int := 0x0C7F

  /** One character of the Telugu block. */
  predicate IsTeluguChar(c: char) {
    TeluguFirst <= c as int <= TeluguLast
  }

  /** Matches the pattern character by character: at least one Telugu
      character (the `+`), then either the end or more of the same. */
  predicate IsTeluguWord(w: string) {
    |w| > 0 && IsTeluguChar(w[0]) && (|w| == 1 || IsTeluguWord(w[1..]))
  }

  /** A word is accepted exactly when it is non-empty and every one of its
      code points lies in the Telugu block; in particular the empty string
      is rejected. */
  lemma {:induction false} TeluguWordIff(w: string)
    ensures IsTeluguWord(w) <==>
      |w| > 0 && forall k :: 0 <= k < |w| ==> TeluguFirst <= w[k] as int <= TeluguLast
    decreases |w|
  {
    if |w| > 1 {
      TeluguWordIff(w[1..]);
      assert forall k :: 1 <= k < |w| ==> w[k] == w[1..][k - 1];
    }
  }
}
