/** The candidate generator of the review step: which predictions are
    flagged, which dictionary words are searched for them, and when a
    flagged prediction becomes an item for the human reviewer. */
module Candidates {
  import opened Results
  import opened Script
  import opened Levenshtein

  /** One entry of the review form: the position of the prediction, the
      prediction and its confidence, and the tied closest dictionary words.
      The application lists the candidates in the iteration order of a
      Python set, which is unspecified, so they are kept as a set here. */
  datatype ReviewItem = ReviewItem(index: nat, word: string, prob: real, candidates: set<string>)

  /** A prediction is searched for when it is a Telugu word, is not already
      in the dictionary, and its confidence does not exceed the threshold. */
  predicate Flagged(pred: string, prob: real, dict: set<string>, probThreshold: real) {
    IsTeluguWord(pred) && pred !in dict && prob <= probThreshold
  }

  /** Python's `w.startswith(c)` for a one-character prefix. */
  predicate StartsWith(w: string, c: char) {
    |w| > 0 && w[0] == c
  }

  /** The dictionary words searched for `pred`: those sharing its first
      character. No other word is ever considered. */
  function Restricted(dict: set<string>, pred: string): (words: set<string>)
    requires |pred| > 0
    ensures words <= dict
    ensures forall w :: w in dict && StartsWith(w, pred[0]) ==> w in words
    ensures forall w :: w in words ==> StartsWith(w, pred[0])
  {
    set w | w in dict && StartsWith(w, pred[0])
  }

  /** `d` is the least distance from `pred` to a word of `words`. */
  ghost predicate IsMinDist(words: set<string>, pred: string, d: nat) {
    && (exists w :: w in words && Lev(pred, w) == d)
    && (forall w :: w in words ==> d <= Lev(pred, w))
  }

  /** The words of `words` at distance exactly `d` from `pred`. */
  ghost function TiedAt(words: set<string>, pred: string, d: nat): set<string> {
    set w | w in words && Lev(pred, w) == d
  }

  /** The least distance is unique. */
  lemma MinDistUnique(words: set<string>, pred: string, d: nat, e: nat)
    requires IsMinDist(words, pred, d) && IsMinDist(words, pred, e)
    ensures d == e
  {
    var v :| v in words && Lev(pred, v) == d;
    var w :| w in words && Lev(pred, w) == e;
  }

  /** The condition under which the review step emits an item for a
      prediction: it is flagged, the closest words sharing its first
      character are within the distance threshold, and at least two of
      them tie. */
  ghost predicate NeedsReview(pred: string, prob: real, dict: set<string>,
                              probThreshold: real, distThreshold: int)
  {
    && Flagged(pred, prob, dict, probThreshold)
    && exists d: nat :: IsMinDist(Restricted(dict, pred), pred, d)
         && d <= distThreshold
         && |TiedAt(Restricted(dict, pred), pred, d)| >= 2
  }

  /** `item` is a well-formed review item: its word is flagged and its
      candidates are all the words that tie at the least distance, within
      the threshold, and there are at least two of them. */
  ghost predicate ItemFor(item: ReviewItem, dict: set<string>, probThreshold: real, distThreshold: int)
  {
    && Flagged(item.word, item.prob, dict, probThreshold)
    && |item.candidates| >= 2
    && exists d: nat :: IsMinDist(Restricted(dict, item.word), item.word, d)
         && d <= distThreshold
         && item.candidates == TiedAt(Restricted(dict, item.word), item.word, d)
  }

  /** The item stands for position `item.index` and carries that position's
      prediction and confidence unchanged. */
  ghost predicate Carries(item: ReviewItem, preds: seq<string>, probs: seq<real>) {
    && item.index < |preds| && item.index < |probs|
    && item.word == preds[item.index]
    && item.prob == probs[item.index]
  }

  /** The least distance from `pred` to the words of a non-empty set, and
      every word at that distance. The application computes all distances,
      takes their minimum and then filters; this single pass keeps a
      running minimum and the words tied at it. */
  method ClosestTies(pred: string, words: set<string>) returns (minDist: nat, tied: set<string>)
    requires words != {}
    ensures IsMinDist(words, pred, minDist)
    ensures tied == TiedAt(words, pred, minDist)
  {
    var w :| w in words;
    minDist := EditDistance(pred, w);
    tied := {w};
    var rest := words - {w};
    while rest != {}
      invariant rest <= words
      invariant IsMinDist(words - rest, pred, minDist)
      invariant tied == TiedAt(words - rest, pred, minDist)
      decreases rest
    {
      var x :| x in rest;
      var d := EditDistance(pred, x);
      var seen := words - rest;
      assert words - (rest - {x}) == seen + {x};
      if d < minDist {
        minDist, tied := d, {x};
      } else if d == minDist {
        tied := tied + {x};
      }
      rest := rest - {x};
    }
    assert words - rest == words;
  }

  /** The body of the review loop for one position. */
  method ReviewWord(index: nat, pred: string, prob: real, dict: set<string>,
                    probThreshold: real, distThreshold: int)
    returns (item: Option<ReviewItem>)
    ensures item.Some? <==> NeedsReview(pred, prob, dict, probThreshold, distThreshold)
    ensures item.Some? ==>
      && item.value.index == index && item.value.word == pred && item.value.prob == prob
      && ItemFor(item.value, dict, probThreshold, distThreshold)
  {
    if !IsTeluguWord(pred) || pred in dict || prob > probThreshold {
      return None;
    }
    var first := pred[0];
    var words := set w | w in dict && StartsWith(w, first);
    assert words == Restricted(dict, pred);
    if words == {} {
      return None;
    }
    var minDist, tied := ClosestTies(pred, words);
    if minDist > distThreshold {
      forall d: nat | IsMinDist(words, pred, d)
        ensures d > distThreshold
      {
        MinDistUnique(words, pred, d, minDist);
      }
      return None;
    }
    if |tied| > 1 {
      return Some(ReviewItem(index, pred, prob, tied));
    }
    forall d: nat | IsMinDist(words, pred, d)
      ensures |TiedAt(words, pred, d)| < 2
    {
      MinDistUnique(words, pred, d, minDist);
    }
    return None;
  }

  /** The review loop over the zipped predictions and confidences: one item
      per position that needs review, in ascending position order. */
  method Review(preds: seq<string>, probs: seq<real>, dict: set<string>,
                probThreshold: real, distThreshold: int)
    returns (items: seq<ReviewItem>)
    ensures forall k :: 0 <= k < |items| ==>
      Carries(items[k], preds, probs) && ItemFor(items[k], dict, probThreshold, distThreshold)
    ensures forall k, l :: 0 <= k < l < |items| ==> items[k].index < items[l].index
    ensures forall i :: 0 <= i < |preds| && i < |probs| ==>
      (NeedsReview(preds[i], probs[i], dict, probThreshold, distThreshold) <==>
       exists k :: 0 <= k < |items| && items[k].index == i)
  {
    var n := if |preds| <= |probs| then |preds| else |probs|;
    items := [];
    var i := 0;
    while i < n
      invariant 0 <= i <= n
      invariant forall k :: 0 <= k < |items| ==>
        items[k].index < i && Carries(items[k], preds, probs)
        && ItemFor(items[k], dict, probThreshold, distThreshold)
      invariant forall k, l :: 0 <= k < l < |items| ==> items[k].index < items[l].index
      invariant forall j :: 0 <= j < i ==>
        (NeedsReview(preds[j], probs[j], dict, probThreshold, distThreshold) <==>
         exists k :: 0 <= k < |items| && items[k].index == j)
    {
      var item := ReviewWord(i, preds[i], probs[i], dict, probThreshold, distThreshold);
      var before := items;
      if item.Some? {
        items := items + [item.value];
        assert items[|items| - 1].index == i;
      }
      assert forall k :: 0 <= k < |before| ==> items[k] == before[k];
      assert (exists k :: 0 <= k < |items| && items[k].index == i) <==> item.Some?;
      i := i + 1;
    }
  }

  /** What a review item promises the reviewer: every candidate is a
      dictionary word beginning with the flagged word's first character, all
      candidates lie at one distance `d` from it, no word sharing that first
      character is closer, and `d` is at least 1 (the flagged word is not
      itself in the dictionary) and at most the distance threshold. */
  lemma ItemDistance(item: ReviewItem, dict: set<string>, probThreshold: real, distThreshold: int)
    returns (d: nat)
    requires ItemFor(item, dict, probThreshold, distThreshold)
    ensures 1 <= d <= distThreshold
    ensures |item.word| > 0 && |item.candidates| >= 2
    ensures forall c :: c in item.candidates ==>
      c in dict && StartsWith(c, item.word[0]) && Lev(item.word, c) == d
    ensures forall w :: w in dict && StartsWith(w, item.word[0]) ==> d <= Lev(item.word, w)
  {
    var words := Restricted(dict, item.word);
    d :| IsMinDist(words, item.word, d) && d <= distThreshold
         && item.candidates == TiedAt(words, item.word, d);
    var c :| c in item.candidates;
    assert c in dict && c != item.word;
    LevZero(item.word, c);
  }

  /** A unique closest word yields no review item. */
  lemma UniqueClosestNotReviewed(pred: string, prob: real, dict: set<string>,
                                 probThreshold: real, distThreshold: int, best: string)
    requires |pred| > 0 && best in Restricted(dict, pred)
    requires forall w :: w in Restricted(dict, pred) && w != best ==> Lev(pred, best) < Lev(pred, w)
    ensures !NeedsReview(pred, prob, dict, probThreshold, distThreshold)
  {
    var words := Restricted(dict, pred);
    forall d: nat | IsMinDist(words, pred, d)
      ensures |TiedAt(words, pred, d)| < 2
    {
      assert d == Lev(pred, best);
      assert TiedAt(words, pred, d) == {best};
    }
  }

  /** Conversely, two distinct words sharing the first character and tied at
      the least distance, within the threshold, yield a review item for a
      flagged prediction. */
  lemma TiedClosestReviewed(pred: string, prob: real, dict: set<string>,
                            probThreshold: real, distThreshold: int, v: string, w: string)
    requires Flagged(pred, prob, dict, probThreshold)
    requires v != w && v in Restricted(dict, pred) && w in Restricted(dict, pred)
    requires Lev(pred, v) == Lev(pred, w) <= distThreshold
    requires forall u :: u in Restricted(dict, pred) ==> Lev(pred, v) <= Lev(pred, u)
    ensures NeedsReview(pred, prob, dict, probThreshold, distThreshold)
  {
    var words := Restricted(dict, pred);
    var d := Lev(pred, v);
    assert IsMinDist(words, pred, d);
    assert {v, w} <= TiedAt(words, pred, d);
    assert |{v, w}| == 2;
    SubsetCard({v, w}, TiedAt(words, pred, d));
  }

  lemma SubsetCard<T>(a: set<T>, b: set<T>)
    requires a <= b
    ensures |a| <= |b|
  {
    assert b == a + (b - a);
  }

  /** The remaining ways a prediction gets no item: it is not flagged, no
      dictionary word shares its first character, or the least distance
      exceeds the distance threshold. */
  lemma NotReviewedWhen(pred: string, prob: real, dict: set<string>,
                        probThreshold: real, distThreshold: int)
    ensures !IsTeluguWord(pred) || pred in dict || prob > probThreshold ==>
      !NeedsReview(pred, prob, dict, probThreshold, distThreshold)
    ensures |pred| > 0 && Restricted(dict, pred) == {} ==>
      !NeedsReview(pred, prob, dict, probThreshold, distThreshold)
    ensures forall d: nat :: |pred| > 0 && IsMinDist(Restricted(dict, pred), pred, d) && d > distThreshold ==>
      !NeedsReview(pred, prob, dict, probThreshold, distThreshold)
  {
    forall d: nat | |pred| > 0 && IsMinDist(Restricted(dict, pred), pred, d) && d > distThreshold
      ensures !NeedsReview(pred, prob, dict, probThreshold, distThreshold)
    {
      forall e: nat | IsMinDist(Restricted(dict, pred), pred, e)
        ensures e > distThreshold
      {
        MinDistUnique(Restricted(dict, pred), pred, d, e);
      }
    }
  }

  /** A worked case with the default thresholds (0.90 and 2): the
      prediction "కన" at confidence 0.75 against the dictionary
      {"కల", "కమ", "అన"}. Both words starting with "క" are one
      substitution away, so the prediction is reviewed; "అన" is just as
      close but starts with another character and is never offered. */
  lemma TwoWayTieScenario()
    ensures var dict := {"\U{0C15}\U{0C32}", "\U{0C15}\U{0C2E}", "\U{0C05}\U{0C28}"};
      && NeedsReview("\U{0C15}\U{0C28}", 0.75, dict, 0.90, 2)
      && Restricted(dict, "\U{0C15}\U{0C28}") == {"\U{0C15}\U{0C32}", "\U{0C15}\U{0C2E}"}
      && Lev("\U{0C15}\U{0C28}", "\U{0C05}\U{0C28}") == 1
  {
    var pred, v, w, u := "\U{0C15}\U{0C28}", "\U{0C15}\U{0C32}", "\U{0C15}\U{0C2E}", "\U{0C05}\U{0C28}";
    var dict := {v, w, u};
    assert Restricted(dict, pred) == {v, w};
    assert IsTeluguWord(pred);
    assert Lev(pred, v) == 1 by { assert Lev(pred[..1], v[..1]) == 0; }
    assert Lev(pred, w) == 1 by { assert Lev(pred[..1], w[..1]) == 0; }
    assert Lev(pred, u) == 1 by { assert Lev(pred[..1], u[..1]) == 1; }
    TiedClosestReviewed(pred, 0.75, dict, 0.90, 2, v, w);
  }

  /** The same prediction against {"కల", "అన"}: the one word starting
      with "క" is the unique closest, so no item is produced, even though
      "అన" is just as close. */
  lemma UniqueClosestScenario()
    ensures !NeedsReview("\U{0C15}\U{0C28}", 0.75, {"\U{0C15}\U{0C32}", "\U{0C05}\U{0C28}"}, 0.90, 2)
    ensures Lev("\U{0C15}\U{0C28}", "\U{0C15}\U{0C32}") == 1
    ensures Lev("\U{0C15}\U{0C28}", "\U{0C05}\U{0C28}") == 1
  {
    var pred, v, u := "\U{0C15}\U{0C28}", "\U{0C15}\U{0C32}", "\U{0C05}\U{0C28}";
    assert Lev(pred, v) == 1 by { assert Lev(pred[..1], v[..1]) == 0; }
    assert Lev(pred, u) == 1 by { assert Lev(pred[..1], u[..1]) == 1; }
    assert Restricted({v, u}, pred) == {v};
    UniqueClosestNotReviewed(pred, 0.75, {v, u}, 0.90, 2, v);
  }
}
