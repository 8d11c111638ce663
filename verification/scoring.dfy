/** The correction and scoring steps: merging the reviewer's choices into
    the predictions, and the word and character recognition rates. */
module Scoring {
  import opened Levenshtein

  /** An accuracy as the exact quotient `num / den` that the application
      evaluates in floating point. */
  datatype Ratio = Ratio(num: int, den: int)

  /** Replaces the predictions at the corrected positions, one correction
      at a time, as the loop over the submitted form does. */
  method ApplyCorrections(preds: seq<string>, corrections: map<nat, string>) returns (r: seq<string>)
    requires forall k :: k in corrections ==> k < |preds|
    ensures |r| == |preds|
    ensures forall i :: 0 <= i < |r| && i in corrections ==> r[i] == corrections[i]
    ensures forall i :: 0 <= i < |r| && i !in corrections ==> r[i] == preds[i]
  {
    r := preds;
    var pending := corrections.Keys;
    while pending != {}
      invariant pending <= corrections.Keys
      invariant |r| == |preds|
      invariant forall i :: 0 <= i < |r| && i in corrections && i !in pending ==> r[i] == corrections[i]
      invariant forall i :: 0 <= i < |r| && (i !in corrections || i in pending) ==> r[i] == preds[i]
      decreases pending
    {
      var k :| k in pending;
      r := r[k := corrections[k]];
      pending := pending - {k};
    }
  }

  /** Number of zipped positions where ground truth and prediction agree
      exactly; `zip` stops at the shorter list. */
  function Matches(gt: seq<string>, pred: seq<string>): nat
  {
    if |gt| == 0 || |pred| == 0 then 0
    else (if gt[0] == pred[0] then 1 else 0) + Matches(gt[1..], pred[1..])
  }

  /** At most one match per ground-truth word, and a match at every one of
      them exactly when the prediction agrees with the whole ground truth. */
  lemma {:induction false} MatchesBounds(gt: seq<string>, pred: seq<string>)
    ensures Matches(gt, pred) <= |gt| && Matches(gt, pred) <= |pred|
    ensures Matches(gt, pred) == |gt| <==>
      |gt| <= |pred| && forall i :: 0 <= i < |gt| ==> gt[i] == pred[i]
    decreases |gt|
  {
    if |gt| > 0 && |pred| > 0 {
      MatchesBounds(gt[1..], pred[1..]);
      assert forall i :: 1 <= i < |gt| && i < |pred| ==>
        gt[i] == gt[1..][i - 1] && pred[i] == pred[1..][i - 1];
    }
  }

  /** The word recognition rate: matching positions over ground-truth
      words. An empty ground truth is a division by zero. */
  function WordAccuracy(gt: seq<string>, pred: seq<string>): (r: Ratio)
    requires |gt| > 0
    ensures r.den == |gt| && 0 <= r.num <= r.den
    ensures r.num == r.den <==>
      |gt| <= |pred| && forall i :: 0 <= i < |gt| ==> gt[i] == pred[i]
  {
    MatchesBounds(gt, pred);
    Ratio(Matches(gt, pred), |gt|)
  }

  /** Total number of characters in a list of words. */
  function TotalLength(words: seq<string>): nat
  {
    if |words| == 0 then 0 else |words[0]| + TotalLength(words[1..])
  }

  /** The character hits: for every zipped pair, the ground-truth length
      minus the edit distance. A term is negative when the prediction is
      further from the ground truth than the ground truth is long. */
  function Hits(gt: seq<string>, pred: seq<string>): int
  {
    if |gt| == 0 || |pred| == 0 then 0
    else |gt[0]| - Lev(gt[0], pred[0]) + Hits(gt[1..], pred[1..])
  }

  /** Hits never exceed the ground-truth characters nor the predicted
      characters, and never fall below minus the predicted characters. */
  lemma {:induction false} HitsBounds(gt: seq<string>, pred: seq<string>)
    ensures -(TotalLength(pred) as int) <= Hits(gt, pred) <= TotalLength(gt)
    ensures Hits(gt, pred) <= TotalLength(pred)
    decreases |gt|
  {
    if |gt| > 0 && |pred| > 0 {
      HitsBounds(gt[1..], pred[1..]);
      LevAtMostLonger(gt[0], pred[0]);
      LevAtLeastLengthGap(gt[0], pred[0]);
    }
  }

  /** Every ground-truth character is a hit exactly when each zipped pair
      agrees and the ground-truth words left over by `zip` are empty. */
  lemma {:induction false} HitsFull(gt: seq<string>, pred: seq<string>)
    ensures Hits(gt, pred) == TotalLength(gt) <==>
      forall i :: 0 <= i < |gt| ==> if i < |pred| then gt[i] == pred[i] else |gt[i]| == 0
    decreases |gt|
  {
    if |gt| > 0 {
      assert forall i :: 1 <= i < |gt| ==> gt[i] == gt[1..][i - 1];
      if |pred| > 0 {
        HitsFull(gt[1..], pred[1..]);
        HitsBounds(gt[1..], pred[1..]);
        LevZero(gt[0], pred[0]);
        assert forall i :: 1 <= i < |pred| ==> pred[i] == pred[1..][i - 1];
      } else {
        AllEmpty(gt);
      }
    }
  }

  /** A list of words has no characters exactly when all its words are empty. */
  lemma {:induction false} AllEmpty(words: seq<string>)
    ensures TotalLength(words) == 0 <==> forall i :: 0 <= i < |words| ==> |words[i]| == 0
    decreases |words|
  {
    if |words| > 0 {
      AllEmpty(words[1..]);
      assert forall i :: 1 <= i < |words| ==> words[i] == words[1..][i - 1];
    }
  }

  /** The character recognition rate: character hits over ground-truth
      characters, without clamping. A ground truth without characters is a
      division by zero. */
  function CharAccuracy(gt: seq<string>, pred: seq<string>): (r: Ratio)
    requires TotalLength(gt) > 0
    ensures r.den == TotalLength(gt)
    ensures -(TotalLength(pred) as int) <= r.num <= r.den
    ensures r.num == r.den <==>
      forall i :: 0 <= i < |gt| ==> if i < |pred| then gt[i] == pred[i] else |gt[i]| == 0
  {
    HitsBounds(gt, pred);
    HitsFull(gt, pred);
    Ratio(Hits(gt, pred), TotalLength(gt))
  }

  /** A perfect prediction scores 1 on both rates. */
  lemma PerfectScores(gt: seq<string>)
    requires |gt| > 0 && TotalLength(gt) > 0
    ensures WordAccuracy(gt, gt).num == WordAccuracy(gt, gt).den
    ensures CharAccuracy(gt, gt).num == CharAccuracy(gt, gt).den
  {
  }
}
