/** The two requests of the tool with the web and file plumbing removed:
    the review request (read the corpus and the dictionary, produce the
    review items) and the process request (re-read the corpus, apply the
    reviewer's corrections, score). */
module Pipeline {
  import opened Results
  import opened Script
  import opened Corpus
  import opened Candidates
  import opened Scoring

  /** What the corrected output file holds: the records with corrected
      predictions, then the two rates. */
  datatype Report = Report(gt: seq<string>, pred: seq<string>, prob: seq<real>, wrr: Ratio, crr: Ratio)

  /** The review request. Fails exactly when the corpus read fails; the
      items are those of the review loop over the read records and the
      loaded dictionary, so every candidate is a Telugu dictionary word. */
  method ReviewSession(inputLines: seq<string>, dictLines: seq<string>, parse: string -> Option<real>,
                       probThreshold: real, distThreshold: int)
    returns (res: Result<seq<ReviewItem>, Error>)
    ensures res.Failure? <==> ReadData(inputLines, parse).Failure?
    ensures res.Failure? ==> res.error == ReadData(inputLines, parse).error
    ensures res.Success? ==>
      var recs := ReadData(inputLines, parse).value;
      var dict := ReadDictionary(dictLines);
      && (forall k :: 0 <= k < |res.value| ==>
            Carries(res.value[k], recs.pred, recs.prob)
            && ItemFor(res.value[k], dict, probThreshold, distThreshold)
            && forall c :: c in res.value[k].candidates ==> IsTeluguWord(c))
      && (forall k, l :: 0 <= k < l < |res.value| ==> res.value[k].index < res.value[l].index)
      && (forall i :: 0 <= i < |recs.pred| ==>
            (NeedsReview(recs.pred[i], recs.prob[i], dict, probThreshold, distThreshold) <==>
             exists k :: 0 <= k < |res.value| && res.value[k].index == i))
  {
    var read := ReadData(inputLines, parse);
    if read.Failure? {
      return Failure(read.error);
    }
    var recs := read.value;
    var dict := ReadDictionary(dictLines);
    var items := Review(recs.pred, recs.prob, dict, probThreshold, distThreshold);
    forall k | 0 <= k < |items|
      ensures forall c :: c in items[k].candidates ==> IsTeluguWord(c)
    {
      var d := ItemDistance(items[k], dict, probThreshold, distThreshold);
    }
    return Success(items);
  }

  /** The process request. Errors arise in the application's order: the
      corpus read, then a correction past the end of the predictions, then
      a zero denominator in either rate. Otherwise the report keeps the
      ground truth and confidences, carries the corrected predictions, and
      scores them. */
  method Process(lines: seq<string>, parse: string -> Option<real>, corrections: map<nat, string>)
    returns (res: Result<Report, Error>)
    ensures ReadData(lines, parse).Failure? ==> res == Failure(ReadData(lines, parse).error)
    ensures ReadData(lines, parse).Success? ==>
      var recs := ReadData(lines, parse).value;
      var n := |recs.pred|;
      if exists k :: k in corrections && k >= n then
        res.Failure? && res.error.IndexOutOfRange?
        && res.error.index in corrections && res.error.index >= n
      else if n == 0 || TotalLength(recs.gt) == 0 then
        res == Failure(ZeroDivision)
      else
        && res.Success?
        && res.value.gt == recs.gt && res.value.prob == recs.prob
        && |res.value.pred| == n
        && (forall i :: 0 <= i < n && i in corrections ==> res.value.pred[i] == corrections[i])
        && (forall i :: 0 <= i < n && i !in corrections ==> res.value.pred[i] == recs.pred[i])
        && res.value.wrr == WordAccuracy(recs.gt, res.value.pred)
        && res.value.crr == CharAccuracy(recs.gt, res.value.pred)
        && 0 <= res.value.wrr.num <= res.value.wrr.den == n
        && res.value.crr.num <= res.value.crr.den
  {
    var read := ReadData(lines, parse);
    if read.Failure? {
      return Failure(read.error);
    }
    var recs := read.value;
    if k :| k in corrections && k >= |recs.pred| {
      return Failure(IndexOutOfRange(k));
    }
    var pred := ApplyCorrections(recs.pred, corrections);
    if |recs.gt| == 0 || TotalLength(recs.gt) == 0 {
      return Failure(ZeroDivision);
    }
    var wrr := WordAccuracy(recs.gt, pred);
    var crr := CharAccuracy(recs.gt, pred);
    return Success(Report(recs.gt, pred, recs.prob, wrr, crr));
  }
}
