/** Reading the two uploaded files once their lines are in hand: the
    tab-separated corpus of (ground truth, prediction, confidence) records,
    and the dictionary word list. */
module Corpus {
  import opened Results
  import opened Text
  import opened Script

  const Tab: char := '\t'

  /** The three text fields of one record line. */
  datatype Fields = Fields(gt: string, pred: string, conf: string)

  /** The three parallel lists the reader returns; position is identity. */
  datatype Records = Records(gt: seq<string>, pred: seq<string>, prob: seq<real>)

  /** A record line as the corrected output file writes it, before its
      line terminator. */
  function Render(f: Fields): string {
    f.gt + [Tab] + f.pred + [Tab] + f.conf
  }

  /** Strips the line and splits it on tabs; only a line with exactly
      three pieces is a record. */
  function ParseLine(line: string): Option<Fields>
  {
    var parts := Split(Strip(line), Tab);
    if |parts| != 3 then None else Some(Fields(parts[0], parts[1], parts[2]))
  }

  /** A line is a record exactly when its stripped form holds two tabs; the
      record's fields are then tab-free and, rejoined by tabs, give back the
      stripped line. */
  lemma ParseLineFields(line: string)
    ensures ParseLine(line).Some? <==> Occurrences(Strip(line), Tab) == 2
    ensures ParseLine(line).Some? ==>
      var f := ParseLine(line).value;
      && Tab !in f.gt && Tab !in f.pred && Tab !in f.conf
      && Render(f) == Strip(line)
  {
    var parts := Split(Strip(line), Tab);
    if |parts| == 3 {
      JoinSplit(Strip(line), Tab);
      Join3(parts[0], parts[1], parts[2], Tab);
      assert parts == [parts[0], parts[1], parts[2]];
    }
  }

  /** Round trip with the output format: a rendered record, followed by a
      line terminator, parses back to the same fields, provided no field
      holds a tab and the line neither starts nor ends with whitespace. */
  lemma ParseRenderedLine(f: Fields, eol: string)
    requires Tab !in f.gt && Tab !in f.pred && Tab !in f.conf
    requires |f.gt| > 0 && !IsSpace(f.gt[0])
    requires |f.conf| > 0 && !IsSpace(f.conf[|f.conf| - 1])
    requires forall k :: 0 <= k < |eol| ==> IsSpace(eol[k])
    ensures ParseLine(Render(f) + eol) == Some(f)
  {
    var s := Render(f);
    assert s[0] == f.gt[0] && s[|s| - 1] == f.conf[|f.conf| - 1];
    StripPadded(s, eol);
    var parts := [f.gt, f.pred, f.conf];
    SplitJoin(parts, Tab);
    Join3(f.gt, f.pred, f.conf, Tab);
  }

  /** A record whose ground truth is empty is lost: the line starts with
      the tab that ends the empty field, stripping removes that tab with
      the other leading whitespace, and two fields are left. */
  lemma EmptyGroundTruthDropped(pred: string, conf: string, eol: string)
    requires Tab !in pred && Tab !in conf
    requires |pred| > 0 && !IsSpace(pred[0])
    requires |conf| > 0 && !IsSpace(conf[|conf| - 1])
    requires forall k :: 0 <= k < |eol| ==> IsSpace(eol[k])
    ensures ParseLine(Render(Fields("", pred, conf)) + eol) == None
  {
    var s := pred + [Tab] + conf;
    assert Render(Fields("", pred, conf)) + eol == [Tab] + (s + eol);
    StripLeadingSpace(Tab, s + eol);
    TwoFieldsStrip(pred, conf, eol);
    TwoFieldsSplit(pred, conf);
  }

  lemma TwoFieldsStrip(pred: string, conf: string, eol: string)
    requires |pred| > 0 && !IsSpace(pred[0])
    requires |conf| > 0 && !IsSpace(conf[|conf| - 1])
    requires forall k :: 0 <= k < |eol| ==> IsSpace(eol[k])
    ensures Strip(pred + [Tab] + conf + eol) == pred + [Tab] + conf
  {
    var s := pred + [Tab] + conf;
    assert s[0] == pred[0] && s[|s| - 1] == conf[|conf| - 1];
    StripPadded(s, eol);
  }

  lemma TwoFieldsSplit(pred: string, conf: string)
    requires Tab !in pred && Tab !in conf
    ensures |Split(pred + [Tab] + conf, Tab)| == 2
  {
    assert [pred, conf][1..] == [conf];
    assert Join([pred, conf], Tab) == pred + [Tab] + conf;
    SplitJoin([pred, conf], Tab);
  }

  /** The line is a record whose confidence text does not parse. */
  predicate BadLine(line: string, parse: string -> Option<real>) {
    ParseLine(line).Some? && parse(ParseLine(line).value.conf).None?
  }

  /** Number of lines that split into exactly three fields. */
  function KeptCount(lines: seq<string>): nat
  {
    if |lines| == 0 then 0
    else (if ParseLine(lines[0]).Some? then 1 else 0) + KeptCount(lines[1..])
  }

  /** Puts the record of `line` in front of what the following lines read
      to: a line that is not a record adds nothing, a record whose
      confidence does not parse aborts the read. */
  function Push(line: string, parse: string -> Option<real>, tail: Result<Records, Error>): Result<Records, Error>
  {
    match ParseLine(line)
    case None => tail
    case Some(f) =>
      match parse(f.conf)
      case None => Failure(BadConfidence(f.conf))
      case Some(x) =>
        match tail
        case Failure(_) => tail
        case Success(rest) =>
          Success(Records([f.gt] + rest.gt, [f.pred] + rest.pred, [x] + rest.prob))
  }

  /** The corpus reader. `parse` stands for Python's `float` on the
      confidence text; its `None` is the ValueError that aborts the read. */
  function ReadData(lines: seq<string>, parse: string -> Option<real>): (r: Result<Records, Error>)
    ensures r.Success? ==> |r.value.gt| == |r.value.pred| == |r.value.prob|
    ensures r.Failure? ==> r.error.BadConfidence?
  {
    if |lines| == 0 then Success(Records([], [], []))
    else Push(lines[0], parse, ReadData(lines[1..], parse))
  }

  /** A successful read has one entry per record line. */
  lemma {:induction false} ReadDataLength(lines: seq<string>, parse: string -> Option<real>)
    ensures ReadData(lines, parse).Success? ==> |ReadData(lines, parse).value.gt| == KeptCount(lines)
    decreases |lines|
  {
    if |lines| > 0 {
      ReadDataLength(lines[1..], parse);
    }
  }

  /** Pushing a line fails exactly when the line itself is bad or the rest
      already failed. */
  lemma PushFails(line: string, parse: string -> Option<real>, tail: Result<Records, Error>)
    ensures Push(line, parse, tail).Failure? <==> BadLine(line, parse) || tail.Failure?
  {
  }

  /** The read fails exactly when some record line carries a confidence
      that does not parse. */
  lemma {:induction false} ReadDataFails(lines: seq<string>, parse: string -> Option<real>)
    ensures ReadData(lines, parse).Failure? <==>
      exists i :: 0 <= i < |lines| && BadLine(lines[i], parse)
    decreases |lines|
  {
    if |lines| > 0 {
      var tail := lines[1..];
      ReadDataFails(tail, parse);
      PushFails(lines[0], parse, ReadData(tail, parse));
      if j :| 0 <= j < |tail| && BadLine(tail[j], parse) {
        assert lines[j + 1] == tail[j];
      }
      if i :| 0 < i < |lines| && BadLine(lines[i], parse) {
        assert tail[i - 1] == lines[i];
      }
    }
  }

  /** The error names the confidence text of the first line that fails. */
  lemma {:induction false} ReadDataFirstError(lines: seq<string>, parse: string -> Option<real>, i: nat)
    requires i < |lines| && BadLine(lines[i], parse)
    requires forall j :: 0 <= j < i ==> !BadLine(lines[j], parse)
    ensures ReadData(lines, parse) == Failure(BadConfidence(ParseLine(lines[i]).value.conf))
    decreases i
  {
    if i > 0 {
      var tail := lines[1..];
      assert tail[i - 1] == lines[i];
      forall j | 0 <= j < i - 1
        ensures !BadLine(tail[j], parse)
      {
        assert tail[j] == lines[j + 1];
      }
      ReadDataFirstError(tail, parse, i - 1);
      assert !BadLine(lines[0], parse);
    }
  }

  /** Reading `a` and then `b`: the first failure wins, otherwise the lists
      are concatenated. */
  function Then(x: Result<Records, Error>, y: Result<Records, Error>): Result<Records, Error>
  {
    match x
    case Failure(_) => x
    case Success(r) =>
      match y
      case Failure(_) => y
      case Success(s) => Success(Records(r.gt + s.gt, r.pred + s.pred, r.prob + s.prob))
  }

  lemma PushThen(line: string, parse: string -> Option<real>, x: Result<Records, Error>, y: Result<Records, Error>)
    ensures Push(line, parse, Then(x, y)) == Then(Push(line, parse, x), y)
  {
    if x.Success? && y.Success? && ParseLine(line).Some? {
      var f, r, s := ParseLine(line).value, x.value, y.value;
      assert [f.gt] + (r.gt + s.gt) == ([f.gt] + r.gt) + s.gt;
      assert [f.pred] + (r.pred + s.pred) == ([f.pred] + r.pred) + s.pred;
      if parse(f.conf).Some? {
        var c := parse(f.conf).value;
        assert [c] + (r.prob + s.prob) == ([c] + r.prob) + s.prob;
      }
    }
  }

  /** Reading is compositional over concatenated line sequences. */
  lemma {:induction false} ReadDataConcat(a: seq<string>, b: seq<string>, parse: string -> Option<real>)
    ensures ReadData(a + b, parse) == Then(ReadData(a, parse), ReadData(b, parse))
    decreases |a|
  {
    if |a| == 0 {
      assert a + b == b;
      match ReadData(b, parse)
      case Failure(_) =>
      case Success(s) =>
        assert s.gt == [] + s.gt && s.pred == [] + s.pred && s.prob == [] + s.prob;
    } else {
      assert (a + b)[0] == a[0];
      assert (a + b)[1..] == a[1..] + b;
      ReadDataConcat(a[1..], b, parse);
      PushThen(a[0], parse, ReadData(a[1..], parse), ReadData(b, parse));
    }
  }

  /** Reading a single line is pushing it onto an empty read. */
  lemma ReadDataSingle(line: string, parse: string -> Option<real>)
    ensures ReadData([line], parse) == Push(line, parse, Success(Records([], [], [])))
  {
    assert [line][1..] == [];
  }

  /** One turn of the reading loop, first case: a line that does not split
      into three fields changes nothing. */
  lemma ReadDataSkipsLine(lines: seq<string>, line: string, parse: string -> Option<real>)
    requires ParseLine(line).None?
    ensures ReadData(lines + [line], parse) == ReadData(lines, parse)
  {
    ReadDataConcat(lines, [line], parse);
    ReadDataSingle(line, parse);
    match ReadData(lines, parse)
    case Failure(_) =>
    case Success(r) =>
      assert r.gt + [] == r.gt && r.pred + [] == r.pred && r.prob + [] == r.prob;
  }

  /** One turn of the reading loop, second case: a record line whose
      confidence does not parse aborts the read, unless an earlier line
      already did. */
  lemma ReadDataAbortsOnBadConfidence(lines: seq<string>, line: string, parse: string -> Option<real>)
    requires ParseLine(line).Some? && parse(ParseLine(line).value.conf).None?
    ensures ReadData(lines + [line], parse) ==
      if ReadData(lines, parse).Failure? then ReadData(lines, parse)
      else Failure(BadConfidence(ParseLine(line).value.conf))
  {
    ReadDataConcat(lines, [line], parse);
    ReadDataSingle(line, parse);
  }

  /** One turn of the reading loop, third case: a record line whose
      confidence parses appends one entry to each of the three lists. */
  lemma ReadDataAppendsRecord(lines: seq<string>, line: string, parse: string -> Option<real>)
    requires ParseLine(line).Some? && parse(ParseLine(line).value.conf).Some?
    requires ReadData(lines, parse).Success?
    ensures
      var r := ReadData(lines, parse).value;
      var f := ParseLine(line).value;
      ReadData(lines + [line], parse) ==
        Success(Records(r.gt + [f.gt], r.pred + [f.pred], r.prob + [parse(f.conf).value]))
  {
    ReadDataConcat(lines, [line], parse);
    ReadDataSingle(line, parse);
    var f := ParseLine(line).value;
    assert [f.gt] + [] == [f.gt] && [f.pred] + [] == [f.pred];
    assert [parse(f.conf).value] + [] == [parse(f.conf).value];
  }

  /** The dictionary loader: the stripped lines that are Telugu words, as a
      set; each kept word is non-empty. */
  function ReadDictionary(lines: seq<string>): (d: set<string>)
    ensures forall w :: w in d ==> IsTeluguWord(w) && |w| > 0
    ensures forall w :: w in d <==> exists i :: 0 <= i < |lines| && KeepsWord(lines[i], w)
  {
    set i | 0 <= i < |lines| && IsTeluguWord(Strip(lines[i])) :: Strip(lines[i])
  }

  /** The dictionary line, once stripped, is the Telugu word `w`. */
  predicate KeepsWord(line: string, w: string) {
    Strip(line) == w && IsTeluguWord(w)
  }

  /** One turn of the loading loop: a further line adds its stripped form
      when that is a Telugu word, and nothing otherwise. */
  lemma ReadDictionaryStep(lines: seq<string>, line: string)
    ensures ReadDictionary(lines + [line]) ==
      ReadDictionary(lines) + (if IsTeluguWord(Strip(line)) then {Strip(line)} else {})
  {
    DictionaryKeepsEarlier(lines, line);
    DictionaryAddsLine(lines, line);
    DictionaryAddsNothingElse(lines, line);
  }

  lemma DictionaryKeepsEarlier(lines: seq<string>, line: string)
    ensures ReadDictionary(lines) <= ReadDictionary(lines + [line])
  {
    forall w | w in ReadDictionary(lines)
      ensures w in ReadDictionary(lines + [line])
    {
      var i :| 0 <= i < |lines| && KeepsWord(lines[i], w);
      assert (lines + [line])[i] == lines[i];
    }
  }

  lemma DictionaryAddsLine(lines: seq<string>, line: string)
    ensures IsTeluguWord(Strip(line)) ==> Strip(line) in ReadDictionary(lines + [line])
  {
    assert (lines + [line])[|lines|] == line;
  }

  lemma DictionaryAddsNothingElse(lines: seq<string>, line: string)
    ensures forall w :: w in ReadDictionary(lines + [line]) && w != Strip(line) ==> w in ReadDictionary(lines)
  {
    var ls := lines + [line];
    forall w | w in ReadDictionary(ls) && w != Strip(line)
      ensures w in ReadDictionary(lines)
    {
      var i :| 0 <= i < |ls| && KeepsWord(ls[i], w);
      assert i < |lines|;
      assert ls[i] == lines[i];
    }
  }
}
