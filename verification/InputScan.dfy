/** A whole input: chunked reading and keyword evaluation together
    (internal/scanner/io.go, internal/scanner/evaluate.go). */
module InputScan {
  import opened ByteStrings
  import opened ChunkedReader
  import opened Aho
  import opened LongLine
  import opened Keywords
  import opened KeywordEval
  import opened KeywordReports
  import opened LongLineKeywords

  /** `string(line)`, one character a byte. */
  function Text(b: Bytes): (s: string)
    ensures |s| == |b| && forall i :: 0 <= i < |b| ==> s[i] as int == b[i] as int
  {
    seq(|b|, i requires 0 <= i < |b| => b[i] as int as char)
  }

  datatype Setup = Setup(patterns: seq<string>, rules: seq<KeywordRule>, step: nat, overlap: int, idsOf: string -> seq<nat>) {
    ghost predicate Valid() {
      step > 0 && "" !in patterns && forall t :: OccurringIds(patterns, t, idsOf(t))
    }
  }

  /** The rule matches in a segment of the line. */
  ghost predicate LineMatches(c: Setup, line: Bytes, id: string)
    requires c.step > 0
  {
    MatchedIn(c.patterns, c.rules, SegmentTexts(Text(line), c.step, NonNegative(c.overlap)), id)
  }

  ghost predicate RightOn(c: Setup, lines: seq<Bytes>, vs: seq<Violation>, id: string, l: nat)
    requires c.step > 0
  {
    Reported(vs, id, l) <==> 1 <= l <= |lines| && LineMatches(c, lines[l - 1], id)
  }

  /** On every line whose number lets no two rule ids clash, exactly the matching rules are reported. */
  ghost predicate ReportsOn(c: Setup, lines: seq<Bytes>, vs: seq<Violation>)
    requires c.step > 0
  {
    forall id, l: nat :: NoClash(Ids(c.rules), l) ==> RightOn(c, lines, vs, id, l)
  }

  /** Piece p..e of read i passes the limit: the lines closed before it are reported, then the limit itself. */
  ghost predicate ReportsUpTo(c: Setup, parts: seq<Bytes>, max: int, i: int, p: int, e: int, vs: seq<Violation>)
    requires c.step > 0
  {
    && StopsAt(parts, max, i, p, e)
    && vs != [] && vs[|vs| - 1] == Violation(STREAM_LIMIT, 0, 0)
    && ReportsOn(c, LinesBefore(parts, i, p), vs[..|vs| - 1])
  }

  lemma OneMoreLine(c: Setup, lines: seq<Bytes>, line: Bytes, before: seq<Violation>, after: seq<Violation>)
    requires c.step > 0 && ReportsOn(c, lines, before)
    requires var texts := SegmentTexts(Text(line), c.step, NonNegative(c.overlap));
      && IsEvaluation(c.patterns, c.rules, texts, |lines| + 1, before, after)
      && (NoClash(Ids(c.rules), |lines| + 1) ==> ReportsMatches(c.patterns, c.rules, texts, |lines| + 1, before, after))
    ensures ReportsOn(c, lines + [line], after)
  {
    var texts, n := SegmentTexts(Text(line), c.step, NonNegative(c.overlap)), |lines| + 1;
    forall id, l: nat | NoClash(Ids(c.rules), l) ensures RightOn(c, lines + [line], after, id, l) {
      assert RightOn(c, lines, before, id, l);
      if l != n {
        EvaluationKeepsOtherLines(c.patterns, c.rules, texts, n, before, after, id, l);
      }
    }
  }

  method EvaluateNext(c: Setup, line: Numbered, before: seq<Violation>, ghost lines: seq<Bytes>) returns (after: seq<Violation>)
    requires c.Valid() && line.line == |lines| + 1 && ReportsOn(c, lines, before)
    ensures ReportsOn(c, lines + [line.text], after)
  {
    after := EvaluateLongLine(c.patterns, c.rules, Text(line.text), line.line, c.step, c.overlap, c.idsOf, before);
    OneMoreLine(c, lines, line.text, before, after);
  }

  method EvaluateLines(c: Setup, evaluated: seq<Numbered>, ghost lines: seq<Bytes>) returns (vs: seq<Violation>)
    requires c.Valid() && evaluated == Number(lines)
    ensures ReportsOn(c, lines, vs)
  {
    vs := [];
    for k := 0 to |evaluated|
      invariant ReportsOn(c, lines[..k], vs)
    {
      vs := EvaluateNext(c, evaluated[k], vs, lines[..k]);
      assert lines[..k + 1] == lines[..k] + [lines[k]];
    }
    assert lines[..|evaluated|] == lines;
  }

  datatype Outcome = Scanned(violations: seq<Violation>) | Quarantined(violations: seq<Violation>) | LimitExceeded | ReadError | Interrupted

  const STREAM_LIMIT := "stream_limit"

  /** However the input is cut into reads, a completed scan reports exactly the rules that match on each
      line of the whole input. A quarantined one does so for the lines before the limit. */
  method ScanInput(c: Setup, parts: seq<Bytes>, ending: Ending, max: int, quarantineOnError: bool) returns (r: Outcome)
    requires c.Valid()
    ensures r.Scanned? <==> !Exceeds(max, Charged(parts, |parts|)) && ending.Eof?
    ensures r.Scanned? ==> ReportsOn(c, Lines(Stream(parts)), r.violations)
    ensures r.Quarantined? <==> Exceeds(max, Charged(parts, |parts|)) && quarantineOnError
    ensures r.Quarantined? ==> exists i, p, e :: ReportsUpTo(c, parts, max, i, p, e, r.violations)
    ensures r.LimitExceeded? <==> Exceeds(max, Charged(parts, |parts|)) && !quarantineOnError
    ensures r.ReadError? <==> !Exceeds(max, Charged(parts, |parts|)) && ending.Broken?
    ensures r.Interrupted? <==> !Exceeds(max, Charged(parts, |parts|)) && ending.Cancelled?
  {
    var read := ScanChunked(parts, ending, max, quarantineOnError);
    match read
    case Finished(evaluated, _, _) =>
      var vs := EvaluateLines(c, evaluated, Lines(Stream(parts)));
      return Scanned(vs);
    case OverLimit(evaluated, _) =>
      ghost var i, p, e :| StopsAt(parts, max, i, p, e) && evaluated == Number(LinesBefore(parts, i, p));
      var vs := EvaluateLines(c, evaluated, LinesBefore(parts, i, p));
      if quarantineOnError {
        ghost var all := vs + [Violation(STREAM_LIMIT, 0, 0)];
        assert all[..|all| - 1] == vs;
        assert ReportsUpTo(c, parts, max, i, p, e, all);
        return Quarantined(vs + [Violation(STREAM_LIMIT, 0, 0)]);
      }
      return LimitExceeded;
    case ReadFailed =>
      return ReadError;
    case Stopped =>
      return Interrupted;
  }
}
