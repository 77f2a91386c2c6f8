/** Turning a closed log file into rows: the schema must match, the sequence must rise, and gaps are counted. */
module LogConverter {
  import opened Bytes
  import LogFormat
  import LogRecord
  import opened LoggerRing

  type Descriptor = LogFormat.Descriptor
  type Sample = LogRecord.Sample

  datatype Verdict = Converted | Partial | InvalidArgument | Running | BadHeader | SchemaMismatch | Structural | Overflow

  datatype Field = NoField | Sha | OutputCount | XmlIndex | ValueReference | Kind | Name | Sequence

  datatype Result = Result(
    verdict: Verdict, field: Field, output: Option<nat>, recordIndex: nat, exported: nat, missing: nat, truncated: bool)
  {
    function With(verdict: Verdict, field: Field, output: Option<nat>): Result {
      this.(verdict := verdict, field := field, output := output)
    }
  }

  // ---- The schema ----

  /** `field` of output `index` is the first thing in which the descriptors differ. */
  ghost predicate FirstDifference(x: Descriptor, y: Descriptor, field: Field, output: Option<nat>) {
    match field
    case Sha => output == None && x.sha != y.sha
    case OutputCount => output == None && x.sha == y.sha && |x.outputs| != |y.outputs|
    case NoField => false
    case Sequence => false
    case _ =>
      && x.sha == y.sha && |x.outputs| == |y.outputs|
      && output.Some? && output.value < |x.outputs| && x.outputs[..output.value] == y.outputs[..output.value]
      && var a, b := x.outputs[output.value], y.outputs[output.value];
        && (a.xmlIndex != b.xmlIndex <==> field == XmlIndex)
        && (field == XmlIndex || (a.valueReference != b.valueReference <==> field == ValueReference))
        && (field == XmlIndex || field == ValueReference || (a.kind != b.kind <==> field == Kind))
        && (field == Name ==> a.name != b.name)
  }

  method DescriptorsMatch(x: Descriptor, y: Descriptor) returns (matches: bool, field: Field, output: Option<nat>)
    ensures matches <==> x.sha == y.sha && x.outputs == y.outputs
    ensures !matches ==> FirstDifference(x, y, field, output)
  {
    if x.sha != y.sha {
      return false, Sha, None;
    }
    if |x.outputs| != |y.outputs| {
      return false, OutputCount, None;
    }
    for index := 0 to |x.outputs|
      invariant x.outputs[..index] == y.outputs[..index]
    {
      var a, b := x.outputs[index], y.outputs[index];
      if a.xmlIndex != b.xmlIndex {
        return false, XmlIndex, Some(index);
      }
      if a.valueReference != b.valueReference {
        return false, ValueReference, Some(index);
      }
      if a.kind != b.kind {
        return false, Kind, Some(index);
      }
      if a.name != b.name {
        return false, Name, Some(index);
      }
    }
    matches, field, output := true, NoField, None;
  }

  // ---- The record loop ----

  predicate Increasing(samples: seq<Sample>) {
    forall i :: 0 < i < |samples| ==> samples[i - 1].sequence < samples[i].sequence
  }

  lemma {:induction false} Apart(samples: seq<Sample>, i: nat, j: nat)
    requires Increasing(samples) && i <= j < |samples|
    ensures samples[j].sequence - samples[i].sequence >= j - i
    decreases j
  {
    if i < j {
      Apart(samples, i, j - 1);
    }
  }

  /** Sequence numbers between the first sample and the last that no sample carries. */
  function Missing(samples: seq<Sample>): (n: nat)
    requires Increasing(samples)
    ensures n + |samples| <= WORD64_MAX + 1
  {
    if samples == [] then 0 else
      Apart(samples, 0, |samples| - 1);
      samples[|samples| - 1].sequence - samples[0].sequence + 1 - |samples|
  }

  /** What a pass over `samples`, of which the reader ended with `end`, must report and publish. */
  ghost predicate Reported(samples: seq<Sample>, end: LogFormat.Status, r: Result, rows: seq<Sample>) {
    && r.exported == r.recordIndex == |rows| && r.output == None
    && rows <= samples && Increasing(rows) && r.missing == Missing(rows) && |rows| <= WORD64_MAX
    && (r.truncated <==> rows == samples && end.Truncated?)
    && match r.verdict
       case Converted => r.field.NoField? && rows == samples && end.EndOfFile?
       case Partial => r.field.NoField? && rows == samples && end.Truncated?
       case Overflow => r.field.NoField? && |rows| == WORD64_MAX < |samples| && Increasing(samples[..|rows| + 1])
       case Structural =>
         if rows == samples then r.field.NoField? && !end.EndOfFile? && !end.Truncated?
         else r.field.Sequence? && 0 < |rows| && samples[|rows|].sequence <= samples[|rows| - 1].sequence
       case _ => false
  }

  /** There is only one way to report. */
  lemma ReportIsUnique(samples: seq<Sample>, end: LogFormat.Status, r: Result, rows: seq<Sample>, r': Result, rows': seq<Sample>)
    requires Reported(samples, end, r, rows) && Reported(samples, end, r', rows')
    ensures r == r' && rows == rows'
  {
    RowsAgree(samples, end, r, rows, r', rows');
    RowsAgree(samples, end, r', rows', r, rows);
  }

  lemma RowsAgree(samples: seq<Sample>, end: LogFormat.Status, r: Result, rows: seq<Sample>, r': Result, rows': seq<Sample>)
    requires Reported(samples, end, r, rows) && Reported(samples, end, r', rows')
    ensures |rows| >= |rows'|
  {
    if |rows| < |rows'| {
      assert false;
    }
  }

  /** The record counter overflows exactly in a stream of more records than it can count, all rising; then they are numbered from zero. */
  lemma OverflowIffTooMany(samples: seq<Sample>, end: LogFormat.Status, r: Result, rows: seq<Sample>)
    requires Reported(samples, end, r, rows)
    ensures r.verdict.Overflow? <==> |samples| > WORD64_MAX && Increasing(samples[..WORD64_MAX + 1])
    ensures r.verdict.Overflow? ==> forall i :: 0 <= i <= WORD64_MAX ==> samples[i].sequence == i
  {
    if |samples| > WORD64_MAX && Increasing(samples[..WORD64_MAX + 1]) {
      var many := samples[..WORD64_MAX + 1];
      assert forall i :: 0 <= i < |many| ==> many[i] == samples[i];
      forall i | 0 <= i <= WORD64_MAX
        ensures samples[i].sequence == i
      {
        Apart(many, 0, i);
        Apart(many, i, WORD64_MAX);
      }
    }
  }

  function EmptyResult(verdict: Verdict): Result { Result(verdict, NoField, None, 0, 0, 0, false) }

  /** The loop over the records; neither the gap counter nor, in any file below 2^64 records, the record counter overflows. */
  method ConvertRecords(file: LogFormat.Stream, d: Descriptor) returns (r: Result, rows: seq<Sample>)
    requires file.Readable()
    modifies file`position
    ensures file.Readable()
    ensures var (samples, end) := LogRecord.ReadAll(d, old(file.Rest())); Reported(samples, end, r, rows)
  {
    hide LogRecord.DecodeRecord;
    rows := [];
    r := EmptyResult(InvalidArgument);
    ghost var (samples, end) := LogRecord.ReadAll(d, file.Rest());
    while true
      invariant file.Readable()
      invariant rows <= samples && Increasing(rows)
      invariant LogRecord.ReadAll(d, file.Rest()) == (samples[|rows|..], end)
      invariant r == EmptyResult(InvalidArgument).(recordIndex := |rows|, exported := |rows|, missing := Missing(rows))
      invariant |rows| <= WORD64_MAX
      decreases |file.Rest()|
    {
      LogRecord.RecordShrinks(d, file.Rest());
      var status, sample := LogRecord.ReadRecord(file, d);
      if status == LogFormat.EndOfFile {
        r := r.With(Converted, NoField, None);
        return;
      }
      if status == LogFormat.Truncated {
        r := r.(verdict := Partial, truncated := true);
        return;
      }
      if status != LogFormat.Ok {
        r := r.With(Structural, NoField, None);
        return;
      }
      assert sample == samples[|rows|] && samples[|rows|..][1..] == samples[|rows| + 1..];
      if rows != [] && sample.sequence <= rows[|rows| - 1].sequence {
        r := r.With(Structural, Sequence, None);
        return;
      }
      assert Increasing(rows + [sample]) && rows + [sample] <= samples;
      var gap := 0;
      if rows != [] && sample.sequence > rows[|rows| - 1].sequence + 1 {
        gap := sample.sequence - rows[|rows| - 1].sequence - 1;
        if WORD64_MAX - r.missing < gap {
          r := r.With(Overflow, Sequence, None);
          return;
        }
      }
      if r.recordIndex == WORD64_MAX {
        r := r.With(Overflow, NoField, None);
        return;
      }
      r := r.(missing := r.missing + gap, recordIndex := r.recordIndex + 1, exported := r.exported + 1);
      rows := rows + [sample];
    }
  }

  /** The file starts with a header whose hash and outputs are the expected ones. */
  ghost predicate Same(bytes: seq<Byte>, expected: Descriptor) {
    var h := LogFormat.DecodeHeader(bytes);
    h.Done? && h.value.sha == expected.sha && h.value.outputs == expected.outputs
  }

  /** The result of converting a file, and the rows published: none when it fails. */
  ghost predicate Conversion(bytes: seq<Byte>, expected: Descriptor, r: Result, csv: Option<seq<Sample>>) {
    var h := LogFormat.DecodeHeader(bytes);
    && (r.verdict == BadHeader <==> !h.Done?)
    && (r.verdict == SchemaMismatch <==> h.Done? && !Same(bytes, expected))
    && (r.verdict == SchemaMismatch ==> FirstDifference(h.value, expected, r.field, r.output))
    && (csv.Some? <==> r.verdict == Converted || r.verdict == Partial)
    && (Same(bytes, expected) ==>
          var (samples, end) := LogRecord.ReadAll(h.value, h.rest);
          exists rows :: Reported(samples, end, r, rows) && (csv.Some? ==> csv.value == rows))
  }

  /** The conversion as a whole. */
  method Convert(running: bool, file: LogFormat.Stream, expected: Descriptor) returns (r: Result, csv: Option<seq<Sample>>)
    requires file.Readable()
    modifies file`position
    ensures running ==> r.verdict == Running && csv == None
    ensures !running && !LogFormat.Valid(expected) ==> r.verdict == InvalidArgument && csv == None
    ensures !running && LogFormat.Valid(expected) ==> Conversion(old(file.Rest()), expected, r, csv)
  {
    LogFormat.ValidateIsValid(expected);
    r, csv := EmptyResult(InvalidArgument), None;
    if running {
      r := EmptyResult(Running);
      return;
    }
    var status, _ := LogFormat.CheckDescriptor(expected);
    if status != LogFormat.Ok {
      return;
    }
    var actual;
    status, actual := LogFormat.ReadHeader(file);
    if status != LogFormat.Ok {
      r := EmptyResult(BadHeader);
      return;
    }
    var matches, field, output := DescriptorsMatch(actual.value, expected);
    if !matches {
      r := r.With(SchemaMismatch, field, output);
      return;
    }
    var rows;
    r, rows := ConvertRecords(file, actual.value);
    if r.verdict == Converted || r.verdict == Partial {
      csv := Some(rows);
    }
  }
}
