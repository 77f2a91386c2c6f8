/** From the producer's samples to the exported rows: the ring, the file and the converter together. */
module LoggedRun {
  import Arithmetic
  import opened Bytes
  import LogFormat
  import LogRecord
  import opened LoggerRing
  import opened LogConverter

  // ---- What the gap count counts ----

  ghost function Between(low: int, high: int): (r: set<int>)
    ensures forall k: int :: k in r <==> low < k < high
    decreases high - low
  {
    if high <= low + 1 then {} else Between(low, high - 1) + {high - 1}
  }

  lemma {:induction false} BetweenSize(low: int, high: int)
    requires low < high
    ensures |Between(low, high)| == high - low - 1
    decreases high - low
  {
    if low + 1 < high {
      BetweenSize(low, high - 1);
    }
  }

  ghost function Carried(samples: seq<LogRecord.Sample>): (r: set<int>)
    ensures forall i :: 0 <= i < |samples| ==> samples[i].sequence in r
  {
    if samples == [] then {} else Carried(samples[..|samples| - 1]) + {samples[|samples| - 1].sequence}
  }

  lemma {:induction false} CarriedSize(samples: seq<LogRecord.Sample>)
    requires samples != [] && Increasing(samples)
    ensures |Carried(samples)| == |samples|
    ensures Carried(samples) <= Between(samples[0].sequence - 1, samples[|samples| - 1].sequence + 1)
  {
    var n := |samples| - 1;
    if n == 0 {
      assert samples[..n] == [];
    } else {
      CarriedSize(samples[..n]);
    }
  }

  /** The sequence numbers from the first sample to the last that no sample carries. */
  ghost function Absent(samples: seq<LogRecord.Sample>): set<int>
    requires samples != []
  {
    Between(samples[0].sequence - 1, samples[|samples| - 1].sequence + 1) - Carried(samples)
  }

  lemma MissingAreAbsent(samples: seq<LogRecord.Sample>)
    requires samples != [] && Increasing(samples)
    ensures Missing(samples) == |Absent(samples)|
  {
    Apart(samples, 0, |samples| - 1);
    BetweenSize(samples[0].sequence - 1, samples[|samples| - 1].sequence + 1);
    CarriedSize(samples);
  }

  // ---- A run, its file, its rows ----

  /** The simulation numbers its samples 0, 1, 2 and so on. */
  ghost predicate Numbered(samples: seq<LogRecord.Sample>) {
    |samples| <= WORD64_MAX && forall i :: 0 <= i < |samples| ==> samples[i].sequence == i
  }

  lemma {:induction false} TotalLength(d: Descriptor, samples: seq<LogRecord.Sample>)
    requires LogFormat.Valid(d) && forall i :: 0 <= i < |samples| ==> LogRecord.Writable(d, samples[i])
    ensures |LogRecord.EncodeRecords(d, samples)| == |samples| * LogRecord.RecordLength(d)
  {
    hide LogRecord.Writable, LogRecord.EncodeRecord, LogRecord.RecordLength;
    if samples != [] {
      LogRecord.StreamLength(d, samples);
      TotalLength(d, samples[1..]);
    }
  }

  lemma {:induction false} SameSequences(d: Descriptor, samples: seq<LogRecord.Sample>, i: nat)
    requires |d.outputs| <= LogFormat.MAX_OUTPUTS && i < |samples|
    ensures LogRecord.Normals(d, samples)[i].sequence == samples[i].sequence
  {
    if i > 0 {
      SameSequences(d, samples[1..], i - 1);
    }
  }

  /** The samples that reach the file carry increasing numbers, and skip no more than were dropped at saturation. */
  lemma WrittenRise(slots: seq<LogRecord.Sample>, es: seq<Event<LogRecord.Sample>>, d: Descriptor, m: nat)
    requires |slots| > 0 && LogFormat.Valid(d)
    requires var s := Run(Start(slots), es); Numbered(s.offered) && m <= |s.written|
    ensures var s := Run(Start(slots), es); var rows := LogRecord.Normals(d, s.written[..m]);
      Increasing(rows) && |rows| <= WORD64_MAX && Missing(rows) <= s.drops
  {
    hide Run, LogRecord.Normals;
    var s := Run(Start(slots), es);
    var written := s.written[..m];
    var rows := LogRecord.Normals(d, written);
    PersistedIsOffered(slots, es);
    forall i | 0 <= i < m
      ensures rows[i].sequence == s.ranks[i]
    {
      SameSequences(d, written, i);
    }
    assert Increasing(rows);
    if m > 0 {
      Apart(rows, 0, m - 1);
      SkippedAreDropped(s.ranks[..|s.written|], s.ranks[|s.written| - 1] + 1, m - 1);
    }
  }

  /** Any cut of a run's file converts to the written samples wholly before the cut, in order, with their gaps counted. */
  lemma RunConverts(slots: seq<LogRecord.Sample>, es: seq<Event<LogRecord.Sample>>, d: Descriptor, cut: nat, r: Result, rows: seq<LogRecord.Sample>)
    requires |slots| > 0 && LogFormat.Valid(d)
    requires var s := Run(Start(slots), es);
      && Numbered(s.offered)
      && (forall i :: 0 <= i < |s.written| ==> LogRecord.Writable(d, s.written[i]))
      && cut <= |LogRecord.EncodeRecords(d, s.written)|
      && var (samples, end) := LogRecord.ReadAll(d, LogRecord.EncodeRecords(d, s.written)[..cut]);
        Reported(samples, end, r, rows)
    ensures var s := Run(Start(slots), es); var n := LogRecord.RecordLength(d);
      && 0 <= cut / n <= |s.written| && rows == LogRecord.Normals(d, s.written[..cut / n])
      && r.verdict == (if cut % n == 0 then Converted else Partial)
      && r.exported == |rows| && r.missing <= s.drops
      && (rows != [] ==> r.missing == |Absent(rows)|)
      && (cut == |LogRecord.EncodeRecords(d, s.written)| ==> r.verdict == Converted && r.exported == |s.written|)
  {
    hide Run, LogRecord.Normals, LogRecord.ReadAll, LogRecord.EncodeRecords, LogRecord.RecordLength, LogRecord.Writable;
    var s := Run(Start(slots), es);
    var n := LogRecord.RecordLength(d);
    var m := cut / n;
    LogRecord.CutStream(d, s.written, cut);
    WrittenRise(slots, es, d, m);
    var all := LogRecord.Normals(d, s.written[..m]);
    var whole := Result(if cut % n == 0 then Converted else Partial, NoField, None, m, m, Missing(all), cut % n != 0);
    ReportIsUnique(all, if cut % n == 0 then LogFormat.EndOfFile else LogFormat.Truncated, r, rows, whole, all);
    if rows != [] {
      MissingAreAbsent(rows);
    }
    TotalLength(d, s.written);
    if cut == |LogRecord.EncodeRecords(d, s.written)| {
      Arithmetic.ModUnique(cut, n, |s.written|, 0);
      DivideExact(|s.written|, n);
    }
  }

  /** The same from the file itself: header and records cut anywhere, through the whole conversion, to the published rows. */
  lemma FileConverts(slots: seq<LogRecord.Sample>, es: seq<Event<LogRecord.Sample>>, d: Descriptor, expected: Descriptor, cut: nat,
                     r: Result, csv: Option<seq<LogRecord.Sample>>)
    requires |slots| > 0 && LogFormat.Valid(d) && expected.sha == d.sha && expected.outputs == d.outputs
    requires var s := Run(Start(slots), es);
      && Numbered(s.offered)
      && (forall i :: 0 <= i < |s.written| ==> LogRecord.Writable(d, s.written[i]))
      && cut <= |LogRecord.EncodeRecords(d, s.written)|
      && Conversion(LogFormat.EncodeHeader(d, LogRecord.EncodeRecords(d, s.written)[..cut]), expected, r, csv)
    ensures var s := Run(Start(slots), es); var n := LogRecord.RecordLength(d);
      && 0 <= cut / n <= |s.written| && csv == Some(LogRecord.Normals(d, s.written[..cut / n]))
      && r.verdict == (if cut % n == 0 then Converted else Partial)
      && r.missing <= s.drops
      && (csv.value != [] ==> r.missing == |Absent(csv.value)|)
      && (cut == |LogRecord.EncodeRecords(d, s.written)| ==> r.verdict == Converted && r.exported == |s.written|)
  {
    hide Run, LogRecord.Normals, LogRecord.ReadAll, LogRecord.EncodeRecords, LogRecord.RecordLength, LogRecord.Writable;
    hide LogFormat.EncodeHeader, LogFormat.DecodeHeader, Reported, Numbered;
    var body := LogRecord.EncodeRecords(d, Run(Start(slots), es).written)[..cut];
    LogFormat.HeaderReadsBack(d, body);
    var (samples, end) := LogRecord.ReadAll(d, body);
    var rows :| Reported(samples, end, r, rows) && (csv.Some? ==> csv.value == rows);
    RunConverts(slots, es, d, cut, r, rows);
  }

  lemma DivideExact(q: nat, n: nat)
    requires n > 0
    ensures q * n / n == q
  {
    var k := q * n;
    assert k == k / n * n + k % n;
    Arithmetic.ModUnique(k, n, q, 0);
    assert (k / n - q) * n == 0;
    Arithmetic.Multiple(k / n - q, n);
  }
}
