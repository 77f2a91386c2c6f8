/**
 * The binary logger: a lock-free ring between one producer and one consumer, and the consumer's life from opening the
 * sink to the final report. A run interleaves the atomic loads and stores of the two threads; a load of the other
 * thread's index may return any value between the last one seen and the current one.
 */
module LoggerRing {
  import opened Arithmetic
  import opened Bytes

  // ---- The two threads ----

  /** Where the producer stands inside a publish. */
  datatype Producer<T> =
    | Idle
    | Checked(sample: T)             // the log is still open; both indices are to be loaded
    | Writing(sample: T, slot: nat)  // there is room; the slot is to be written
    | Storing(sample: T, slot: nat)  // the slot is written; the head is to be stored
    | Counting                       // the head is stored; the counter is to be raised

  /** Where the consumer stands. `last` marks the pop that follows a load of the done flag. */
  datatype Consumer<T> =
    | Opening
    | WritingHeader
    | LoadingHead(last: bool)
    | Copying(last: bool, slot: nat)
    | Advancing(last: bool, slot: nat, sample: T)
    | Handling(sample: T)
    | CheckingDone
    | Flushing
    | Closing
    | Reporting
    | Finished

  datatype Stage = NoStage | Open | Header | Record | Flush | Close

  datatype Report<T> = Report(
    accepted: nat, persisted: nat, discarded: nat, lastPersisted: Option<T>, incomplete: bool, firstError: Stage)

  /** A call of the sink and whether it went well. */
  datatype Answer = Answer(stage: Stage, ok: bool)

  datatype Logger<T> = Logger(
    slots: seq<T>, head: nat, tail: nat, done: bool, accepted: nat, drops: nat,
    producer: Producer<T>, consumer: Consumer<T>, sinkOpen: bool, usable: bool, report: Report<T>,
    // history, for the specification
    offered: seq<T>, published: seq<T>, ranks: seq<nat>, taken: nat, written: seq<T>, answers: seq<Answer>,
    seenTail: nat, seenHead: nat)

  function Start<T>(slots: seq<T>): Logger<T> {
    Logger(slots, 0, 0, false, 0, 0, Idle, Opening, false, true, Report(0, 0, 0, None, false, NoStage),
           [], [], [], 0, [], [], 0, 0)
  }

  datatype Event<T> =
    | Publish(sample: T)
    | LoadTail(view: nat)
    | WriteSlot
    | StoreHead
    | CountAccepted
    | ProducerDone
    | SinkAnswers(ok: bool)       // open, header, record, flush or close, whichever the consumer waits for
    | LoadHead(view: nat)
    | CopySlot
    | StoreTail
    | LoadDone(flag: bool)
    | MakeReport

  function RememberError<T>(r: Report<T>, stage: Stage): Report<T> {
    if r.firstError.NoStage? then r.(incomplete := true, firstError := stage) else r
  }

  function ProducerStep<T>(s: Logger<T>, e: Event<T>): (t: Logger<T>)
    requires |s.slots| > 0
    ensures |t.slots| == |s.slots|
    ensures t.tail == s.tail && t.taken == s.taken && t.seenHead == s.seenHead && t.written == s.written && t.answers == s.answers
    ensures t.consumer == s.consumer && t.sinkOpen == s.sinkOpen && t.usable == s.usable && t.report == s.report
    ensures s.published <= t.published && s.offered <= t.offered && (s.done ==> t.done)
    ensures s.producer.Idle? ==> t.drops == s.drops && t.accepted == s.accepted && t.published == s.published
  {
    var n := |s.slots|;
    match e
    case Publish(sample) =>
      if s.producer.Idle? && !s.done then s.(producer := Checked(sample), offered := s.offered + [sample]) else s
    case LoadTail(view) =>
      if s.producer.Checked? && s.seenTail <= view <= s.taken then
        if (s.head + 1) % n == view % n then s.(producer := Idle, drops := s.drops + 1, seenTail := view)
        else s.(producer := Writing(s.producer.sample, s.head), seenTail := view)
      else s
    case WriteSlot =>
      if s.producer.Writing? && s.producer.slot < n then
        s.(slots := s.slots[s.producer.slot := s.producer.sample], producer := Storing(s.producer.sample, s.producer.slot))
      else s
    case StoreHead =>
      if s.producer.Storing? && s.offered != [] then
        s.(head := (s.producer.slot + 1) % n, producer := Counting,
           published := s.published + [s.producer.sample], ranks := s.ranks + [|s.offered| - 1])
      else s
    case CountAccepted => if s.producer.Counting? then s.(accepted := s.accepted + 1, producer := Idle) else s
    case ProducerDone => if s.producer.Idle? then s.(done := true) else s
    case _ => s
  }

  /** The fields the consumer never writes. */
  function OfProducer<T>(s: Logger<T>): (seq<T>, nat, bool, nat, nat, Producer<T>, seq<T>, seq<T>, seq<nat>, nat) {
    (s.slots, s.head, s.done, s.accepted, s.drops, s.producer, s.offered, s.published, s.ranks, s.seenTail)
  }

  /** The consumer after it has popped a sample and the sink, if usable, has answered. */
  function Handled<T>(s: Logger<T>, sample: T, ok: bool): (t: Logger<T>)
    ensures OfProducer(t) == OfProducer(s) && t.taken == s.taken && t.tail == s.tail && t.seenHead == s.seenHead
  {
    var next := s.(consumer := LoadingHead(false));
    if !s.usable then next.(report := s.report.(discarded := s.report.discarded + 1))
    else
      var asked := Asked(next, Record, ok);
      if !ok then
        var r := RememberError(s.report, Record);
        asked.(usable := false, report := r.(discarded := r.discarded + 1))
      else
        asked.(report := s.report.(persisted := s.report.persisted + 1, lastPersisted := Some(sample)), written := s.written + [sample])
  }

  /** A call of the sink goes into the history. */
  function Asked<T>(s: Logger<T>, stage: Stage, ok: bool): Logger<T> {
    s.(answers := s.answers + [Answer(stage, ok)])
  }

  function SinkStep<T>(s: Logger<T>, ok: bool): (t: Logger<T>)
    ensures OfProducer(t) == OfProducer(s) && t.taken == s.taken && t.tail == s.tail && t.seenHead == s.seenHead
  {
    match s.consumer
    case Opening =>
      var asked := Asked(s, Open, ok);
      if ok then asked.(consumer := WritingHeader, sinkOpen := true)
      else asked.(consumer := LoadingHead(false), usable := false, report := RememberError(s.report, Open))
    case WritingHeader =>
      var asked := Asked(s, Header, ok);
      if ok then asked.(consumer := LoadingHead(false))
      else asked.(consumer := LoadingHead(false), usable := false, report := RememberError(s.report, Header))
    case Handling(sample) => Handled(s, sample, ok)
    case Flushing => Asked(s, Flush, ok).(consumer := Closing, report := if ok then s.report else RememberError(s.report, Flush))
    case Closing => Asked(s, Close, ok).(consumer := Reporting, report := if ok then s.report else RememberError(s.report, Close))
    case _ => s
  }

  function ConsumerStep<T>(s: Logger<T>, e: Event<T>): (t: Logger<T>)
    requires |s.slots| > 0
    ensures OfProducer(t) == OfProducer(s)
    ensures t.taken == s.taken || (t.taken == s.taken + 1 && e.StoreTail?)
  {
    var n := |s.slots|;
    match e
    case SinkAnswers(ok) => SinkStep(s, ok)
    case LoadHead(view) =>
      if s.consumer.LoadingHead? && s.seenHead <= view <= |s.published| then
        var seen := s.(seenHead := view);
        if s.tail != view % n then seen.(consumer := Copying(s.consumer.last, s.tail))
        else if !s.consumer.last then seen.(consumer := CheckingDone)
        else seen.(consumer := if s.sinkOpen then Flushing else Reporting)
      else s
    case CopySlot =>
      if s.consumer.Copying? && s.consumer.slot < n then
        s.(consumer := Advancing(s.consumer.last, s.consumer.slot, s.slots[s.consumer.slot]))
      else s
    case StoreTail =>
      if s.consumer.Advancing? then
        s.(tail := (s.consumer.slot + 1) % n, taken := s.taken + 1, consumer := Handling(s.consumer.sample))
      else s
    case LoadDone(flag) =>
      if s.consumer.CheckingDone? then
        if flag && s.done then s.(consumer := LoadingHead(true), seenHead := |s.published|)
        else s.(consumer := LoadingHead(false))
      else s
    case MakeReport =>
      if s.consumer.Reporting? then
        var discarded := s.report.discarded + s.drops;
        s.(consumer := Finished, report := s.report.(
          accepted := s.accepted, discarded := discarded, incomplete := s.report.incomplete || discarded != 0))
      else s
    case _ => s
  }

  predicate IsProducerEvent<T>(e: Event<T>) {
    e.Publish? || e.LoadTail? || e.WriteSlot? || e.StoreHead? || e.CountAccepted? || e.ProducerDone?
  }

  function Step<T>(s: Logger<T>, e: Event<T>): (t: Logger<T>)
    requires |s.slots| > 0
    ensures |t.slots| == |s.slots|
  {
    if IsProducerEvent(e) then ProducerStep(s, e) else ConsumerStep(s, e)
  }

  function Run<T>(s: Logger<T>, es: seq<Event<T>>): (end: Logger<T>)
    requires |s.slots| > 0
    ensures |end.slots| == |s.slots|
    decreases |es|
  {
    if es == [] then s else Run(Step(s, es[0]), es[1..])
  }

  // ---- What every step keeps ----

  function Pending<T>(s: Logger<T>): nat {
    if s.producer.Checked? || s.producer.Writing? || s.producer.Storing? then 1 else 0
  }

  /** Unread slots hold the published samples, and the indices stand where the counts say. */
  ghost predicate RingInv<T>(s: Logger<T>) {
    var n := |s.slots|;
    && n > 0
    && s.head == |s.published| % n && s.tail == s.taken % n
    && s.seenTail <= s.taken <= s.seenHead <= |s.published| < s.seenTail + n
    && (forall i :: s.taken <= i < |s.published| ==> s.slots[i % n] == s.published[i])
  }

  ghost predicate ProducerInv<T>(s: Logger<T>) {
    var n := |s.slots|;
    && n > 0
    && (s.producer.Writing? || s.producer.Storing? ==>
          s.producer.slot == |s.published| % n && |s.published| + 1 < s.seenTail + n)
    && (s.producer.Storing? ==> s.slots[s.producer.slot] == s.producer.sample)
    && (s.done ==> s.producer.Idle?)
    && (Pending(s) == 1 ==> s.offered != [] && s.producer.sample == s.offered[|s.offered| - 1])
    && |s.published| == s.accepted + (if s.producer.Counting? then 1 else 0)
    && |s.offered| == |s.published| + s.drops + Pending(s)
  }

  /** The published samples are some of the offered ones, in order. */
  ghost predicate RankInv<T>(s: Logger<T>) {
    && |s.ranks| == |s.published|
    && (forall i :: 0 <= i < |s.ranks| ==> s.ranks[i] < |s.offered| - Pending(s) && s.published[i] == s.offered[s.ranks[i]])
    && (forall i, j :: 0 <= i < j < |s.ranks| ==> s.ranks[i] < s.ranks[j])
  }

  /** The consumer's last pop happens after the log is closed, and it sees every published sample. */
  ghost predicate ConsumerInv<T>(s: Logger<T>) {
    var n := |s.slots|;
    && n > 0
    && (s.consumer.Copying? || s.consumer.Advancing? ==> s.consumer.slot == s.taken % n && s.taken < s.seenHead)
    && (s.consumer.Advancing? && s.taken < |s.published| ==> s.consumer.sample == s.published[s.taken])
    && (s.consumer.Handling? ==> 0 < s.taken <= |s.published| && s.consumer.sample == s.published[s.taken - 1])
    && (s.consumer.LoadingHead? || s.consumer.Copying? || s.consumer.Advancing? ==>
          (s.consumer.last ==> s.done && s.seenHead == |s.published|))
    && (s.consumer.Flushing? || s.consumer.Closing? || s.consumer.Reporting? || s.consumer.Finished? ==>
          s.done && s.taken == |s.published|)
    && (s.consumer.Opening? || s.consumer.WritingHeader? ==> s.usable)
  }

  /** Samples taken and dealt with. */
  function Dealt<T>(s: Logger<T>): int { s.taken - (if s.consumer.Handling? then 1 else 0) }

  /** Persisted samples are a prefix of the published ones, all of them while the sink is usable. */
  ghost predicate ReportInv<T>(s: Logger<T>) {
    var r := s.report;
    && r.persisted == |s.written| <= |s.published|
    && s.written == s.published[..|s.written|]
    && r.lastPersisted == (if s.written == [] then None else Some(s.written[|s.written| - 1]))
    && (s.usable ==> |s.written| == Dealt(s) && (r.firstError.NoStage? || s.consumer.Closing? || s.consumer.Reporting? || s.consumer.Finished?))
    && (!s.usable ==> !r.firstError.NoStage?)
    && r.persisted + r.discarded == Dealt(s) + (if s.consumer.Finished? then s.drops else 0)
    && (s.consumer.Finished? ==> r.accepted == s.accepted)
    && (r.incomplete <==> !r.firstError.NoStage? || (s.consumer.Finished? && r.discarded != 0))
  }

  ghost predicate Inv<T>(s: Logger<T>) {
    RingInv(s) && ProducerInv(s) && RankInv(s) && ConsumerInv(s) && ReportInv(s)
  }

  lemma StartInv<T>(slots: seq<T>)
    requires |slots| > 0
    ensures Inv(Start(slots))
  {
  }

  lemma ProducerKeepsRing<T>(s: Logger<T>, e: Event<T>)
    requires RingInv(s) && ProducerInv(s)
    ensures RingInv(ProducerStep(s, e))
  {
    var n := |s.slots|;
    if e.WriteSlot? && s.producer.Writing? {
      forall i | s.taken <= i < |s.published|
        ensures i % n != s.producer.slot
      {
        ModDistinct(i, |s.published|, n);
      }
    } else if e.StoreHead? && s.producer.Storing? {
      ModNext(|s.published|, n);
    }
  }

  lemma ProducerKeepsProducer<T>(s: Logger<T>, e: Event<T>)
    requires RingInv(s) && ProducerInv(s)
    ensures ProducerInv(ProducerStep(s, e))
  {
    if e.LoadTail? && s.producer.Checked? && s.seenTail <= e.view <= s.taken {
      var n := |s.slots|;
      ModNext(|s.published|, n);
      if |s.published| + 1 == e.view + n {
        ModWraps(e.view, n);
      }
    }
  }

  lemma RanksGrow<T>(s: Logger<T>, t: Logger<T>)
    requires RankInv(s) && s.offered <= t.offered && |s.offered| - Pending(s) <= |t.offered| - Pending(t)
    requires t.published == s.published && t.ranks == s.ranks
    ensures RankInv(t)
  {
  }

  lemma StoreHeadRanks<T>(s: Logger<T>, t: Logger<T>)
    requires RankInv(s) && t.offered == s.offered != [] && Pending(s) == 1 && Pending(t) == 0
    requires t.published == s.published + [s.offered[|s.offered| - 1]] && t.ranks == s.ranks + [|s.offered| - 1]
    ensures RankInv(t)
  {
  }

  lemma ProducerKeepsRanks<T>(s: Logger<T>, e: Event<T>)
    requires ProducerInv(s) && RankInv(s)
    ensures RankInv(ProducerStep(s, e))
  {
    var t := ProducerStep(s, e);
    hide RankInv;
    if e.StoreHead? && s.producer.Storing? {
      StoreHeadRanks(s, t);
    } else {
      RanksGrow(s, t);
    }
  }

  lemma ProducerKeepsConsumer<T>(s: Logger<T>, e: Event<T>)
    requires RingInv(s) && ProducerInv(s) && ConsumerInv(s)
    ensures ConsumerInv(ProducerStep(s, e))
  {
    assert s.taken <= |s.published| && (s.done ==> s.producer.Idle?) && |s.slots| > 0;
    hide RingInv, ProducerInv, ProducerStep;
  }

  lemma ProducerKeepsReport<T>(s: Logger<T>, e: Event<T>)
    requires RingInv(s) && ProducerInv(s) && ConsumerInv(s) && ReportInv(s)
    ensures ReportInv(ProducerStep(s, e))
  {
    assert s.taken <= |s.published| && (s.done ==> s.producer.Idle?);
    hide RingInv, ProducerInv, ProducerStep;
    var t := ProducerStep(s, e);
    assert t.published[..|s.published|] == s.published;
    assert t.published[..|s.written|] == s.published[..|s.written|];
  }

  lemma ConsumerKeepsRing<T>(s: Logger<T>, e: Event<T>)
    requires RingInv(s) && ConsumerInv(s)
    ensures RingInv(ConsumerStep(s, e))
  {
    hide SinkStep;
    if e.StoreTail? && s.consumer.Advancing? {
      ModNext(s.taken, |s.slots|);
    }
  }

  lemma ConsumerKeepsProducer<T>(s: Logger<T>, e: Event<T>)
    requires ProducerInv(s) && RankInv(s)
    ensures ProducerInv(ConsumerStep(s, e)) && RankInv(ConsumerStep(s, e))
  {
    assert |s.slots| > 0;
    hide ConsumerStep;
  }

  lemma SinkKeepsConsumer<T>(s: Logger<T>, ok: bool)
    requires ConsumerInv(s)
    ensures ConsumerInv(SinkStep(s, ok))
  {
  }

  lemma ConsumerKeepsConsumer<T>(s: Logger<T>, e: Event<T>)
    requires RingInv(s) && ConsumerInv(s)
    ensures ConsumerInv(ConsumerStep(s, e))
  {
    hide SinkStep;
    if e.SinkAnswers? {
      SinkKeepsConsumer(s, e.ok);
    } else if e.LoadHead? && s.consumer.LoadingHead? && s.seenHead <= e.view <= |s.published| && s.taken < e.view {
      ModDistinct(s.taken, e.view, |s.slots|);
    }
  }

  lemma HandledKeepsReport<T>(s: Logger<T>, sample: T, ok: bool)
    requires s.taken <= |s.published| && ConsumerInv(s) && ReportInv(s) && s.consumer == Handling(sample)
    ensures ReportInv(Handled(s, sample, ok))
  {
    if s.usable && ok {
      assert s.published[..s.taken] == s.published[..s.taken - 1] + [s.consumer.sample];
    }
  }

  lemma SinkKeepsReport<T>(s: Logger<T>, ok: bool)
    requires s.taken <= |s.published| && ConsumerInv(s) && ReportInv(s)
    ensures ReportInv(SinkStep(s, ok))
  {
    hide Handled;
    if s.consumer.Handling? {
      HandledKeepsReport(s, s.consumer.sample, ok);
    }
  }

  lemma ReportingKeepsReport<T>(s: Logger<T>)
    requires |s.slots| > 0 && ReportInv(s)
    ensures ReportInv(ConsumerStep(s, MakeReport))
  {
  }

  /** Popping and polling leave the report and the file alone, and end no life but through the flush or the report. */
  lemma PoppingLeavesReport<T>(s: Logger<T>, e: Event<T>)
    requires |s.slots| > 0 && (e.LoadHead? || e.CopySlot? || e.StoreTail? || e.LoadDone?)
    ensures var t := ConsumerStep(s, e);
      && t.report == s.report && t.written == s.written && t.usable == s.usable && t.published == s.published
      && Dealt(t) == Dealt(s)
      && (t.consumer.Closing? <==> s.consumer.Closing?) && (t.consumer.Finished? <==> s.consumer.Finished?)
      && (s.consumer.Reporting? ==> t.consumer.Reporting?)
  {
    hide SinkStep;
  }

  lemma PoppingKeepsReport<T>(s: Logger<T>, e: Event<T>)
    requires s.taken <= |s.published| && ConsumerInv(s) && ReportInv(s)
    requires e.LoadHead? || e.CopySlot? || e.StoreTail? || e.LoadDone?
    ensures ReportInv(ConsumerStep(s, e))
  {
    assert |s.slots| > 0;
    PoppingLeavesReport(s, e);
    hide ConsumerStep, ConsumerInv, Dealt;
  }

  lemma ConsumerKeepsReport<T>(s: Logger<T>, e: Event<T>)
    requires !IsProducerEvent(e) && RingInv(s) && ConsumerInv(s) && ReportInv(s)
    ensures ReportInv(ConsumerStep(s, e))
  {
    assert s.taken <= |s.published| && |s.slots| > 0;
    match e
    case SinkAnswers(ok) => SinkKeepsReport(s, ok);
    case MakeReport => ReportingKeepsReport(s);
    case _ => PoppingKeepsReport(s, e);
  }

  lemma StepKeeps<T>(s: Logger<T>, e: Event<T>)
    requires Inv(s)
    ensures |s.slots| > 0 && Inv(Step(s, e))
  {
    assert |s.slots| > 0;
    hide RingInv, ProducerInv, RankInv, ConsumerInv, ReportInv, ProducerStep, ConsumerStep;
    if IsProducerEvent(e) {
      ProducerKeepsRing(s, e);
      ProducerKeepsProducer(s, e);
      ProducerKeepsRanks(s, e);
      ProducerKeepsConsumer(s, e);
      ProducerKeepsReport(s, e);
    } else {
      ConsumerKeepsRing(s, e);
      ConsumerKeepsProducer(s, e);
      ConsumerKeepsConsumer(s, e);
      ConsumerKeepsReport(s, e);
    }
  }

  lemma {:induction false} RunKeeps<T>(s: Logger<T>, es: seq<Event<T>>)
    requires Inv(s) && |s.slots| > 0
    ensures Inv(Run(s, es))
    decreases |es|
  {
    hide Inv, Step;
    if es != [] {
      StepKeeps(s, es[0]);
      RunKeeps(Step(s, es[0]), es[1..]);
    }
  }

  // ---- What holds in every run ----

  /** The slot being written is neither unread nor being read, and the slot being read holds the next sample in publish order. */
  lemma SlotsAreSafe<T>(slots: seq<T>, es: seq<Event<T>>)
    requires |slots| > 0
    ensures var s := Run(Start(slots), es);
      && (s.producer.Writing? ==> forall i :: s.taken <= i < |s.published| ==> i % |s.slots| != s.producer.slot)
      && (s.producer.Writing? && (s.consumer.Copying? || s.consumer.Advancing?) ==> s.consumer.slot != s.producer.slot)
      && (s.consumer.Copying? ==> s.taken < |s.published| && s.consumer.slot < |s.slots| && s.slots[s.consumer.slot] == s.published[s.taken])
      && (s.consumer.Handling? ==> 0 < s.taken <= |s.published| && s.consumer.sample == s.published[s.taken - 1])
  {
    StartInv(slots);
    RunKeeps(Start(slots), es);
    var s := Run(Start(slots), es);
    if s.producer.Writing? {
      forall i | s.taken <= i < |s.published|
        ensures i % |s.slots| != s.producer.slot
      {
        ModDistinct(i, |s.published|, |s.slots|);
      }
    }
  }

  /** A publish is refused exactly when the ring, as far as the producer can see, holds one sample less than it has slots. */
  lemma RefusedWhenFull<T>(slots: seq<T>, es: seq<Event<T>>, view: nat)
    requires |slots| > 0
    requires var s := Run(Start(slots), es); s.producer.Checked? && s.seenTail <= view <= s.taken
    ensures var s := Run(Start(slots), es);
      Step(s, LoadTail(view)).producer.Idle? <==> |s.published| - view == |s.slots| - 1
  {
    StartInv(slots);
    RunKeeps(Start(slots), es);
    var s := Run(Start(slots), es);
    var n := |s.slots|;
    ModNext(|s.published|, n);
    if |s.published| + 1 == view + n {
      ModWraps(view, n);
    } else {
      ModDistinct(view, |s.published| + 1, n);
    }
  }

  /** When the consumer has finished: everything accepted was popped, and the counters account for every offered sample. */
  lemma Join<T>(slots: seq<T>, es: seq<Event<T>>)
    requires |slots| > 0
    ensures var s := Run(Start(slots), es); var r := s.report;
      s.consumer.Finished? ==>
        && s.done && s.taken == |s.published| == r.accepted
        && r.persisted <= |s.published| && s.written == s.published[..r.persisted]
        && r.persisted + r.discarded == r.accepted + s.drops == |s.offered|
        && r.lastPersisted == (if r.persisted == 0 then None else Some(s.published[r.persisted - 1]))
        && (r.incomplete <==> !r.firstError.NoStage? || r.discarded != 0)
        && (!r.incomplete ==> s.written == s.offered)
  {
    StartInv(slots);
    RunKeeps(Start(slots), es);
    var s := Run(Start(slots), es);
    if s.consumer.Finished? && !s.report.incomplete {
      RanksAreAll(s.ranks, |s.offered|);
    }
  }

  /** Increasing positions that are as many as there are places leave none out. */
  lemma {:induction false} RanksAreAll(ranks: seq<nat>, n: nat)
    requires |ranks| == n && (forall i :: 0 <= i < n ==> ranks[i] < n)
    requires forall i, j :: 0 <= i < j < n ==> ranks[i] < ranks[j]
    ensures forall i :: 0 <= i < n ==> ranks[i] == i
  {
    forall i | 0 <= i < n
      ensures ranks[i] == i
    {
      RankAtLeast(ranks, i);
      RankAtMost(ranks, n, i);
    }
  }

  lemma {:induction false} RankAtLeast(ranks: seq<nat>, i: nat)
    requires i < |ranks| && forall i, j :: 0 <= i < j < |ranks| ==> ranks[i] < ranks[j]
    ensures ranks[i] >= i
  {
    if i > 0 {
      RankAtLeast(ranks, i - 1);
    }
  }

  lemma {:induction false} RankAtMost(ranks: seq<nat>, n: nat, i: nat)
    requires i < |ranks| == n && (forall i :: 0 <= i < n ==> ranks[i] < n)
    requires forall i, j :: 0 <= i < j < |ranks| ==> ranks[i] < ranks[j]
    ensures ranks[i] <= i
    decreases n - i
  {
    if i + 1 < n {
      RankAtMost(ranks, n, i + 1);
    }
  }

  /** Persisted samples are offered samples, in order: position by position, and never more skipped than were dropped. */
  lemma PersistedIsOffered<T>(slots: seq<T>, es: seq<Event<T>>)
    requires |slots| > 0
    ensures var s := Run(Start(slots), es);
      && |s.written| <= |s.ranks|
      && (forall i :: 0 <= i < |s.written| ==> s.ranks[i] < |s.offered| && s.written[i] == s.offered[s.ranks[i]])
      && (forall i, j :: 0 <= i < j < |s.written| ==> s.ranks[i] < s.ranks[j])
      && (s.written != [] ==> s.ranks[|s.written| - 1] + 1 - |s.written| <= s.drops)
  {
    StartInv(slots);
    RunKeeps(Start(slots), es);
    var s := Run(Start(slots), es);
    if s.written != [] {
      SkippedAreDropped(s.ranks, |s.offered| - Pending(s), |s.written| - 1);
    }
  }

  /** Positions skipped up to any rank are at most the positions skipped overall. */
  lemma {:induction false} SkippedAreDropped(ranks: seq<nat>, n: nat, k: nat)
    requires k < |ranks| && (forall i :: 0 <= i < |ranks| ==> ranks[i] < n)
    requires forall i, j :: 0 <= i < j < |ranks| ==> ranks[i] < ranks[j]
    ensures ranks[k] - k <= n - |ranks|
    decreases |ranks| - k
  {
    if k + 1 < |ranks| {
      SkippedAreDropped(ranks, n, k + 1);
    }
  }
}
