/** The logger is never stuck: every run can be finished, whatever the sink answers. */
module LoggerProgress {
  import opened LoggerRing
  import LoggerSink

  /** What the consumer does next, with fresh loads; `ok` gives the sink's answers by their number. */
  function NextOfConsumer<T>(s: Logger<T>, ok: nat -> bool): Event<T> {
    match s.consumer
    case LoadingHead(_) => LoadHead(|s.published|)
    case Copying(_, _) => CopySlot
    case Advancing(_, _, _) => StoreTail
    case CheckingDone => LoadDone(true)
    case Reporting => MakeReport
    case _ => SinkAnswers(ok(|s.answers|))
  }

  /** How far the consumer is from the end, once nothing more is published. */
  function Distance<T>(s: Logger<T>): nat {
    match s.consumer
    case Opening => 11
    case WritingHeader => 10
    case Handling(_) => 9
    case LoadingHead(last) => if last then 6 else 8
    case CheckingDone => 7
    case Copying(_, _) => 5
    case Advancing(_, _, _) => 4
    case Flushing => 3
    case Closing => 2
    case Reporting => 1
    case Finished => 0
  }

  lemma SinkAdvances<T>(s: Logger<T>, ok: bool)
    requires s.consumer.Opening? || s.consumer.WritingHeader? || s.consumer.Handling? || s.consumer.Flushing? || s.consumer.Closing?
    ensures Distance(SinkStep(s, ok)) < Distance(s)
  {
    hide Handled;
    if s.consumer.Handling? {
      LoggerSink.HandledRemembers(s, s.consumer.sample, ok);
    }
  }

  lemma ConsumerAdvances<T>(s: Logger<T>, ok: nat -> bool)
    requires |s.slots| > 0 && s.done && !s.consumer.Finished? && s.seenHead <= |s.published|
    requires s.consumer.Copying? ==> s.consumer.slot < |s.slots|
    ensures var t := ConsumerStep(s, NextOfConsumer(s, ok));
      t.taken == s.taken + 1 || (t.taken == s.taken && Distance(t) < Distance(s))
  {
    hide SinkStep;
    if NextOfConsumer(s, ok).SinkAnswers? {
      SinkAdvances(s, ok(|s.answers|));
    }
  }

  /** What the invariant says about the places a run stands in. */
  lemma Standing<T>(s: Logger<T>)
    requires Inv(s) && |s.slots| > 0
    ensures s.seenTail <= s.taken <= s.seenHead <= |s.published|
    ensures s.consumer.Copying? ==> s.consumer.slot < |s.slots|
    ensures s.producer.Writing? ==> s.producer.slot < |s.slots|
    ensures s.producer.Storing? ==> s.offered != []
  {
    hide RankInv, ReportInv;
  }

  lemma ConsumerProgresses<T>(s: Logger<T>, ok: nat -> bool)
    requires Inv(s) && |s.slots| > 0 && s.done && !s.consumer.Finished?
    ensures var t := Step(s, NextOfConsumer(s, ok));
      && Inv(t) && t.done && |t.published| == |s.published|
      && (t.taken == s.taken + 1 || (t.taken == s.taken && Distance(t) < Distance(s)))
  {
    hide Inv, ConsumerStep, ProducerStep, Distance;
    Standing(s);
    StepKeeps(s, NextOfConsumer(s, ok));
    ConsumerAdvances(s, ok);
  }

  /** Once the log is closed, the consumer finishes, whatever the sink answers. */
  lemma {:induction false} ConsumerFinishes<T>(s: Logger<T>, ok: nat -> bool) returns (es: seq<Event<T>>)
    requires Inv(s) && |s.slots| > 0 && s.done
    ensures Run(s, es).consumer.Finished?
    decreases |s.published| - s.taken, Distance(s)
  {
    if s.consumer.Finished? {
      es := [];
    } else {
      ConsumerProgresses(s, ok);
      var t := Step(s, NextOfConsumer(s, ok));
      assert t.taken <= |t.published|;
      hide Inv, Step, Distance;
      es := ConsumerFinishes(t, ok);
      es := [NextOfConsumer(s, ok)] + es;
    }
  }

  function NextOfProducer<T>(s: Logger<T>): Event<T> {
    match s.producer
    case Idle => ProducerDone
    case Checked(_) => LoadTail(s.taken)
    case Writing(_, _) => WriteSlot
    case Storing(_, _) => StoreHead
    case Counting => CountAccepted
  }

  function StepsToIdle<T>(s: Logger<T>): nat {
    match s.producer
    case Idle => if s.done then 0 else 1
    case Counting => 2
    case Storing(_, _) => 3
    case Writing(_, _) => 4
    case Checked(_) => 5
  }

  lemma ProducerAdvances<T>(s: Logger<T>)
    requires |s.slots| > 0 && !s.done && s.seenTail <= s.taken
    requires (s.producer.Writing? ==> s.producer.slot < |s.slots|) && (s.producer.Storing? ==> s.offered != [])
    ensures var t := ProducerStep(s, NextOfProducer(s)); t.done || StepsToIdle(t) < StepsToIdle(s)
  {
  }

  lemma ProducerProgresses<T>(s: Logger<T>)
    requires Inv(s) && |s.slots| > 0 && !s.done
    ensures var t := Step(s, NextOfProducer(s)); Inv(t) && (t.done || StepsToIdle(t) < StepsToIdle(s))
  {
    hide Inv, ConsumerStep, ProducerStep, StepsToIdle;
    Standing(s);
    StepKeeps(s, NextOfProducer(s));
    ProducerAdvances(s);
  }

  lemma {:induction false} ProducerFinishes<T>(s: Logger<T>) returns (es: seq<Event<T>>)
    requires Inv(s) && |s.slots| > 0
    ensures Inv(Run(s, es)) && Run(s, es).done
    decreases StepsToIdle(s)
  {
    hide Inv, Step, StepsToIdle;
    if s.done {
      es := [];
    } else {
      ProducerProgresses(s);
      var t := Step(s, NextOfProducer(s));
      if t.done {
        es := [NextOfProducer(s)];
        assert Run(t, []) == t;
      } else {
        es := ProducerFinishes(t);
        es := [NextOfProducer(s)] + es;
      }
    }
  }

  lemma {:induction false} RunsJoin<T>(s: Logger<T>, a: seq<Event<T>>, b: seq<Event<T>>)
    requires |s.slots| > 0
    ensures Run(s, a + b) == Run(Run(s, a), b)
    decreases |a|
  {
    hide Step;
    if a == [] {
      assert a + b == b;
    } else {
      assert (a + b)[1..] == a[1..] + b;
      RunsJoin(Step(s, a[0]), a[1..], b);
    }
  }

  /** No run is stuck: from wherever it stands, the producer can close the log and the consumer can finish. */
  lemma EveryRunCanFinish<T>(slots: seq<T>, es: seq<Event<T>>, ok: nat -> bool) returns (more: seq<Event<T>>)
    requires |slots| > 0
    ensures Run(Start(slots), es + more).consumer.Finished?
  {
    hide Inv, Step;
    StartInv(slots);
    RunKeeps(Start(slots), es);
    var s := Run(Start(slots), es);
    var a := ProducerFinishes(s);
    var b := ConsumerFinishes(Run(s, a), ok);
    more := a + b;
    RunsJoin(Start(slots), es, more);
    RunsJoin(s, a, b);
  }
}
