/** The logger's sink: which calls it gets, in which order, over every run of producer and consumer. */
module LoggerSink {
  import opened LoggerRing

  // ---- The calls of the sink ----

  /** The stage of the first call of the sink that went wrong. */
  function FirstRefused(answers: seq<Answer>): Stage {
    if answers == [] then NoStage
    else
      var before, last := FirstRefused(answers[..|answers| - 1]), answers[|answers| - 1];
      if before.NoStage? && !last.ok then last.stage else before
  }

  function RecordsWritten(answers: seq<Answer>): nat {
    if answers == [] then 0
    else RecordsWritten(answers[..|answers| - 1]) + if answers[|answers| - 1] == Answer(Record, true) then 1 else 0
  }

  /** An opened sink is asked for the header, then for records as long as nothing went wrong. */
  ghost predicate IsBody(answers: seq<Answer>) {
    && |answers| >= 2 && answers[0] == Answer(Open, true) && answers[1].stage == Header
    && (forall i :: 2 <= i < |answers| ==> answers[i].stage == Record)
    && (forall i :: 0 <= i < |answers| - 1 ==> answers[i].ok)
  }

  /** An opened sink that is done with was asked to flush and then to close, once each, after everything else. */
  ghost predicate IsFinalized(answers: seq<Answer>) {
    var n := |answers|;
    n >= 4 && answers[n - 2].stage == Flush && answers[n - 1].stage == Close && IsBody(answers[..n - 2])
  }

  ghost predicate IsFlushed(answers: seq<Answer>) {
    var n := |answers|;
    n >= 3 && answers[n - 1].stage == Flush && IsBody(answers[..n - 1])
  }

  const NEVER_OPENED := [Answer(Open, false)]

  /** The calls the sink has had, stage by stage of the consumer's life. */
  ghost predicate CallsInv<T>(s: Logger<T>) {
    match s.consumer
    case Opening => s.answers == [] && !s.sinkOpen && s.usable
    case WritingHeader => s.answers == [Answer(Open, true)] && s.sinkOpen && s.usable
    case Flushing => s.sinkOpen && IsBody(s.answers)
    case Closing => s.sinkOpen && IsFlushed(s.answers)
    case Reporting => if s.sinkOpen then IsFinalized(s.answers) else s.answers == NEVER_OPENED
    case Finished => if s.sinkOpen then IsFinalized(s.answers) else s.answers == NEVER_OPENED
    case _ =>
      if s.sinkOpen then IsBody(s.answers) && (s.usable <==> s.answers[|s.answers| - 1].ok)
      else s.answers == NEVER_OPENED && !s.usable
  }

  ghost predicate SinkInv<T>(s: Logger<T>) {
    && CallsInv(s)
    && s.report.firstError == FirstRefused(s.answers)
    && |s.written| == RecordsWritten(s.answers)
  }

  // ---- What every step keeps ----

  lemma OneMoreAnswer(answers: seq<Answer>, a: Answer)
    ensures FirstRefused(answers + [a]) == if FirstRefused(answers).NoStage? && !a.ok then a.stage else FirstRefused(answers)
    ensures RecordsWritten(answers + [a]) == RecordsWritten(answers) + if a == Answer(Record, true) then 1 else 0
  {
    assert (answers + [a])[..|answers|] == answers;
  }

  lemma AnswersExtend(answers: seq<Answer>, a: Answer)
    ensures answers == [Answer(Open, true)] && a.stage == Header ==> IsBody(answers + [a])
    ensures IsBody(answers) && answers[|answers| - 1].ok && a.stage == Record ==> IsBody(answers + [a])
    ensures IsBody(answers) && a.stage == Flush ==> IsFlushed(answers + [a])
    ensures IsFlushed(answers) && a.stage == Close ==> IsFinalized(answers + [a])
  {
    var all := answers + [a];
    assert all[..|answers|] == answers;
    if IsFlushed(answers) {
      assert all[..|all| - 2] == answers[..|answers| - 1];
    }
  }

  /** The stage the sink is asked for now, if it is. */
  function StageOf<T>(s: Logger<T>): Stage {
    match s.consumer
    case Opening => Open
    case WritingHeader => Header
    case Handling(_) => if s.usable then Record else NoStage
    case Flushing => Flush
    case Closing => Close
    case _ => NoStage
  }

  lemma SinkKeepsCalls<T>(s: Logger<T>, ok: bool)
    requires CallsInv(s)
    ensures CallsInv(SinkStep(s, ok))
  {
    AnswersExtend(s.answers, Answer(StageOf(s), ok));
    hide IsBody, IsFlushed, IsFinalized;
  }

  lemma HandledRemembers<T>(s: Logger<T>, sample: T, ok: bool)
    ensures var t := Handled(s, sample, ok);
      && t.answers == (if s.usable then s.answers + [Answer(Record, ok)] else s.answers)
      && t.report.firstError == (if s.usable && !ok && s.report.firstError.NoStage? then Record else s.report.firstError)
      && |t.written| == |s.written| + (if s.usable && ok then 1 else 0)
      && t.consumer == LoadingHead(false)
  {
  }

  /** What a call of the sink leaves in the history, the report and the file. */
  lemma SinkRemembers<T>(s: Logger<T>, ok: bool)
    ensures var t, stage := SinkStep(s, ok), StageOf(s);
      && t.answers == (if stage.NoStage? then s.answers else s.answers + [Answer(stage, ok)])
      && t.report.firstError == (if !stage.NoStage? && !ok && s.report.firstError.NoStage? then stage else s.report.firstError)
      && |t.written| == |s.written| + (if stage.Record? && ok then 1 else 0)
  {
    hide Handled;
    if s.consumer.Handling? {
      HandledRemembers(s, s.consumer.sample, ok);
    }
  }

  lemma SinkKeepsSink<T>(s: Logger<T>, ok: bool)
    requires SinkInv(s)
    ensures SinkInv(SinkStep(s, ok))
  {
    hide CallsInv, FirstRefused, RecordsWritten, SinkStep, StageOf;
    SinkKeepsCalls(s, ok);
    SinkRemembers(s, ok);
    OneMoreAnswer(s.answers, Answer(StageOf(s), ok));
  }

  lemma ConsumerKeepsCalls<T>(s: Logger<T>, e: Event<T>)
    requires |s.slots| > 0 && CallsInv(s) && !e.SinkAnswers?
    ensures CallsInv(ConsumerStep(s, e))
  {
    hide SinkStep, IsBody, IsFlushed, IsFinalized;
  }

  lemma StepKeepsSink<T>(s: Logger<T>, e: Event<T>)
    requires |s.slots| > 0 && SinkInv(s)
    ensures SinkInv(Step(s, e))
  {
    hide CallsInv, FirstRefused, RecordsWritten, SinkStep;
    if IsProducerEvent(e) {
      ProducerKeepsCalls(s, e);
    } else if e.SinkAnswers? {
      SinkKeepsSink(s, e.ok);
    } else {
      ConsumerKeepsCalls(s, e);
    }
  }

  lemma ProducerKeepsCalls<T>(s: Logger<T>, e: Event<T>)
    requires |s.slots| > 0 && CallsInv(s)
    ensures CallsInv(ProducerStep(s, e))
  {
    hide ProducerStep, IsBody, IsFlushed, IsFinalized;
  }

  lemma {:induction false} RunKeepsSink<T>(s: Logger<T>, es: seq<Event<T>>)
    requires |s.slots| > 0 && SinkInv(s)
    ensures SinkInv(Run(s, es))
    decreases |es|
  {
    hide SinkInv, Step;
    if es != [] {
      StepKeepsSink(s, es[0]);
      RunKeepsSink(Step(s, es[0]), es[1..]);
    }
  }

  // ---- What holds in every run ----

  function CountStage(answers: seq<Answer>, stage: Stage): nat {
    if answers == [] then 0
    else CountStage(answers[..|answers| - 1], stage) + if answers[|answers| - 1].stage == stage then 1 else 0
  }

  lemma {:induction false} BodyNeverFinalizes(answers: seq<Answer>)
    requires forall i :: 0 <= i < |answers| ==> answers[i].stage != Flush && answers[i].stage != Close
    ensures CountStage(answers, Flush) == 0 && CountStage(answers, Close) == 0
  {
    if answers != [] {
      BodyNeverFinalizes(answers[..|answers| - 1]);
    }
  }

  lemma FinalizedOnce(answers: seq<Answer>)
    requires IsFinalized(answers)
    ensures CountStage(answers, Flush) == 1 && CountStage(answers, Close) == 1
  {
    var n := |answers|;
    BodyNeverFinalizes(answers[..n - 2]);
    assert answers[..n - 1][..n - 2] == answers[..n - 2];
    assert CountStage(answers[..n - 1], Flush) == 1 && CountStage(answers[..n - 1], Close) == 0;
  }

  lemma {:induction false} NoneRefused(answers: seq<Answer>)
    requires forall i :: 0 <= i < |answers| ==> !answers[i].stage.NoStage?
    ensures FirstRefused(answers).NoStage? <==> forall i :: 0 <= i < |answers| ==> answers[i].ok
  {
    if answers != [] {
      var n := |answers| - 1;
      NoneRefused(answers[..n]);
      assert forall i :: 0 <= i < n ==> answers[..n][i] == answers[i];
    }
  }

  /** The reported stage is that of the earliest call that went wrong. */
  lemma {:induction false} FirstRefusedIsFirst(answers: seq<Answer>, k: nat)
    requires forall i :: 0 <= i < |answers| ==> !answers[i].stage.NoStage?
    requires k < |answers| && !answers[k].ok && forall i :: 0 <= i < k ==> answers[i].ok
    ensures FirstRefused(answers) == answers[k].stage
  {
    var n := |answers| - 1;
    assert forall i :: 0 <= i < n ==> answers[..n][i] == answers[i];
    if k < n {
      FirstRefusedIsFirst(answers[..n], k);
    } else {
      NoneRefused(answers[..n]);
    }
  }

  lemma FinalizedStages(answers: seq<Answer>)
    requires IsFinalized(answers)
    ensures forall i :: 0 <= i < |answers| ==> !answers[i].stage.NoStage?
  {
    var body := answers[..|answers| - 2];
    assert forall i :: 0 <= i < |body| ==> answers[i] == body[i];
  }

  /**
   * When the consumer has finished, a sink that opened was asked to flush exactly once and then to close exactly once, last
   * of all; the report names the first call that went wrong, and counts the records that went well.
   */
  lemma SinkIsFinalized<T>(slots: seq<T>, es: seq<Event<T>>)
    requires |slots| > 0
    ensures var s := Run(Start(slots), es); var n := |s.answers|;
      s.consumer.Finished? ==>
        && n > 0 && s.answers[0].stage == Open
        && (s.answers[0].ok ==>
              && n >= 4 && s.answers[n - 2].stage == Flush && s.answers[n - 1].stage == Close
              && CountStage(s.answers, Flush) == 1 && CountStage(s.answers, Close) == 1)
        && (!s.answers[0].ok ==> n == 1)
        && (s.report.firstError.NoStage? <==> forall i :: 0 <= i < n ==> s.answers[i].ok)
        && (forall k :: 0 <= k < n && !s.answers[k].ok && (forall i :: 0 <= i < k ==> s.answers[i].ok) ==>
              s.report.firstError == s.answers[k].stage)
        && s.report.persisted == RecordsWritten(s.answers)
  {
    StartInv(slots);
    RunKeeps(Start(slots), es);
    RunKeepsSink(Start(slots), es);
    hide Run, RingInv, ProducerInv, RankInv, ConsumerInv, FirstRefused, RecordsWritten, CountStage;
    var s := Run(Start(slots), es);
    if s.consumer.Finished? {
      if s.sinkOpen {
        FinalizedOnce(s.answers);
        FinalizedStages(s.answers);
        assert s.answers[..|s.answers| - 2][0] == s.answers[0];
      }
      NoneRefused(s.answers);
      forall k | 0 <= k < |s.answers| && !s.answers[k].ok && (forall i :: 0 <= i < k ==> s.answers[i].ok)
        ensures s.report.firstError == s.answers[k].stage
      {
        FirstRefusedIsFirst(s.answers, k);
      }
    }
  }
}
