/** The feedback call and the results table (app.py:15-44, 125-155): for every accepted metric, in
    order, and every row, in order, the row's keyword arguments are built, the judging model is
    asked, its reply is read, and one result row is recorded. A reply that cannot be read raises,
    which ends the whole run (the `try` around the page catches it). */
module Evaluation {
  import opened Results
  import opened Lists
  import opened Text
  import opened MetricValidation
  import opened UserPrompt
  import opened ReplyParsing
  import opened RowParameters

  /** The judging model: the reason text it returns for a system prompt and a user prompt. */
  type Judge = (string, string) -> string

  /** Why a feedback call raised: `kwargs["system_prompt"]` was missing, or the reply could not be
      read. */
  datatype FeedbackError = MissingSystemPrompt | Unreadable(cause: ParseError)

  /** `prompt_with_conversation_relevence_feedback(**kwargs)`. */
  function Feedback(kwargs: map<string, string>, cot: string, judge: Judge): Result<Reply, FeedbackError> {
    if SystemPromptKey !in kwargs then Failure(MissingSystemPrompt)
    else
      var parsed := ParseReply(judge(kwargs[SystemPromptKey], UserPromptText(kwargs, cot)));
      if parsed.Failure? then Failure(Unreadable(parsed.error)) else Success(parsed.value)
  }

  /** The feedback method: assemble the user prompt, ask the model, read the reply. */
  method RelevanceFeedback(kwargs: map<string, string>, cot: string, judge: Judge)
    returns (outcome: Result<Reply, FeedbackError>)
    ensures outcome == Feedback(kwargs, cot, judge)
  {
    var userPrompt := AssembleUserPrompt(kwargs, cot);
    if SystemPromptKey !in kwargs {
      return Failure(MissingSystemPrompt);
    }
    var reason := judge(kwargs[SystemPromptKey], userPrompt);
    var parsed := ParseReply(reason);
    if parsed.Failure? {
      return Failure(Unreadable(parsed.error));
    }
    outcome := Success(parsed.value);
  }

  /** When the model answers with three labelled lines, the feedback is their three values. */
  lemma FeedbackOfWellFormedReply(kwargs: map<string, string>, cot: string, judge: Judge,
                                  names: seq<string>, criteria: string, evidence: string, score: string)
    requires SystemPromptKey in kwargs
    requires |names| == 3 && Plain(names[0]) && Plain(names[1]) && Plain(names[2])
    requires Plain(criteria) && Plain(evidence) && Plain(score)
    requires judge(kwargs[SystemPromptKey], UserPromptText(kwargs, cot)) ==
               ReplyLine(names[0], criteria) + LineBreak + ReplyLine(names[1], evidence) + LineBreak +
               ReplyLine(names[2], score)
    ensures Feedback(kwargs, cot, judge) == Success(Reply(score, criteria, evidence))
  {
    ParseReplyRoundTrip(names, criteria, evidence, score);
  }

  /** One line of the results table. */
  datatype ResultRow = ResultRow(metric: string, selectedColumns: string, score: string, criteria: string,
                                 supportingEvidence: string)

  /** `f"Metric {metric_index}"`. */
  function MetricLabel(metricIndex: nat): string {
    "Metric " + NatToString(metricIndex)
  }

  /** Different metrics get different labels. */
  lemma MetricLabelInjective(a: nat, b: nat)
    requires MetricLabel(a) == MetricLabel(b)
    ensures a == b
  {
    assert NatToString(a) == MetricLabel(a)[|"Metric "|..];
    assert NatToString(b) == MetricLabel(b)[|"Metric "|..];
    NatToStringInjective(a, b);
  }

  /** A row has every column the page requires (checked on upload). */
  predicate CompleteRow(row: Row) {
    forall column :: column in ColumnKey ==> column in row
  }

  /** One pass of the inner loop: a metric (with its 1-based index) on a row. */
  datatype Job = Job(metricIndex: nat, definition: MetricDefinition, row: Row)

  predicate CompleteJobs(jobs: seq<Job>) {
    forall i :: 0 <= i < |jobs| ==> CompleteRow(jobs[i].row)
  }

  /** The result row of one job, or the error that ends the run. */
  function RunJob(job: Job, cot: string, judge: Judge): Result<ResultRow, FeedbackError>
    requires CompleteRow(job.row)
  {
    var params := Params(job.definition.systemPrompt, job.definition.selectedColumns, job.row);
    var feedback := Feedback(params, cot, judge);
    if feedback.Failure? then Failure(feedback.error)
    else
      Success(ResultRow(MetricLabel(job.metricIndex), Join(job.definition.selectedColumns, ", "),
                        feedback.value.score, feedback.value.criteria, feedback.value.supportingEvidence))
  }

  /** A job never lacks the system prompt: the keyword arguments always hold it, so a job fails only
      on an unreadable reply. */
  lemma RunJobFailsOnlyOnReply(job: Job, cot: string, judge: Judge)
    requires CompleteRow(job.row)
    ensures RunJob(job, cot, judge).Failure? ==> RunJob(job, cot, judge).error.Unreadable?
  {
    ParamsValues(job.definition.systemPrompt, job.definition.selectedColumns, job.row);
  }

  /** The outcome of each job, in order. */
  function Outcomes(jobs: seq<Job>, cot: string, judge: Judge): (outcomes: seq<Result<ResultRow, FeedbackError>>)
    requires CompleteJobs(jobs)
    ensures |outcomes| == |jobs|
  {
    seq(|jobs|, i requires 0 <= i < |jobs| => RunJob(jobs[i], cot, judge))
  }

  /** The run over the outcomes: the rows in order, or the first error, which ends the run. */
  function Collect(outcomes: seq<Result<ResultRow, FeedbackError>>): Result<seq<ResultRow>, FeedbackError>
    decreases |outcomes|
  {
    if |outcomes| == 0 then Success([])
    else
      var earlier := Collect(outcomes[..|outcomes| - 1]);
      if earlier.Failure? then earlier
      else
        var last := outcomes[|outcomes| - 1];
        if last.Failure? then Failure(last.error) else Success(earlier.value + [last.value])
  }

  /** The run succeeds exactly when every job does, and then holds one result per job, in order. */
  lemma {:induction false} CollectSuccessIff(outcomes: seq<Result<ResultRow, FeedbackError>>)
    ensures Collect(outcomes).Success? <==> forall i :: 0 <= i < |outcomes| ==> outcomes[i].Success?
    ensures Collect(outcomes).Success? ==>
              |Collect(outcomes).value| == |outcomes| &&
              forall i :: 0 <= i < |outcomes| ==> Collect(outcomes).value[i] == outcomes[i].value
    decreases |outcomes|
  {
    if |outcomes| > 0 {
      var n := |outcomes| - 1;
      CollectSuccessIff(outcomes[..n]);
      assert forall i :: 0 <= i < n ==> outcomes[..n][i] == outcomes[i];
    }
  }

  /** A failed run reports the error of its first failing job. */
  lemma {:induction false} CollectFirstFailure(outcomes: seq<Result<ResultRow, FeedbackError>>) returns (k: nat)
    requires Collect(outcomes).Failure?
    ensures k < |outcomes| && outcomes[k].Failure? && Collect(outcomes).error == outcomes[k].error
    ensures forall i :: 0 <= i < k ==> outcomes[i].Success?
    decreases |outcomes|
  {
    var n := |outcomes| - 1;
    assert forall i :: 0 <= i < n ==> outcomes[..n][i] == outcomes[i];
    if Collect(outcomes[..n]).Failure? {
      k := CollectFirstFailure(outcomes[..n]);
    } else {
      CollectSuccessIff(outcomes[..n]);
      k := n;
    }
  }

  /** Once a run has failed, more jobs do not change its error. */
  lemma {:induction false} CollectFailureSticks(outcomes: seq<Result<ResultRow, FeedbackError>>,
                                                more: seq<Result<ResultRow, FeedbackError>>)
    requires Collect(outcomes).Failure?
    ensures Collect(outcomes + more) == Collect(outcomes)
    decreases |more|
  {
    if |more| > 0 {
      var shorter := more[..|more| - 1];
      assert (outcomes + more)[..|outcomes + more| - 1] == outcomes + shorter;
      CollectFailureSticks(outcomes, shorter);
    } else {
      assert outcomes + more == outcomes;
    }
  }

  /** The outcomes of two runs of jobs, one after the other. */
  lemma OutcomesAppend(jobs: seq<Job>, more: seq<Job>, cot: string, judge: Judge)
    requires CompleteJobs(jobs) && CompleteJobs(more)
    ensures CompleteJobs(jobs + more)
    ensures Outcomes(jobs + more, cot, judge) == Outcomes(jobs, cot, judge) + Outcomes(more, cot, judge)
  {
    var all := jobs + more;
    assert CompleteJobs(all) by {
      forall i | 0 <= i < |all| ensures CompleteRow(all[i].row) {
        if i >= |jobs| {
          assert all[i] == more[i - |jobs|];
        }
      }
    }
    var joined := Outcomes(jobs, cot, judge) + Outcomes(more, cot, judge);
    forall i | 0 <= i < |all| ensures Outcomes(all, cot, judge)[i] == joined[i] {
      if i >= |jobs| {
        assert all[i] == more[i - |jobs|];
      }
    }
  }

  /** The inner loop's jobs: metric `metricIndex` on every row. */
  function MetricJobs(metricIndex: nat, definition: MetricDefinition, rows: seq<Row>): seq<Job> {
    seq(|rows|, j requires 0 <= j < |rows| => Job(metricIndex, definition, rows[j]))
  }

  /** All jobs, metric by metric, each metric over all rows. */
  function Jobs(definitions: seq<MetricDefinition>, rows: seq<Row>): seq<Job>
    decreases |definitions|
  {
    if |definitions| == 0 then []
    else
      var n := |definitions| - 1;
      Jobs(definitions[..n], rows) + MetricJobs(n + 1, definitions[n], rows)
  }

  /** There is one job per metric and row. */
  lemma {:induction false} JobsLength(definitions: seq<MetricDefinition>, rows: seq<Row>)
    ensures |Jobs(definitions, rows)| == |definitions| * |rows|
    decreases |definitions|
  {
    if |definitions| > 0 {
      var n := |definitions| - 1;
      JobsLength(definitions[..n], rows);
      assert |definitions| * |rows| == n * |rows| + |rows|;
    }
  }

  /** Job `m * |rows| + j` is metric `m + 1` on row `j`: metrics in order, rows in order within
      each metric. */
  lemma {:induction false} JobAt(definitions: seq<MetricDefinition>, rows: seq<Row>, m: nat, j: nat)
    requires m < |definitions| && j < |rows|
    ensures m * |rows| + j < |Jobs(definitions, rows)|
    ensures Jobs(definitions, rows)[m * |rows| + j] == Job(m + 1, definitions[m], rows[j])
    decreases |definitions|
  {
    var n := |definitions| - 1;
    JobsLength(definitions[..n], rows);
    if m < n {
      JobAt(definitions[..n], rows, m, j);
      assert definitions[..n][m] == definitions[m];
    } else {
      assert m * |rows| == n * |rows|;
    }
  }

  /** Every job's row is complete when every row is. */
  lemma JobsComplete(definitions: seq<MetricDefinition>, rows: seq<Row>)
    requires forall row :: row in rows ==> CompleteRow(row)
    ensures CompleteJobs(Jobs(definitions, rows))
  {
    forall i | 0 <= i < |Jobs(definitions, rows)| ensures CompleteRow(Jobs(definitions, rows)[i].row) {
      JobRow(definitions, rows, i);
    }
  }

  lemma {:induction false} JobRow(definitions: seq<MetricDefinition>, rows: seq<Row>, i: nat)
    requires i < |Jobs(definitions, rows)|
    ensures Jobs(definitions, rows)[i].row in rows
    decreases |definitions|
  {
    var n := |definitions| - 1;
    var earlier := Jobs(definitions[..n], rows);
    if i < |earlier| {
      JobRow(definitions[..n], rows, i);
    }
  }

  /** Why the results could not be produced. */
  datatype GenerateError = NoMetrics | Aborted(cause: FeedbackError)

  /** The results table, or the error message shown instead. */
  function Generate(definitions: seq<MetricDefinition>, rows: seq<Row>, cot: string, judge: Judge)
    : Result<seq<ResultRow>, GenerateError>
    requires forall row :: row in rows ==> CompleteRow(row)
  {
    if |definitions| == 0 then Failure(NoMetrics)
    else
      JobsComplete(definitions, rows);
      var run := Collect(Outcomes(Jobs(definitions, rows), cot, judge));
      if run.Failure? then Failure(Aborted(run.error)) else Success(run.value)
  }

  /** The jobs of the first `n` metrics come first. */
  lemma {:induction false} JobsPrefix(definitions: seq<MetricDefinition>, rows: seq<Row>, n: nat)
    returns (rest: seq<Job>)
    requires n <= |definitions|
    ensures Jobs(definitions, rows) == Jobs(definitions[..n], rows) + rest
    decreases |definitions| - n
  {
    if n == |definitions| {
      assert definitions[..n] == definitions;
      rest := [];
    } else {
      var more := JobsPrefix(definitions, rows, n + 1);
      assert definitions[..n + 1][..n] == definitions[..n];
      rest := MetricJobs(n + 1, definitions[n], rows) + more;
    }
  }

  /** Running one job more adds its outcome at the end. */
  lemma OutcomesSnoc(jobs: seq<Job>, job: Job, cot: string, judge: Judge)
    requires CompleteJobs(jobs) && CompleteRow(job.row)
    ensures CompleteJobs(jobs + [job])
    ensures Outcomes(jobs + [job], cot, judge) == Outcomes(jobs, cot, judge) + [RunJob(job, cot, judge)]
  {
    assert forall i :: 0 <= i < |jobs| ==> (jobs + [job])[i] == jobs[i];
  }

  /** The inner loop's state after `j` rows of metric `m + 1`. */
  function JobsSoFar(definitions: seq<MetricDefinition>, rows: seq<Row>, m: nat, j: nat): seq<Job>
    requires m < |definitions| && j <= |rows|
  {
    Jobs(definitions[..m], rows) + MetricJobs(m + 1, definitions[m], rows)[..j]
  }

  lemma JobsSoFarComplete(definitions: seq<MetricDefinition>, rows: seq<Row>, m: nat, j: nat)
    requires m < |definitions| && j <= |rows|
    requires forall row :: row in rows ==> CompleteRow(row)
    ensures CompleteJobs(JobsSoFar(definitions, rows, m, j))
  {
    var earlier := Jobs(definitions[..m], rows);
    JobsComplete(definitions[..m], rows);
    var jobs := JobsSoFar(definitions, rows, m, j);
    forall i | 0 <= i < |jobs| ensures CompleteRow(jobs[i].row) {
      if i < |earlier| {
        assert jobs[i] == earlier[i];
      } else {
        assert jobs[i].row == rows[i - |earlier|];
      }
    }
  }

  /** The `row[col]` lookups of a complete row do not fail. */
  lemma CompleteRowHasCells(rows: seq<Row>, j: nat, selected: seq<string>)
    requires j < |rows| && forall row :: row in rows ==> CompleteRow(row)
    ensures HasCells(rows[j], selected) && CompleteRow(rows[j])
  {
    assert rows[j] in rows;
  }

  /** One outcome more: the run goes on, or stops at its first failure. */
  lemma CollectSnoc(outcomes: seq<Result<ResultRow, FeedbackError>>, last: Result<ResultRow, FeedbackError>)
    ensures Collect(outcomes + [last]) ==
              if Collect(outcomes).Failure? then Collect(outcomes)
              else if last.Failure? then Failure(last.error)
              else Success(Collect(outcomes).value + [last.value])
  {
    assert (outcomes + [last])[..|outcomes|] == outcomes;
  }

  /** The inner loop starts from the jobs of the earlier metrics and ends with those of this one. */
  lemma JobsSoFarEnds(definitions: seq<MetricDefinition>, rows: seq<Row>, m: nat)
    requires m < |definitions|
    ensures JobsSoFar(definitions, rows, m, 0) == Jobs(definitions[..m], rows)
    ensures JobsSoFar(definitions, rows, m, |rows|) == Jobs(definitions[..m + 1], rows)
  {
    assert definitions[..m + 1][..m] == definitions[..m];
    var todo := MetricJobs(m + 1, definitions[m], rows);
    assert todo[..|rows|] == todo;
    assert todo[..0] == [];
  }

  /** One pass of the inner loop adds one job. */
  lemma JobsSoFarStep(definitions: seq<MetricDefinition>, rows: seq<Row>, m: nat, j: nat)
    requires m < |definitions| && j < |rows|
    ensures JobsSoFar(definitions, rows, m, j + 1) ==
              JobsSoFar(definitions, rows, m, j) + [Job(m + 1, definitions[m], rows[j])]
  {
    var todo := MetricJobs(m + 1, definitions[m], rows);
    assert todo[..j + 1] == todo[..j] + [todo[j]];
  }

  /** The jobs after the first `j + 1` of metric `m + 1`. */
  lemma JobsAfter(definitions: seq<MetricDefinition>, rows: seq<Row>, m: nat, j: nat) returns (after: seq<Job>)
    requires m < |definitions| && j < |rows|
    requires forall row :: row in rows ==> CompleteRow(row)
    ensures Jobs(definitions, rows) == JobsSoFar(definitions, rows, m, j + 1) + after
    ensures CompleteJobs(after)
  {
    var done := JobsSoFar(definitions, rows, m, j + 1);
    var todo := MetricJobs(m + 1, definitions[m], rows);
    var rest := JobsPrefix(definitions, rows, m + 1);
    assert definitions[..m + 1][..m] == definitions[..m];
    after := todo[j + 1..] + rest;
    assert todo == todo[..j + 1] + todo[j + 1..];
    AppendAssoc(Jobs(definitions[..m], rows), todo[..j + 1], todo[j + 1..]);
    AppendAssoc(Jobs(definitions[..m], rows) + todo[..j + 1], todo[j + 1..], rest);
    JobsComplete(definitions, rows);
    forall i | 0 <= i < |after| ensures CompleteRow(after[i].row) {
      assert after[i] == Jobs(definitions, rows)[|done| + i];
    }
  }

  /** A job that fails in the inner loop decides the outcome of the whole run. */
  lemma AbortEndsRun(definitions: seq<MetricDefinition>, rows: seq<Row>, m: nat, j: nat, cot: string, judge: Judge)
    requires m < |definitions| && j < |rows|
    requires forall row :: row in rows ==> CompleteRow(row)
    requires CompleteJobs(JobsSoFar(definitions, rows, m, j + 1))
    requires Collect(Outcomes(JobsSoFar(definitions, rows, m, j + 1), cot, judge)).Failure?
    ensures Generate(definitions, rows, cot, judge) ==
              Failure(Aborted(Collect(Outcomes(JobsSoFar(definitions, rows, m, j + 1), cot, judge)).error))
  {
    var done := JobsSoFar(definitions, rows, m, j + 1);
    var after := JobsAfter(definitions, rows, m, j);
    OutcomesAppend(done, after, cot, judge);
    CollectFailureSticks(Outcomes(done, cot, judge), Outcomes(after, cot, judge));
  }

  /** The Generate Results handler: the nested loops over metrics and rows. */
  method GenerateResults(definitions: seq<MetricDefinition>, rows: seq<Row>, cot: string, judge: Judge)
    returns (outcome: Result<seq<ResultRow>, GenerateError>)
    requires forall row :: row in rows ==> CompleteRow(row)
    ensures outcome == Generate(definitions, rows, cot, judge)
  {
    if |definitions| == 0 {
      return Failure(NoMetrics);
    }
    var results: seq<ResultRow> := [];
    assert definitions[..0] == [];
    for m := 0 to |definitions|
      invariant CompleteJobs(Jobs(definitions[..m], rows))
      invariant Collect(Outcomes(Jobs(definitions[..m], rows), cot, judge)) == Success(results)
    {
      var metricIndex := m + 1;
      var definition := definitions[m];
      JobsSoFarEnds(definitions, rows, m);
      for j := 0 to |rows|
        invariant CompleteJobs(JobsSoFar(definitions, rows, m, j))
        invariant Collect(Outcomes(JobsSoFar(definitions, rows, m, j), cot, judge)) == Success(results)
      {
        var row := rows[j];
        CompleteRowHasCells(rows, j, definition.selectedColumns);
        var params := RowParams(definition.systemPrompt, definition.selectedColumns, row);
        var feedback := RelevanceFeedback(params, cot, judge);
        ghost var job := Job(metricIndex, definition, row);
        ghost var before := JobsSoFar(definitions, rows, m, j);
        JobsSoFarStep(definitions, rows, m, j);
        OutcomesSnoc(before, job, cot, judge);
        CollectSnoc(Outcomes(before, cot, judge), RunJob(job, cot, judge));
        if feedback.Failure? {
          AbortEndsRun(definitions, rows, m, j, cot, judge);
          return Failure(Aborted(feedback.error));
        }
        results := results + [ResultRow(MetricLabel(metricIndex), Join(definition.selectedColumns, ", "),
                                         feedback.value.score, feedback.value.criteria,
                                         feedback.value.supportingEvidence)];
      }
    }
    assert definitions[..|definitions|] == definitions;
    outcome := Success(results);
  }
}
