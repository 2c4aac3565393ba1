/** The metric definition step of the evaluation page (app.py:69-123): for each metric the user
    picks columns and writes a system prompt; the prompt is checked for the column terms it
    mentions, and a metric whose prompt names a column that was not picked is refused. */
module MetricValidation {
  import opened Lists
  import opened Text

  /** The column terms a prompt may mention, in the order they are looked for. */
  const ValidTerms: seq<string> :=
    ["question", "answer", "content", "reference content", "reference answer"]

  /** The spreadsheet column each term stands for. */
  const TermColumn: map<string, string> := map[
    "question" := "Question",
    "answer" := "Answer",
    "content" := "Content",
    "reference content" := "Reference Content",
    "reference answer" := "Reference Answer"
  ]

  /** What the user entered for one metric: the picked columns, the system prompt, and whether
      the "Validate Prompt" button was pressed on this run of the page. */
  datatype MetricForm = MetricForm(selectedColumns: seq<string>, systemPrompt: string, validatePressed: bool)

  /** An accepted metric: exactly the prompt and the column list it was entered with. */
  datatype MetricDefinition = MetricDefinition(systemPrompt: string, selectedColumns: seq<string>)

  /** The outcome shown for one metric: one of the three error messages, no message at all
      (validation not requested), or the success message and the recorded definition. */
  datatype Verdict =
    | TooFewColumns
    | NotValidated
    | EmptyPrompt
    | MissingColumns(terms: seq<string>, columns: seq<string>)
    | Accepted(definition: MetricDefinition)

  /** `term in text`, as a filter condition. */
  function Mentions(text: string): string -> bool {
    term => Contains(text, term)
  }

  /** `term != excluded`, as a filter condition. */
  function IsNot(excluded: string): string -> bool {
    term => term != excluded
  }

  /** The matched terms: those of `ValidTerms` found in the lower-cased prompt, then without
      "answer" when "reference answer" is found and without "content" when "reference content"
      is found. */
  function MatchedTerms(prompt: string): seq<string> {
    var lowered := Lower(prompt);
    var mentioned := Filter(ValidTerms, Mentions(lowered));
    var withoutAnswer :=
      if Contains(lowered, "reference answer") then Filter(mentioned, IsNot("answer")) else mentioned;
    if Contains(lowered, "reference content") then Filter(withoutAnswer, IsNot("content"))
    else withoutAnswer
  }

  /** A term is matched when the lower-cased prompt holds it and it is not the shorter half of a
      longer term the prompt also holds. */
  predicate Kept(lowered: string, term: string) {
    Contains(lowered, term) &&
    !(term == "answer" && Contains(lowered, "reference answer")) &&
    !(term == "content" && Contains(lowered, "reference content"))
  }

  function KeptIn(lowered: string): string -> bool {
    term => Kept(lowered, term)
  }

  /** The three filtering passes select, in one pass over `ValidTerms`, the terms `Kept` admits. */
  lemma MatchedTermsSelect(prompt: string)
    ensures MatchedTerms(prompt) == Filter(ValidTerms, KeptIn(Lower(prompt)))
  {
    var lowered := Lower(prompt);
    var m := Mentions(lowered);
    var refAnswer := Contains(lowered, "reference answer");
    var refContent := Contains(lowered, "reference content");
    var afterAnswer: string -> bool := term => m(term) && (refAnswer ==> term != "answer");
    if refAnswer {
      FilterTwice(ValidTerms, m, IsNot("answer"), afterAnswer);
    } else {
      FilterAgree(ValidTerms, m, afterAnswer);
    }
    var afterContent: string -> bool := term => afterAnswer(term) && (refContent ==> term != "content");
    if refContent {
      FilterTwice(ValidTerms, afterAnswer, IsNot("content"), afterContent);
    } else {
      FilterAgree(ValidTerms, afterAnswer, afterContent);
    }
    FilterAgree(ValidTerms, afterContent, KeptIn(lowered));
  }

  /** The valid terms are five different strings. */
  lemma ValidTermsDistinct()
    ensures Distinct(ValidTerms)
  {
    var t := ValidTerms;
    assert t[4..][1..] == [];
    assert t[3..][1..] == t[4..];
    assert t[2..][1..] == t[3..];
    assert t[1..][1..] == t[2..];
  }

  /** Matched terms are exactly the valid terms `Kept` admits, in the order of `ValidTerms`,
      each at most once. */
  lemma MatchedTermsExactly(prompt: string)
    ensures forall term :: term in MatchedTerms(prompt) <==> term in ValidTerms && Kept(Lower(prompt), term)
    ensures IsSubsequence(MatchedTerms(prompt), ValidTerms)
    ensures Distinct(MatchedTerms(prompt))
  {
    var keep := KeptIn(Lower(prompt));
    MatchedTermsSelect(prompt);
    forall term ensures term in MatchedTerms(prompt) <==> term in ValidTerms && keep(term) {
      FilterMember(ValidTerms, keep, term);
    }
    FilterIsSubsequence(ValidTerms, keep);
    ValidTermsDistinct();
    FilterDistinct(ValidTerms, keep);
  }

  /** Every matched term has a column. */
  lemma MatchedTermsMapped(prompt: string)
    ensures forall term :: term in MatchedTerms(prompt) ==> term in TermColumn
  {
    MatchedTermsExactly(prompt);
  }

  /** The overlap rule: a prompt holding "reference answer" also holds "answer", yet "answer" is
      not matched; the same for "reference content" and "content". */
  lemma Suppression(prompt: string)
    ensures Contains(Lower(prompt), "reference answer") ==>
              Contains(Lower(prompt), "answer") && "answer" !in MatchedTerms(prompt)
    ensures Contains(Lower(prompt), "reference content") ==>
              Contains(Lower(prompt), "content") && "content" !in MatchedTerms(prompt)
  {
    var lowered := Lower(prompt);
    MatchedTermsExactly(prompt);
    if Contains(lowered, "reference answer") {
      assert StartsWith("reference answer"[10..], "answer");
      assert Contains("reference answer", "answer") by {
        ContainsAfter("reference answer", "answer", 10);
      }
      ContainsWithin(lowered, "reference answer", "answer");
    }
    if Contains(lowered, "reference content") {
      assert StartsWith("reference content"[10..], "content");
      assert Contains("reference content", "content") by {
        ContainsAfter("reference content", "content", 10);
      }
      ContainsWithin(lowered, "reference content", "content");
    }
  }

  /** `column_mapping[term] not in selected_columns`, as a filter condition. */
  function Unselected(selected: seq<string>): string -> bool {
    term => term in TermColumn && TermColumn[term] !in selected
  }

  /** The missing terms: the matched terms whose column was not picked, in matched order. */
  function MissingTerms(matched: seq<string>, selected: seq<string>): (missing: seq<string>)
    ensures forall term :: term in missing ==> term in matched && term in TermColumn && TermColumn[term] !in selected
  {
    FilterKeeps(matched, Unselected(selected));
    Filter(matched, Unselected(selected))
  }

  /** A matched term is missing exactly when its column was not picked, and the missing terms keep
      the matched order. */
  lemma MissingTermsExactly(matched: seq<string>, selected: seq<string>)
    requires forall term :: term in matched ==> term in TermColumn
    ensures forall term :: term in MissingTerms(matched, selected) <==> term in matched && TermColumn[term] !in selected
    ensures IsSubsequence(MissingTerms(matched, selected), matched)
  {
    forall term ensures term in MissingTerms(matched, selected) <==> term in matched && TermColumn[term] !in selected {
      FilterMember(matched, Unselected(selected), term);
    }
    FilterIsSubsequence(matched, Unselected(selected));
  }

  /** The loop that collects the missing terms one matched term at a time. */
  method CollectMissingTerms(matched: seq<string>, selected: seq<string>) returns (missing: seq<string>)
    requires forall term :: term in matched ==> term in TermColumn
    ensures missing == MissingTerms(matched, selected)
  {
    missing := [];
    for i := 0 to |matched|
      invariant missing == Filter(matched[..i], Unselected(selected))
    {
      var term := matched[i];
      assert matched[..i + 1] == matched[..i] + [term];
      FilterSnoc(matched[..i], term, Unselected(selected));
      if TermColumn[term] !in selected {
        missing := missing + [term];
      }
    }
    assert matched[..|matched|] == matched;
  }

  /** `[column_mapping[term] for term in terms]`. */
  function ColumnsOf(terms: seq<string>): seq<string>
    requires forall term :: term in terms ==> term in TermColumn
  {
    seq(|terms|, i requires 0 <= i < |terms| => TermColumn[terms[i]])
  }

  /** The columns reported for a refused prompt are exactly the unpicked columns of its matched
      terms. */
  lemma MissingColumnsExactly(matched: seq<string>, selected: seq<string>)
    requires forall term :: term in matched ==> term in TermColumn
    ensures forall column :: column in ColumnsOf(MissingTerms(matched, selected)) <==>
              column !in selected && exists term :: term in matched && TermColumn[term] == column
  {
    var missing := MissingTerms(matched, selected);
    MissingTermsExactly(matched, selected);
    forall column
      ensures column in ColumnsOf(missing) <==>
                column !in selected && exists term :: term in matched && TermColumn[term] == column
    {
      if column !in selected && exists term :: term in matched && TermColumn[term] == column {
        var term :| term in matched && TermColumn[term] == column;
        var k :| 0 <= k < |missing| && missing[k] == term;
        assert ColumnsOf(missing)[k] == column;
      }
    }
  }

  /** Every matched term's column was picked. */
  predicate Covers(selected: seq<string>, matched: seq<string>) {
    forall term :: term in matched ==> term in TermColumn && TermColumn[term] in selected
  }

  /** One metric's pass through the checks, in the order the page makes them. */
  function Validate(form: MetricForm): Verdict {
    if |form.selectedColumns| < 2 then TooFewColumns
    else if !form.validatePressed then NotValidated
    else if Strip(form.systemPrompt) == "" then EmptyPrompt
    else
      var matched := MatchedTerms(form.systemPrompt);
      MatchedTermsMapped(form.systemPrompt);
      var missing := MissingTerms(matched, form.selectedColumns);
      if |missing| > 0 then MissingColumns(missing, ColumnsOf(missing))
      else Accepted(MetricDefinition(form.systemPrompt, form.selectedColumns))
  }

  /** A metric is accepted exactly when at least two columns are picked, validation was asked
      for, the prompt is not blank and every column its terms name is picked; the definition is
      then that prompt and that column list. A refusal for missing columns names at least one
      term, with one column per term, none of them picked. */
  lemma ValidateAcceptsIff(form: MetricForm)
    ensures Validate(form).Accepted? <==>
              |form.selectedColumns| >= 2 && form.validatePressed && !AllSpace(form.systemPrompt) &&
              Covers(form.selectedColumns, MatchedTerms(form.systemPrompt))
    ensures Validate(form).Accepted? ==>
              Validate(form).definition == MetricDefinition(form.systemPrompt, form.selectedColumns)
    ensures Validate(form).MissingColumns? ==>
              |Validate(form).terms| > 0 && |Validate(form).columns| == |Validate(form).terms| &&
              forall column :: column in Validate(form).columns ==> column !in form.selectedColumns
  {
    StripEmptyIff(form.systemPrompt);
    MatchedTermsMapped(form.systemPrompt);
    var matched := MatchedTerms(form.systemPrompt);
    NoneMissingIff(matched, form.selectedColumns);
    MissingColumnsUnselected(MissingTerms(matched, form.selectedColumns), form.selectedColumns);
  }

  /** No term is missing exactly when the picked columns cover the matched terms. */
  lemma NoneMissingIff(matched: seq<string>, selected: seq<string>)
    requires forall term :: term in matched ==> term in TermColumn
    ensures |MissingTerms(matched, selected)| == 0 <==> Covers(selected, matched)
  {
    if !Covers(selected, matched) {
      var term :| term in matched && !(term in TermColumn && TermColumn[term] in selected);
      MissingTermsExactly(matched, selected);
      assert term in MissingTerms(matched, selected);
    }
    if |MissingTerms(matched, selected)| > 0 {
      assert MissingTerms(matched, selected)[0] in MissingTerms(matched, selected);
    }
  }

  /** None of the columns of unpicked terms was picked. */
  lemma MissingColumnsUnselected(missing: seq<string>, selected: seq<string>)
    requires forall term :: term in missing ==> term in TermColumn && TermColumn[term] !in selected
    ensures forall column :: column in ColumnsOf(missing) ==> column !in selected
  {
    forall column | column in ColumnsOf(missing)
      ensures column !in selected
    {
      var k :| 0 <= k < |missing| && ColumnsOf(missing)[k] == column;
      assert missing[k] in missing;
    }
  }

  /** The definitions recorded by the metric loop, in metric order. */
  function AcceptedDefinitions(forms: seq<MetricForm>): seq<MetricDefinition>
    decreases |forms|
  {
    if |forms| == 0 then []
    else
      var verdict := Validate(forms[|forms| - 1]);
      AcceptedDefinitions(forms[..|forms| - 1]) + (if verdict.Accepted? then [verdict.definition] else [])
  }

  /** A definition that passed every check. */
  predicate WellDefined(definition: MetricDefinition) {
    |definition.selectedColumns| >= 2 && !AllSpace(definition.systemPrompt) &&
    Covers(definition.selectedColumns, MatchedTerms(definition.systemPrompt))
  }

  /** Some validated form holds exactly this prompt and this column list. */
  predicate Entered(forms: seq<MetricForm>, definition: MetricDefinition) {
    exists k :: 0 <= k < |forms| && forms[k].validatePressed &&
      forms[k].systemPrompt == definition.systemPrompt && forms[k].selectedColumns == definition.selectedColumns
  }

  /** A form that was entered stays entered when more forms follow. */
  lemma EnteredExtends(forms: seq<MetricForm>, n: nat, definition: MetricDefinition)
    requires n <= |forms| && Entered(forms[..n], definition)
    ensures Entered(forms, definition)
  {
    var k :| 0 <= k < n && forms[..n][k].validatePressed &&
             forms[..n][k].systemPrompt == definition.systemPrompt &&
             forms[..n][k].selectedColumns == definition.selectedColumns;
    assert forms[k] == forms[..n][k];
  }

  /** Every recorded definition passed every check and is one of the forms, unchanged; there is at
      most one per metric. */
  lemma {:induction false} AcceptedDefinitionsValid(forms: seq<MetricForm>)
    ensures |AcceptedDefinitions(forms)| <= |forms|
    ensures forall d :: d in AcceptedDefinitions(forms) ==> WellDefined(d) && Entered(forms, d)
    decreases |forms|
  {
    if |forms| > 0 {
      var n := |forms| - 1;
      var earlier := AcceptedDefinitions(forms[..n]);
      var verdict := Validate(forms[n]);
      assert AcceptedDefinitions(forms) == earlier + (if verdict.Accepted? then [verdict.definition] else []);
      AcceptedDefinitionsValid(forms[..n]);
      forall d | d in AcceptedDefinitions(forms)
        ensures WellDefined(d) && Entered(forms, d)
      {
        if d in earlier {
          EnteredExtends(forms, n, d);
        } else {
          ValidateAcceptsIff(forms[n]);
          assert d == MetricDefinition(forms[n].systemPrompt, forms[n].selectedColumns);
          assert forms[n].validatePressed;
        }
      }
    }
  }

  /** On a run of the page where no "Validate Prompt" button was pressed, no metric is defined. */
  lemma {:induction false} NoValidationNoDefinitions(forms: seq<MetricForm>)
    requires forall k :: 0 <= k < |forms| ==> !forms[k].validatePressed
    ensures AcceptedDefinitions(forms) == []
    decreases |forms|
  {
    if |forms| > 0 {
      var n := |forms| - 1;
      assert forall k :: 0 <= k < n ==> forms[..n][k] == forms[k];
      NoValidationNoDefinitions(forms[..n]);
    }
  }

  /** One more form: its definition is appended when it is accepted. */
  lemma AcceptedDefinitionsStep(forms: seq<MetricForm>, i: nat)
    requires i < |forms|
    ensures AcceptedDefinitions(forms[..i + 1]) ==
              AcceptedDefinitions(forms[..i]) +
              (if Validate(forms[i]).Accepted? then [Validate(forms[i]).definition] else [])
  {
    assert forms[..i + 1][..i] == forms[..i];
  }

  /** One pass of the metric loop: the checks in order, the first that fails giving the error
      shown; the definition when all pass. */
  method CheckForm(form: MetricForm) returns (verdict: Verdict)
    ensures verdict == Validate(form)
  {
    if |form.selectedColumns| < 2 {
      return TooFewColumns;
    }
    if !form.validatePressed {
      return NotValidated;
    }
    if Strip(form.systemPrompt) == "" {
      return EmptyPrompt;
    }
    var matched := MatchedTerms(form.systemPrompt);
    MatchedTermsMapped(form.systemPrompt);
    var missing := CollectMissingTerms(matched, form.selectedColumns);
    if |missing| > 0 {
      return MissingColumns(missing, ColumnsOf(missing));
    }
    verdict := Accepted(MetricDefinition(form.systemPrompt, form.selectedColumns));
  }

  /** The metric loop: every form is checked, its verdict reported, and the accepted ones appended
      to the definitions. */
  method DefineMetrics(forms: seq<MetricForm>) returns (verdicts: seq<Verdict>, definitions: seq<MetricDefinition>)
    ensures |verdicts| == |forms|
    ensures forall k :: 0 <= k < |forms| ==> verdicts[k] == Validate(forms[k])
    ensures definitions == AcceptedDefinitions(forms)
  {
    verdicts := [];
    definitions := [];
    for i := 0 to |forms|
      invariant |verdicts| == i
      invariant forall k :: 0 <= k < i ==> verdicts[k] == Validate(forms[k])
      invariant definitions == AcceptedDefinitions(forms[..i])
    {
      AcceptedDefinitionsStep(forms, i);
      var verdict := CheckForm(forms[i]);
      verdicts := verdicts + [verdict];
      if verdict.Accepted? {
        definitions := definitions + [verdict.definition];
      }
    }
    assert forms[..|forms|] == forms;
  }
}
