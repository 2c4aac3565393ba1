/** The keyword arguments of one feedback call (app.py:129-146): the metric's system prompt, and
    for each picked column that has a keyword the row's cell under that keyword. */
module RowParameters {

  /** A spreadsheet row: column name to cell text. */
  type Row = map<string, string>

  /** The keyword argument each column is passed as. */
  const ColumnKey: map<string, string> := map[
    "Question" := "question",
    "Content" := "formatted_content",
    "Answer" := "formatted_history",
    "Reference Content" := "formatted_reference_content",
    "Reference Answer" := "formatted_reference_answer"
  ]

  /** The keyword argument the system prompt is passed as. */
  const SystemPromptKey: string := "system_prompt"

  /** The row has a cell for every picked column that has a keyword, so `row[col]` does not fail. */
  predicate HasCells(row: Row, selected: seq<string>) {
    forall column :: column in selected && column in ColumnKey ==> column in row
  }

  /** The dictionary after the first `|selected|` columns have been looked at. */
  function Params(systemPrompt: string, selected: seq<string>, row: Row): map<string, string>
    requires HasCells(row, selected)
    decreases |selected|
  {
    if |selected| == 0 then map[SystemPromptKey := systemPrompt]
    else
      var column := selected[|selected| - 1];
      var earlier := Params(systemPrompt, selected[..|selected| - 1], row);
      if column in ColumnKey then earlier[ColumnKey[column] := row[column]] else earlier
  }

  /** Different columns have different keywords, and none of them is the system prompt's. */
  lemma ColumnKeysDistinct()
    ensures forall a, b :: a in ColumnKey && b in ColumnKey && ColumnKey[a] == ColumnKey[b] ==> a == b
    ensures SystemPromptKey !in ColumnKey.Values
  {
  }

  /** The keyword of a picked column, when it has one. */
  function KeywordsOf(selected: seq<string>): set<string> {
    set column | column in selected && column in ColumnKey :: ColumnKey[column]
  }

  /** The keys are `system_prompt` and the keywords of the picked columns that have one. */
  lemma {:induction false} ParamsKeys(systemPrompt: string, selected: seq<string>, row: Row)
    requires HasCells(row, selected)
    ensures Params(systemPrompt, selected, row).Keys == {SystemPromptKey} + KeywordsOf(selected)
    decreases |selected|
  {
    if |selected| > 0 {
      var n := |selected| - 1;
      var earlier := selected[..n];
      var column := selected[n];
      ParamsKeys(systemPrompt, earlier, row);
      assert selected == earlier + [column];
      assert KeywordsOf(selected) == KeywordsOf(earlier) + (if column in ColumnKey then {ColumnKey[column]} else {});
    }
  }

  /** The system prompt and each picked column's cell are bound under their keywords. */
  lemma {:induction false} ParamsValues(systemPrompt: string, selected: seq<string>, row: Row)
    requires HasCells(row, selected)
    ensures SystemPromptKey in Params(systemPrompt, selected, row)
    ensures Params(systemPrompt, selected, row)[SystemPromptKey] == systemPrompt
    ensures forall column :: column in selected && column in ColumnKey ==>
              ColumnKey[column] in Params(systemPrompt, selected, row) &&
              Params(systemPrompt, selected, row)[ColumnKey[column]] == row[column]
    decreases |selected|
  {
    ColumnKeysDistinct();
    if |selected| > 0 {
      var n := |selected| - 1;
      var earlier := selected[..n];
      ParamsValues(systemPrompt, earlier, row);
      assert forall column :: column in selected <==> column in earlier || column == selected[n];
    }
  }

  /** The loop filling the dictionary column by column. */
  method RowParams(systemPrompt: string, selected: seq<string>, row: Row) returns (params: map<string, string>)
    requires HasCells(row, selected)
    ensures params == Params(systemPrompt, selected, row)
  {
    params := map[SystemPromptKey := systemPrompt];
    for i := 0 to |selected|
      invariant params == Params(systemPrompt, selected[..i], row)
    {
      var column := selected[i];
      assert selected[..i + 1][..i] == selected[..i];
      if column in ColumnKey {
        params := params[ColumnKey[column] := row[column]];
      }
    }
    assert selected[..|selected|] == selected;
  }
}
