# LLM evaluation page — a Dafny model of its core rules

The application is a Streamlit page (`app.py`) that evaluates answers with a judging language
model. The user uploads a spreadsheet and defines one or more metrics. Each metric is a system
prompt plus a choice of columns. For every metric and every row, the page asks the model for a
relevance verdict and collects the results in a table.

This project models the rules of that page that do not depend on the UI, the spreadsheet library
or the model provider, and proves what they guarantee:

- **Metric validation** (`metric_validation.dfy`, module `MetricValidation`).
  - The five column terms a prompt mentions are found by case-insensitive substring search.
  - "reference answer" suppresses "answer", and "reference content" suppresses "content".
  - The terms whose column was not picked are collected in a loop.
  - A metric is accepted only when at least two columns are picked, validation was asked for, the
    prompt is not blank and no term is missing.
- **User prompt assembly** (`user_prompt.dfy`, module `UserPrompt`).
  - The `+=` chain builds a format string from the keyword arguments that are present.
  - `str.format` fills it in.
  - `replace` substitutes the chain-of-thought template for every `RELEVANCE:`.
- **Reply parsing** (`reply_parsing.dfy`, module `ReplyParsing`).
  - The reason text is cut into lines.
  - The criteria, the supporting evidence and the score are the second `": "`-field of the first,
    the second and the last line.
  - A missing separator or a missing second line is an error value.
- **Row parameters** (`row_parameters.dfy`, module `RowParameters`). The keyword dictionary of one
  spreadsheet row is built column by column.
- **Results** (`evaluation.dfy`, module `Evaluation`).
  - The feedback call ties prompt assembly, the model and reply parsing together.
  - The nested metric/row loops collect one result row per job.
  - The first unreadable reply ends the run, as the page's outer `try` does.

Supporting modules:

- `results.dfy`: `Option` and `Result`.
- `lists.dfy`: Python's filtering comprehension and its facts.
- `text.dfy`: the Python string operations the page uses, with CPython's semantics:
  - `in` on strings;
  - `lower()`;
  - `strip()`;
  - `split()`, `join()` and `replace()`, scanning left to right for non-overlapping occurrences;
  - `str(n)`.

Where the source builds a value step by step, the model has a method with a loop or a chain of
statements, proved equal to a specification function:

| method | specification |
|---|---|
| `BuildTemplate` | `Template` |
| `CollectMissingTerms` | `MissingTerms` |
| `CheckForm` | `Validate` |
| `DefineMetrics` | `AcceptedDefinitions` |
| `RowParams` | `Params` |
| `RelevanceFeedback` | `Feedback` |
| `GenerateResults` | `Generate` |

The properties are proved about those functions.

## Model

| member | source | states |
|---|---|---|
| MetricValidation.MatchedTermsSelect | app.py:85-92 | the three comprehensions select in one pass the valid terms the lower-cased prompt holds, minus "answer"/"content" when "reference answer"/"reference content" occurs |
| MetricValidation.MatchedTermsExactly | app.py:85-92 | a term is matched iff it is a valid term that `Kept` admits; matched terms keep the order of `valid_terms` (a subsequence) and are distinct |
| MetricValidation.Suppression | app.py:88-92 | if the lower-cased prompt contains "reference answer" it also contains "answer", yet "answer" is not matched; likewise "reference content" and "content" |
| MetricValidation.MatchedTermsMapped | app.py:99-110 | every matched term has an entry in `column_mapping`, so the lookups on lines 109 and 113 never fail |
| MetricValidation.MissingTerms | app.py:107-110 | each missing term is a matched term whose mapped column is not among the selected columns |
| MetricValidation.MissingTermsExactly | app.py:107-110 | a term is missing iff it is matched and its column is not selected; the missing terms are a subsequence of the matched terms (matched order) |
| MetricValidation.CollectMissingTerms | app.py:107-110 | the `missing_terms.append` loop produces exactly `MissingTerms` |
| MetricValidation.MissingColumnsExactly | app.py:112-113 | a column is reported missing iff it is not selected and some matched term maps to it |
| MetricValidation.NoneMissingIff | app.py:112-123 | no term is missing iff the selected columns cover every matched term's column |
| MetricValidation.ValidateAcceptsIff | app.py:78-123 | accepted iff at least two columns, validate pressed, prompt not all whitespace and every matched term's column selected; the definition is exactly that prompt and column list; a missing-columns refusal names at least one term, one column per term, none selected |
| MetricValidation.CheckForm | app.py:78-123 | one pass of the metric loop, with its early `continue`s, yields `Validate(form)` |
| MetricValidation.DefineMetrics | app.py:68-123 | the metric loop reports `Validate` of each form, in order, and appends exactly `AcceptedDefinitions(forms)` |
| MetricValidation.AcceptedDefinitionsValid | app.py:68-123 | no more definitions than metrics; every recorded definition passed every check and holds the prompt and columns of a validated form, unchanged |
| MetricValidation.NoValidationNoDefinitions | app.py:94-123 | when no form's validate button is pressed, no metric is defined |
| Text.StripEmptyIff | app.py:95 | `not s.strip()` holds exactly for strings made only of whitespace, the empty string included |
| Text.ContainsIff | app.py:86 | `p in s` holds iff `p` occurs in `s` at some index |
| UserPrompt.PresentSectionsExactly | app.py:19-29 | a section is in the prompt iff its keyword argument is present; the sections keep the fixed order |
| UserPrompt.TemplateUpToFiltered | app.py:19-29 | after the first k `if`s the format string is the pieces of the present sections among the first k, in order |
| UserPrompt.BuildTemplate | app.py:19-30 | the `+=` chain yields `Template(kwargs)`: the present sections in fixed order, then `RELEVANCE: ` |
| UserPrompt.FormatDefinedIff | app.py:32 | `str.format` fails (KeyError) iff some field has no keyword argument |
| UserPrompt.FormatSections | app.py:32 | formatting the sections' pieces and the marker gives each heading, its value and a blank line, in order, then `RELEVANCE: ` |
| UserPrompt.TemplateFormats | app.py:32 | the assembled format string never raises: every field is given, and the result is the filled sections followed by the marker |
| UserPrompt.BlockReplaced | app.py:33-35 | in a section only the field's value is rewritten by the replacement; heading and blank line stay |
| UserPrompt.RenderedShape | app.py:33-35 | replacing in filled sections plus marker gives each section with its value's own `RELEVANCE:` replaced, then the template and a space |
| UserPrompt.UserPromptShape | app.py:19-35 | the user prompt is the present sections, each value with every `RELEVANCE:` replaced by the template, then the template and a space |
| UserPrompt.AssembleUserPrompt | app.py:19-35 | building, formatting and replacing yields `UserPromptText`, whose shape is the one `UserPromptShape` states |
| Text.ReplaceAllIsJoinSplit | app.py:33-35 | `s.replace(p, r)` equals `r.join(s.split(p))` |
| Text.JoinSplit | app.py:39 | joining the pieces of `split(sep)` with `sep` gives the string back |
| ReplyParsing.SecondFieldIff | app.py:40-42 | `line.split(': ')[1]` succeeds iff the line holds `": "`; the failure is the IndexError for that line; the field holds no `": "` |
| ReplyParsing.SecondFieldBetween | app.py:40-42 | the field is the text between the first `": "` and the next one (or the end of the line) |
| ReplyParsing.ParseReplyIff | app.py:39-42 | parsing succeeds iff there are at least two lines and the first, second and last hold `": "`; the reply is then (last, first, second) lines' fields |
| ReplyParsing.SingleLineFails | app.py:39-41 | a reason without a line break always fails |
| ReplyParsing.ReplyLineField | app.py:40-42 | the field of `name + ": " + value` is `value` when neither holds a line break or `": "` |
| ReplyParsing.ParseReplyRoundTrip | app.py:39-44 | three such labelled lines parse back into score (third), criteria (first) and supporting evidence (second) |
| RowParameters.ColumnKeysDistinct | app.py:129-135 | different columns map to different keyword arguments, none of them `system_prompt` |
| RowParameters.ParamsKeys | app.py:143-146 | the dictionary's keys are `system_prompt` and the mapped keys of the selected columns that have a mapping |
| RowParameters.ParamsValues | app.py:143-146 | `system_prompt` is bound to the metric's prompt and each selected mapped column's key to the row's cell |
| RowParameters.RowParams | app.py:143-146 | the loop filling `params` yields `Params` |
| Evaluation.RelevanceFeedback | app.py:15-44 | the feedback method returns `Feedback`: the parsed reply, or the error it raises |
| Evaluation.FeedbackOfWellFormedReply | app.py:37-44 | when the model answers three labelled lines, the feedback is their three values |
| Evaluation.RunJobFailsOnlyOnReply | app.py:143-148 | a job never fails for a missing `system_prompt`; it fails only on an unreadable reply |
| Evaluation.MetricLabelInjective | app.py:150 | different metric indices give different `Metric {i}` labels |
| Evaluation.JobsLength | app.py:138-142 | there is one job per metric and row |
| Evaluation.JobAt | app.py:138-142 | job `m * rows + j` is metric `m + 1` on row `j`: metrics in order, rows in order within each |
| Evaluation.CollectSuccessIff | app.py:137-155 | the run succeeds iff every job does, and then has one result per job, in order |
| Evaluation.CollectFirstFailure | app.py:148-168 | a failed run reports the error of its first failing job, all earlier jobs having succeeded |
| Evaluation.CollectFailureSticks | app.py:148-168 | once a job has failed, later jobs do not change the outcome |
| Evaluation.AbortEndsRun | app.py:148-168 | a failure inside the nested loops decides the outcome of the whole run |
| Evaluation.GenerateResults | app.py:125-155 | the Generate Results handler yields `Generate`: no metrics is an error; otherwise the result rows of all jobs, or the first error |

## Left out

- Streamlit UI: widgets, `st.error`/`st.success` messages and their texts, the data preview and
  the CSV download (app.py:50-54, 63-83, 157-166). A `Verdict` stands for the message shown for a
  metric. `DefineMetrics` takes the number of metrics, the picked columns, the prompts and the
  button states as a list of `MetricForm` values.
- Streamlit reruns: the page re-executes on every click, and a button reads as pressed only on
  the run its own click triggers. State across runs is not modelled. On the run where
  "Generate Results" is pressed, no "Validate Prompt" button is pressed, so by
  `NoValidationNoDefinitions` that run defines no metric and `Generate` reports `NoMetrics`.
- Excel reading with pandas and `df.iterrows()` (app.py:58, 142): a row is a map from column name
  to cell text, and the rows are a parameter. Cells are strings; pandas numbers and NaN, which
  `str.format` would print, are not modelled.
- The required-columns check after upload (app.py:59-61) is not modelled as an operation.
  `GenerateResults` requires what it guarantees: every row has every required column
  (`CompleteRow`).
- The model call `generate_score_and_reasons` (app.py:37) is a function parameter `judge` from
  (system prompt, user prompt) to the reason text. Its numeric score `result[0]`, the other keys
  of `result[1]` and a missing `reason` key are not modelled. `TruSession` and the `fOpenAI`
  base class are not modelled.
- `prompts.COT_REASONS_TEMPLATE` (app.py:34) is the parameter `cot`, an arbitrary string.
- Exceptions other than the ones the page's own code raises (network or provider errors inside
  the model call) are not modelled. The outer `try` (app.py:57, 167-168) becomes the `Aborted`
  result.
- Text.Lower: `lower()` is modelled for ASCII letters only. Other characters are left unchanged,
  unlike Python's full Unicode case mapping. The five column terms are ASCII.
- UserPrompt.Format: `str.format` is modelled on the format string as already parsed into
  literal pieces and `{key}` fields. Format specifications, conversions and brace escapes do not
  occur in the template and are not modelled.
