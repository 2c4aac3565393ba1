/** Reading the judging model's explanation (app.py:38-44): the reason text is cut into lines,
    and from the first, the second and the last line the text after the first `FieldSeparator` (up to any
    second one) is taken as the criteria, the supporting evidence and the score. */
module ReplyParsing {
  import opened Results
  import opened Lists
  import opened Text

  /** What the feedback function returns: the score and the two explanation fields. */
  datatype Reply = Reply(score: string, criteria: string, supportingEvidence: string)

  /** The `IndexError`s the parsing can raise: a line with no `": "` (`split(': ')[1]`), or a
      reason with a single line (`reason[1]`). */
  datatype ParseError = NoSeparator(line: string) | MissingLine

  /** What the reason text is cut at. */
  const LineBreak: string := "\n"

  /** What a line is cut at. */
  const FieldSeparator: string := ": "

  /** `line.split(': ')[1]`. */
  function SecondField(line: string): Result<string, ParseError> {
    var parts := Split(line, FieldSeparator);
    if |parts| < 2 then Failure(NoSeparator(line)) else Success(parts[1])
  }

  /** Lines 39-42, in the order Python evaluates them. */
  function ParseReply(reason: string): Result<Reply, ParseError> {
    var lines := Split(reason, LineBreak);
    var criteria := SecondField(lines[0]);
    if criteria.Failure? then Failure(criteria.error)
    else if |lines| < 2 then Failure(MissingLine)
    else
      var evidence := SecondField(lines[1]);
      if evidence.Failure? then Failure(evidence.error)
      else
        var score := SecondField(lines[|lines| - 1]);
        if score.Failure? then Failure(score.error)
        else Success(Reply(score.value, criteria.value, evidence.value))
  }

  /** A field is found exactly when the line holds `": "`; it holds no `": "` itself. */
  lemma SecondFieldIff(line: string)
    ensures SecondField(line).Success? <==> Contains(line, FieldSeparator)
    ensures SecondField(line).Failure? ==> SecondField(line).error == NoSeparator(line)
    ensures SecondField(line).Success? ==> !Contains(SecondField(line).value, FieldSeparator)
  {
    SplitSeveralIff(line, FieldSeparator);
    SplitPiecesFree(line, FieldSeparator);
  }

  /** The field is the text between the first `": "` of the line and the next one, or the end of
      the line when there is no next one. */
  lemma SecondFieldBetween(line: string) returns (before: string, after: string)
    requires SecondField(line).Success?
    ensures line == before + FieldSeparator + SecondField(line).value + after
    ensures !Contains(before, FieldSeparator)
    ensures after == "" || StartsWith(after, FieldSeparator)
  {
    var parts := Split(line, FieldSeparator);
    SplitFirstTwo(line, FieldSeparator);
    SplitPiecesFree(line, FieldSeparator);
    before := parts[0];
    after := if |parts| == 2 then "" else FieldSeparator + Join(parts[2..], FieldSeparator);
    if |parts| > 2 {
      assert after[..|FieldSeparator|] == FieldSeparator;
    }
  }

  /** Parsing succeeds exactly when there are at least two lines and the first, the second and
      the last each hold `": "`; the reply is then made of those lines' fields. */
  lemma ParseReplyIff(reason: string)
    ensures var lines := Split(reason, LineBreak);
      ParseReply(reason).Success? <==>
        |lines| >= 2 && Contains(lines[0], FieldSeparator) && Contains(lines[1], FieldSeparator) && Contains(lines[|lines| - 1], FieldSeparator)
    ensures var lines := Split(reason, LineBreak);
      ParseReply(reason).Success? ==>
        ParseReply(reason).value ==
          Reply(Split(lines[|lines| - 1], FieldSeparator)[1], Split(lines[0], FieldSeparator)[1], Split(lines[1], FieldSeparator)[1])
  {
    var lines := Split(reason, LineBreak);
    SecondFieldIff(lines[0]);
    if |lines| >= 2 {
      SecondFieldIff(lines[1]);
      SecondFieldIff(lines[|lines| - 1]);
    }
  }

  /** A reason without a line break is always refused. */
  lemma SingleLineFails(reason: string)
    requires '\n' !in reason
    ensures ParseReply(reason).Failure?
  {
    HeadNeeded(reason, LineBreak);
    SplitAbsent(reason, LineBreak);
  }

  /** One line of a well-formed reply: a name, `": "` and a value. */
  function ReplyLine(name: string, value: string): string {
    name + FieldSeparator + value
  }

  /** A text fit for a name or a value: one line, no `": "`. */
  predicate Plain(text: string) {
    '\n' !in text && !Contains(text, FieldSeparator)
  }

  lemma ReplyLineField(name: string, value: string)
    requires Plain(name) && Plain(value)
    ensures SecondField(ReplyLine(name, value)) == Success(value)
    ensures '\n' !in ReplyLine(name, value)
  {
    SepFreeBeforeColonSpace(name);
    SplitAfter(name, FieldSeparator, value);
    SplitAbsent(value, FieldSeparator);
  }

  /** Three labelled lines parse back into their values: criteria from the first, supporting
      evidence from the second, the score from the third. */
  lemma ParseReplyRoundTrip(names: seq<string>, criteria: string, evidence: string, score: string)
    requires |names| == 3 && Plain(names[0]) && Plain(names[1]) && Plain(names[2])
    requires Plain(criteria) && Plain(evidence) && Plain(score)
    ensures ParseReply(ReplyLine(names[0], criteria) + LineBreak + ReplyLine(names[1], evidence) + LineBreak +
                       ReplyLine(names[2], score)) == Success(Reply(score, criteria, evidence))
  {
    var first := ReplyLine(names[0], criteria);
    var second := ReplyLine(names[1], evidence);
    var third := ReplyLine(names[2], score);
    ReplyLineField(names[0], criteria);
    ReplyLineField(names[1], evidence);
    ReplyLineField(names[2], score);
    SepFreeBeforeLineBreak(first);
    SepFreeBeforeLineBreak(second);
    HeadNeeded(third, LineBreak);
    SplitAbsent(third, LineBreak);
    SplitAfter(second, LineBreak, third);
    AppendAssoc(first + LineBreak, second, LineBreak + third);
    AppendAssoc(second, LineBreak, third);
    AppendAssoc(first + LineBreak + second, LineBreak, third);
    SplitAfter(first, LineBreak, second + LineBreak + third);
  }
}
