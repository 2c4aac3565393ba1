/** The user prompt sent to the judging model (app.py:19-35): one labelled section per field the
    call was given, in a fixed order, then the `RELEVANCE: ` marker; the fields are filled in with
    `str.format`, and every `RELEVANCE:` in the result is replaced by the chain-of-thought
    instructions template. */
module UserPrompt {
  import opened Results
  import opened Lists
  import opened Text

  /** A section of the prompt: the keyword argument it shows and the text written before it (`heading`, the label and `": "`). */
  datatype Section = Section(key: string, heading: string)

  /** The sections in the order they are appended. */
  const SectionOrder: seq<Section> := [
    Section("question", "question: "),
    Section("formatted_history", "answer: "),
    Section("formatted_reference_content", "reference_content: "),
    Section("formatted_reference_answer", "reference_answer: "),
    Section("formatted_content", "content: ")
  ]

  /** The text appended after the sections. */
  const Marker: string := "RELEVANCE: "

  /** The text `replace` looks for. */
  const MarkerWord: string := "RELEVANCE:"

  /** A format string, read as `str.format` reads it: literal text and `{key}` fields. */
  datatype Piece = Literal(text: string) | Field(key: string)

  /** `"<label>: {<key>}\n\n"`. */
  function SectionPieces(section: Section): seq<Piece> {
    [Literal(section.heading), Field(section.key), Literal("\n\n")]
  }

  /** The format string of several sections, one after the other. */
  function Pieces(sections: seq<Section>): seq<Piece>
    decreases |sections|
  {
    if |sections| == 0 then [] else SectionPieces(sections[0]) + Pieces(sections[1..])
  }

  /** `key in kwargs`, as a filter condition on sections. */
  function Present(kwargs: map<string, string>): Section -> bool {
    (section: Section) => section.key in kwargs
  }

  /** The sections whose keyword argument was given, in `SectionOrder`. */
  function PresentSections(kwargs: map<string, string>): seq<Section> {
    Filter(SectionOrder, Present(kwargs))
  }

  /** The format string the `+=` chain builds. */
  function Template(kwargs: map<string, string>): seq<Piece> {
    Pieces(PresentSections(kwargs)) + [Literal(Marker)]
  }

  /** The sections shown are exactly the given ones, in the fixed order. */
  lemma PresentSectionsExactly(kwargs: map<string, string>)
    ensures forall section :: section in PresentSections(kwargs) <==>
              section in SectionOrder && section.key in kwargs
    ensures IsSubsequence(PresentSections(kwargs), SectionOrder)
  {
    forall section
      ensures section in PresentSections(kwargs) <==> section in SectionOrder && section.key in kwargs
    {
      FilterMember(SectionOrder, Present(kwargs), section);
    }
    FilterIsSubsequence(SectionOrder, Present(kwargs));
  }

  lemma {:induction false} PiecesAppend(a: seq<Section>, b: seq<Section>)
    ensures Pieces(a + b) == Pieces(a) + Pieces(b)
    decreases |a|
  {
    if |a| > 0 {
      assert (a + b)[1..] == a[1..] + b;
      PiecesAppend(a[1..], b);
    } else {
      assert a + b == b;
    }
  }

  /** Appending a section, or nothing, to a list of sections. */
  lemma PiecesSnoc(sections: seq<Section>, section: Section, present: bool)
    ensures Pieces(sections + (if present then [section] else [])) ==
              Pieces(sections) + (if present then SectionPieces(section) else [])
  {
    PiecesAppend(sections, if present then [section] else []);
    assert Pieces([section]) == SectionPieces(section);
    assert Pieces([]) == [];
  }

  /** The template once the first `k` `if`s of the chain have run. */
  function TemplateUpTo(kwargs: map<string, string>, k: nat): seq<Piece>
    requires k <= |SectionOrder|
    decreases k
  {
    if k == 0 then []
    else
      var section := SectionOrder[k - 1];
      TemplateUpTo(kwargs, k - 1) + (if section.key in kwargs then SectionPieces(section) else [])
  }

  /** After the first `k` `if`s, the template holds the sections among the first `k` that are
      present, in order. */
  lemma {:induction false} TemplateUpToFiltered(kwargs: map<string, string>, k: nat)
    requires k <= |SectionOrder|
    ensures TemplateUpTo(kwargs, k) == Pieces(Filter(SectionOrder[..k], Present(kwargs)))
    decreases k
  {
    if k == 0 {
      assert SectionOrder[..0] == [];
    } else {
      TemplateUpToFiltered(kwargs, k - 1);
      var section := SectionOrder[k - 1];
      FilterPrefixStep(SectionOrder, k - 1, Present(kwargs));
      PiecesSnoc(Filter(SectionOrder[..k - 1], Present(kwargs)), section, section.key in kwargs);
    }
  }

  /** The whole chain gives the template of the present sections. */
  lemma TemplateUpToComplete(kwargs: map<string, string>)
    ensures TemplateUpTo(kwargs, |SectionOrder|) + [Literal(Marker)] == Template(kwargs)
  {
    TemplateUpToFiltered(kwargs, |SectionOrder|);
    assert SectionOrder[..|SectionOrder|] == SectionOrder;
  }

  /** The pieces of each of the five sections, written out as the chain writes them. */
  lemma SectionPiecesWrittenOut()
    ensures SectionPieces(SectionOrder[0]) == [Literal("question: "), Field("question"), Literal("\n\n")]
    ensures SectionPieces(SectionOrder[1]) == [Literal("answer: "), Field("formatted_history"), Literal("\n\n")]
    ensures SectionPieces(SectionOrder[2]) == [Literal("reference_content: "), Field("formatted_reference_content"), Literal("\n\n")]
    ensures SectionPieces(SectionOrder[3]) == [Literal("reference_answer: "), Field("formatted_reference_answer"), Literal("\n\n")]
    ensures SectionPieces(SectionOrder[4]) == [Literal("content: "), Field("formatted_content"), Literal("\n\n")]
  {
  }

  /** The `user_prompt +=` chain: a section for each keyword argument that is present, then the
      marker. */
  method BuildTemplate(kwargs: map<string, string>) returns (template: seq<Piece>)
    ensures template == Template(kwargs)
  {
    SectionPiecesWrittenOut();
    template := [];
    if "question" in kwargs {
      template := template + [Literal("question: "), Field("question"), Literal("\n\n")];
    }
    assert template == TemplateUpTo(kwargs, 1);
    if "formatted_history" in kwargs {
      template := template + [Literal("answer: "), Field("formatted_history"), Literal("\n\n")];
    }
    assert template == TemplateUpTo(kwargs, 2);
    if "formatted_reference_content" in kwargs {
      template := template +
        [Literal("reference_content: "), Field("formatted_reference_content"), Literal("\n\n")];
    }
    assert template == TemplateUpTo(kwargs, 3);
    if "formatted_reference_answer" in kwargs {
      template := template +
        [Literal("reference_answer: "), Field("formatted_reference_answer"), Literal("\n\n")];
    }
    assert template == TemplateUpTo(kwargs, 4);
    if "formatted_content" in kwargs {
      template := template + [Literal("content: "), Field("formatted_content"), Literal("\n\n")];
    }
    assert template == TemplateUpTo(kwargs, 5);
    TemplateUpToComplete(kwargs);
    template := template + [Literal("RELEVANCE: ")];
  }

  /** `template.format(**kwargs)`: the text, or `None` for the `KeyError` of a field with no
      argument. */
  function Format(template: seq<Piece>, kwargs: map<string, string>): Option<string>
    decreases |template|
  {
    if |template| == 0 then Some("")
    else
      var rest := Format(template[1..], kwargs);
      match template[0]
      case Literal(text) => if rest.Some? then Some(text + rest.value) else None
      case Field(key) => if key in kwargs && rest.Some? then Some(kwargs[key] + rest.value) else None
  }

  /** Formatting fails exactly when some field has no argument. */
  lemma {:induction false} FormatDefinedIff(template: seq<Piece>, kwargs: map<string, string>)
    ensures Format(template, kwargs).Some? <==>
              forall i :: 0 <= i < |template| && template[i].Field? ==> template[i].key in kwargs
    decreases |template|
  {
    if |template| > 0 {
      FormatDefinedIff(template[1..], kwargs);
      assert forall i :: 1 <= i < |template| ==> template[i] == template[1..][i - 1];
    }
  }

  /** The text of one section once its field is filled in. */
  function Block(section: Section, kwargs: map<string, string>): string
    requires section.key in kwargs
  {
    section.heading + kwargs[section.key] + "\n\n"
  }

  /** The text of several sections once their fields are filled in. */
  function Filled(sections: seq<Section>, kwargs: map<string, string>): string
    requires forall section :: section in sections ==> section.key in kwargs
    decreases |sections|
  {
    if |sections| == 0 then "" else Block(sections[0], kwargs) + Filled(sections[1..], kwargs)
  }

  /** Filling in one section's pieces in front of a format string that fills in to `r`. */
  lemma FormatSection(section: Section, tail: seq<Piece>, kwargs: map<string, string>, r: string)
    requires section.key in kwargs && Format(tail, kwargs) == Some(r)
    ensures Format(SectionPieces(section) + tail, kwargs) == Some(Block(section, kwargs) + r)
  {
    var t := SectionPieces(section) + tail;
    var value := kwargs[section.key];
    assert t[1..][1..][1..] == tail;
    assert Format(t[1..][1..], kwargs) == Some("\n\n" + r);
    assert Format(t[1..], kwargs) == Some(value + ("\n\n" + r));
    assert Format(t, kwargs) == Some(section.heading + (value + ("\n\n" + r)));
    assert Block(section, kwargs) + r == section.heading + (value + ("\n\n" + r));
  }

  /** Filling in the sections' format string gives their filled-in text. */
  lemma {:induction false} FormatSections(sections: seq<Section>, kwargs: map<string, string>)
    requires forall section :: section in sections ==> section.key in kwargs
    ensures Format(Pieces(sections) + [Literal(Marker)], kwargs) == Some(Filled(sections, kwargs) + Marker)
    decreases |sections|
  {
    if |sections| == 0 {
      assert Pieces(sections) + [Literal(Marker)] == [Literal(Marker)];
      assert [Literal(Marker)][1..] == [];
      assert Format([], kwargs) == Some("");
      assert Format([Literal(Marker)], kwargs) == Some(Marker + "");
      assert Filled(sections, kwargs) + Marker == Marker + "";
    } else {
      var first := sections[0];
      assert first in sections;
      var tail := Pieces(sections[1..]) + [Literal(Marker)];
      var r := Filled(sections[1..], kwargs) + Marker;
      assert forall section :: section in sections[1..] ==> section in sections;
      FormatSections(sections[1..], kwargs);
      FormatSection(first, tail, kwargs, r);
      AppendAssoc(SectionPieces(first), Pieces(sections[1..]), [Literal(Marker)]);
      AppendAssoc(Block(first, kwargs), Filled(sections[1..], kwargs), Marker);
    }
  }

  /** The template's fields are always given: formatting it never fails. */
  lemma TemplateFormats(kwargs: map<string, string>)
    ensures forall section :: section in PresentSections(kwargs) ==> section.key in kwargs
    ensures Format(Template(kwargs), kwargs) == Some(Filled(PresentSections(kwargs), kwargs) + Marker)
  {
    PresentSectionsExactly(kwargs);
    FormatSections(PresentSections(kwargs), kwargs);
  }

  /** The text of one section after the replacement: only the field's value can hold the word. */
  function RenderedBlock(section: Section, kwargs: map<string, string>, cot: string): string
    requires section.key in kwargs
  {
    section.heading + ReplaceAll(kwargs[section.key], MarkerWord, cot) + "\n\n"
  }

  function Rendered(sections: seq<Section>, kwargs: map<string, string>, cot: string): string
    requires forall section :: section in sections ==> section.key in kwargs
    decreases |sections|
  {
    if |sections| == 0 then ""
    else RenderedBlock(sections[0], kwargs, cot) + Rendered(sections[1..], kwargs, cot)
  }

  /** The user prompt: the filled-in template with every `RELEVANCE:` replaced by `cot`. */
  function UserPromptText(kwargs: map<string, string>, cot: string): string {
    TemplateFormats(kwargs);
    ReplaceAll(Filled(PresentSections(kwargs), kwargs) + Marker, MarkerWord, cot)
  }

  /** A heading ends with the space of `": "` and has no letter `R`, so it holds no `RELEVANCE:`
      and none can begin inside it. */
  predicate PlainHeading(heading: string) {
    |heading| > 0 && heading[|heading| - 1] == ' ' && 'R' !in heading
  }

  predicate PlainLabels(sections: seq<Section>) {
    forall section :: section in sections ==> PlainHeading(section.heading)
  }

  /** A text without `R` is left as it is. */
  lemma NoMarkerWithoutR(s: string, cot: string)
    requires 'R' !in s
    ensures ReplaceAll(s, MarkerWord, cot) == s
  {
    HeadNeeded(s, MarkerWord);
    ReplaceAllAbsent(s, MarkerWord, cot);
  }

  /** In a section, only the value is rewritten: the label and the blank line around it hold no
      `RELEVANCE:`, and none can straddle them. */
  lemma BlockReplaced(section: Section, kwargs: map<string, string>, cot: string)
    requires section.key in kwargs && PlainHeading(section.heading)
    ensures ReplaceAll(Block(section, kwargs), MarkerWord, cot) == RenderedBlock(section, kwargs, cot)
  {
    var head := section.heading;
    var value := kwargs[section.key];
    assert Block(section, kwargs) == head + (value + "\n\n");
    ReplaceAllAppend(head, value + "\n\n", MarkerWord, cot);
    ReplaceAllAppend(value, "\n\n", MarkerWord, cot);
    NoMarkerWithoutR(head, cot);
    NoMarkerWithoutR("\n\n", cot);
  }

  /** The marker itself becomes the template followed by the space after the colon. */
  lemma MarkerReplaced(cot: string)
    ensures ReplaceAll(Marker, MarkerWord, cot) == cot + " "
  {
    assert Marker[..|MarkerWord|] == MarkerWord;
    assert Marker[|MarkerWord|..] == " ";
  }

  lemma TailKeepsLabels(sections: seq<Section>, kwargs: map<string, string>)
    requires |sections| > 0
    requires forall section :: section in sections ==> section.key in kwargs
    requires PlainLabels(sections)
    ensures forall section :: section in sections[1..] ==> section.key in kwargs
    ensures PlainLabels(sections[1..])
  {
    assert forall section :: section in sections[1..] ==> section in sections;
  }

  lemma {:induction false} RenderedShape(sections: seq<Section>, kwargs: map<string, string>, cot: string)
    requires forall section :: section in sections ==> section.key in kwargs
    requires PlainLabels(sections)
    ensures ReplaceAll(Filled(sections, kwargs) + Marker, MarkerWord, cot) == Rendered(sections, kwargs, cot) + cot + " "
    decreases |sections|
  {
    if |sections| == 0 {
      assert Filled(sections, kwargs) + Marker == Marker;
      MarkerReplaced(cot);
    } else {
      TailKeepsLabels(sections, kwargs);
      RenderedShape(sections[1..], kwargs, cot);
      RenderedStep(sections, kwargs, cot);
    }
  }

  /** One step of `RenderedShape`: the first section is rendered on its own. */
  /** No occurrence of `RELEVANCE:` straddles a line break. */
  lemma LineBreakSeam(a: string, b: string)
    requires |a| > 0 && a[|a| - 1] == '\n'
    ensures Seam(a, b, MarkerWord)
  {
    assert '\n' !in MarkerWord;
  }

  lemma RenderedStep(sections: seq<Section>, kwargs: map<string, string>, cot: string)
    requires |sections| > 0
    requires forall section :: section in sections ==> section.key in kwargs
    requires PlainLabels(sections)
    requires ReplaceAll(Filled(sections[1..], kwargs) + Marker, MarkerWord, cot) ==
               Rendered(sections[1..], kwargs, cot) + cot + " "
    ensures ReplaceAll(Filled(sections, kwargs) + Marker, MarkerWord, cot) == Rendered(sections, kwargs, cot) + cot + " "
  {
    var first := sections[0];
    assert first in sections;
    var block := Block(first, kwargs);
    var rest := Filled(sections[1..], kwargs) + Marker;
    var head := RenderedBlock(first, kwargs, cot);
    var tail := Rendered(sections[1..], kwargs, cot);
    assert Filled(sections, kwargs) + Marker == block + rest by {
      AppendAssoc(block, Filled(sections[1..], kwargs), Marker);
    }
    assert ReplaceAll(block + rest, MarkerWord, cot) == head + (tail + cot + " ") by {
      assert block[|block| - 1] == '\n';
      LineBreakSeam(block, rest);
      ReplaceAllAppend(block, rest, MarkerWord, cot);
      BlockReplaced(first, kwargs, cot);
    }
    assert Rendered(sections, kwargs, cot) + cot + " " == head + (tail + cot + " ") by {
      assert Rendered(sections, kwargs, cot) == head + tail;
      AppendAssoc(head, tail, cot + " ");
      AppendAssoc(tail, cot, " ");
      AppendAssoc(head + tail, cot, " ");
    }
  }

  /** The five headings are plain. */
  lemma SectionOrderPlain()
    ensures PlainLabels(SectionOrder)
  {
    forall k | 0 <= k < |SectionOrder| ensures PlainHeading(SectionOrder[k].heading) {
      HeadingPlain(k);
    }
  }

  lemma HeadingPlain(k: nat)
    requires k < |SectionOrder|
    ensures PlainHeading(SectionOrder[k].heading)
  {
    var h := SectionOrder[k].heading;
    forall i | 0 <= i < |h| ensures h[i] != 'R' {
    }
  }

  lemma PresentSectionsPlain(kwargs: map<string, string>)
    ensures forall section :: section in PresentSections(kwargs) ==> section.key in kwargs
    ensures PlainLabels(PresentSections(kwargs))
  {
    PresentSectionsExactly(kwargs);
    SectionOrderPlain();
  }

  /** The user prompt is the sections of the given fields, each value with its own `RELEVANCE:`
      words replaced by the template, followed by the template and a space. */
  lemma UserPromptShape(kwargs: map<string, string>, cot: string)
    ensures forall section :: section in PresentSections(kwargs) ==> section.key in kwargs
    ensures UserPromptText(kwargs, cot) == Rendered(PresentSections(kwargs), kwargs, cot) + cot + " "
  {
    PresentSectionsPlain(kwargs);
    RenderedShape(PresentSections(kwargs), kwargs, cot);
  }

  /** `prompt_with_conversation_relevence_feedback` up to the model call: build the template, fill
      it in, replace the marker. */
  method AssembleUserPrompt(kwargs: map<string, string>, cot: string) returns (userPrompt: string)
    ensures forall section :: section in PresentSections(kwargs) ==> section.key in kwargs
    ensures userPrompt == UserPromptText(kwargs, cot)
    ensures userPrompt == Rendered(PresentSections(kwargs), kwargs, cot) + cot + " "
  {
    var template := BuildTemplate(kwargs);
    TemplateFormats(kwargs);
    var formatted := Format(template, kwargs);
    userPrompt := ReplaceAll(formatted.value, MarkerWord, cot);
    UserPromptShape(kwargs, cot);
  }
}
