/**
 * What the Generate Questions tab does with the generation chain's response:
 * clean the model's text, decode it, and decide whether the session's quiz is
 * replaced. JSON decoding itself is a parameter (`decode`), since its
 * internals are not part of this model.
 */
module Generation {
  import opened Wrappers
  import opened Text
  import opened Quizzes

  /** The artefact the model sometimes writes in front of its JSON. */
  const Marker := "### RESPONSE_JSON"

  /**
   * `quiz.strip("```").strip()` then `.replace("### RESPONSE_JSON", "", 1).strip()`:
   * the text handed to the JSON decoder. It never starts or ends with whitespace.
   */
  function Cleanup(raw: string): (r: string)
    ensures Trimmed(r, IsSpace)
  {
    var unfenced := Strip(Strip(raw, IsBacktick), IsSpace);
    Strip(RemoveFirst(unfenced, Marker), IsSpace)
  }

  /** Stripping the backticks alone leaves no backtick at either end. */
  lemma UnfencedHasNoEdgeBacktick(raw: string)
    ensures var u := Strip(raw, IsBacktick); u == [] || (u[0] != '`' && u[|u| - 1] != '`')
  {
  }

  /** `Cleanup` as its four stages, for proofs that compute each stage separately. */
  lemma CleanupStages(raw: string, unticked: string, trimmed: string, unmarked: string)
    requires Strip(raw, IsBacktick) == unticked
    requires Strip(unticked, IsSpace) == trimmed
    requires RemoveFirst(trimmed, Marker) == unmarked
    ensures Cleanup(raw) == Strip(unmarked, IsSpace)
  {
  }

  /**
   * The final text may still start with a backtick: the whitespace strip that
   * follows the backtick strip can expose one, as in "` `x".
   */
  lemma CleanupCanKeepBacktick(x: char)
    requires !IsSpace(x) && x != '`'
    ensures Cleanup(['`', ' ', '`', x]) == ['`', x]
  {
    var raw, unticked, trimmed := ['`', ' ', '`', x], [' ', '`', x], ['`', x];
    assert Strip(raw, IsBacktick) == unticked by {
      assert raw == ['`'] + unticked;
      StripDropsPrefix(['`'], unticked, IsBacktick);
      StripUntrimmed(unticked, IsBacktick);
    }
    assert Strip(unticked, IsSpace) == trimmed by {
      assert unticked == [' '] + trimmed;
      StripDropsPrefix([' '], trimmed, IsSpace);
      StripUntrimmed(trimmed, IsSpace);
    }
    assert RemoveFirst(trimmed, Marker) == trimmed by {
      FindTooLong(trimmed, Marker);
    }
    StripUntrimmed(trimmed, IsSpace);
    CleanupStages(raw, unticked, trimmed, trimmed);
  }

  /**
   * A closing fence followed by a newline survives: the backtick strip stops
   * at the final newline, and the whitespace strip that removes the newline
   * comes after it. So "```<body>\n```\n" is cleaned to "<body>\n```".
   */
  lemma CleanupTrailingNewlineKeepsFence(body: string)
    requires body != [] && !IsSpace(body[0]) && body[0] != '`'
    requires Find(body + "\n```", Marker).None?
    ensures Cleanup("```" + body + "\n```\n") == body + "\n```"
  {
    OpeningFenceRemoved(body);
    NewlineAfterFenceTrimmed(body);
    CleanupStages("```" + body + "\n```\n", body + "\n```\n", body + "\n```", body + "\n```");
  }

  /** The backtick strip removes the opening fence and stops at the final newline. */
  lemma OpeningFenceRemoved(body: string)
    requires body != [] && body[0] != '`'
    ensures Strip("```" + body + "\n```\n", IsBacktick) == body + "\n```\n"
  {
    var unticked := body + "\n```\n";
    assert "```" + body + "\n```\n" == "```" + unticked;
    assert unticked[0] == body[0];
    StripDropsPrefix("```", unticked, IsBacktick);
    StripUntrimmed(unticked, IsBacktick);
  }

  /** The whitespace strip removes the newline after the closing fence, and only it. */
  lemma NewlineAfterFenceTrimmed(body: string)
    requires body != [] && !IsSpace(body[0])
    ensures Strip(body + "\n```\n", IsSpace) == body + "\n```"
    ensures Strip(body + "\n```", IsSpace) == body + "\n```"
  {
    var kept := body + "\n```";
    assert body + "\n```\n" == kept + "\n";
    assert kept[0] == body[0] && kept[|kept| - 1] == '`';
    StripDropsSuffix(kept, "\n", IsSpace);
    StripUntrimmed(kept, IsSpace);
  }

  /** Text that is already bare JSON (no edge whitespace or backtick, no marker) is decoded as it is. */
  lemma CleanupKeepsBareJson(raw: string)
    requires raw == [] || (!IsSpace(raw[0]) && raw[0] != '`')
    requires raw == [] || (!IsSpace(raw[|raw| - 1]) && raw[|raw| - 1] != '`')
    requires Find(raw, Marker).None?
    ensures Cleanup(raw) == raw
  {
    StripUntrimmed(raw, IsBacktick);
    StripUntrimmed(raw, IsSpace);
  }

  /** The backtick strip removes the fences and nothing else. */
  lemma FencesRemoved(unfenced: string)
    requires unfenced != [] && unfenced[0] != '`'
    ensures Strip("```" + unfenced + "\n```", IsBacktick) == unfenced + "\n"
  {
    var inner := unfenced + "\n";
    assert "```" + unfenced + "\n```" == "```" + (inner + "```");
    StripDropsPrefix("```", inner + "```", IsBacktick);
    StripDropsSuffix(inner, "```", IsBacktick);
  }

  /** The marker at the very front is the occurrence that is removed. */
  lemma LeadingMarkerRemoved(rest: string)
    ensures RemoveFirst(Marker + rest, Marker) == rest
  {
    var s := Marker + rest;
    assert s[0..|Marker|] == Marker;
    OccursAtIff(s, Marker, 0);
    FindAtStart(s, Marker);
    assert s[|Marker|..] == rest;
  }

  /** One newline around a body without edge whitespace is trimmed away. */
  lemma NewlinesTrimmed(body: string)
    requires body != [] && !IsSpace(body[0]) && !IsSpace(body[|body| - 1])
    ensures Strip(body + "\n", IsSpace) == body
    ensures Strip("\n" + body, IsSpace) == body
  {
    StripDropsSuffix(body, "\n", IsSpace);
    StripDropsPrefix("\n", body, IsSpace);
    StripUntrimmed(body, IsSpace);
  }

  /**
   * A fenced answer with the marker in front, "```### RESPONSE_JSON\n<body>\n```",
   * is cleaned to exactly its body, whatever the body contains: a later
   * occurrence of the marker inside the body is kept.
   */
  lemma CleanupFencedAnswer(body: string)
    requires body != [] && !IsSpace(body[0]) && !IsSpace(body[|body| - 1])
    ensures Cleanup("```" + Marker + "\n" + body + "\n```") == body
  {
    var unmarked := "\n" + body;
    var unfenced := Marker + unmarked;
    var raw := "```" + unfenced + "\n```";
    assert raw == "```" + Marker + "\n" + body + "\n```";
    assert unfenced[0] == '#' && unfenced[|unfenced| - 1] == body[|body| - 1];
    FencesRemoved(unfenced);
    NewlinesTrimmed(unfenced);
    LeadingMarkerRemoved(unmarked);
    NewlinesTrimmed(body);
    CleanupStages(raw, unfenced + "\n", unfenced, unmarked);
  }

  /** The value the generation chain hands back, or the exception it raised. */
  datatype Response =
    | CallFailed         // `generate_evaluate_chain` raised
    | NotADict           // the result is not a `dict`
    | Dict(quiz: Option<string>)  // a `dict`; `quiz` is `response.get('quiz', None)`

  /** Which message the tab shows; only `Generated` replaces the session's quiz. */
  datatype Outcome =
    | Generated(quiz: Quiz)
    | GenerationError
    | UnexpectedFormat
    | QuizKeyMissing
    | ParseFailed(cleaned: string)

  /**
   * The branch structure of the response handling: a quiz is generated exactly
   * when the chain returned a dict with a `quiz` value whose cleaned text
   * decodes, and the generated quiz is that decoded value.
   */
  function Interpret(response: Response, decode: string -> Option<Quiz>): (r: Outcome)
    ensures r.Generated? <==>
      response.Dict? && response.quiz.Some? && decode(Cleanup(response.quiz.value)).Some?
    ensures r.Generated? ==> decode(Cleanup(response.quiz.value)) == Some(r.quiz)
    ensures r.ParseFailed? ==>
      response.Dict? && response.quiz.Some? &&
      r.cleaned == Cleanup(response.quiz.value) && decode(r.cleaned).None?
    ensures r.QuizKeyMissing? <==> response == Dict(None)
    ensures r.UnexpectedFormat? <==> response.NotADict?
    ensures r.GenerationError? <==> response.CallFailed?
  {
    match response
    case CallFailed => GenerationError
    case NotADict => UnexpectedFormat
    case Dict(None) => QuizKeyMissing
    case Dict(Some(raw)) =>
      var cleaned := Cleanup(raw);
      match decode(cleaned)
      case Some(quiz) => Generated(quiz)
      case None => ParseFailed(cleaned)
  }
}
