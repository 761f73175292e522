/**
 * The Take Assessment tab: turning the widgets' values into answer records,
 * and the Submit Assessment loop that counts correct answers and writes one
 * feedback line per question.
 */
module Assessment {
  import opened Wrappers
  import opened Text
  import opened Quizzes

  /** The record kept per question key: `{user_answer, correct_key, correct_answer}`. */
  datatype AnswerRecord = AnswerRecord(
    userAnswer: Option<string>,
    resolvedKey: Option<string>,
    correctAnswer: string)

  /** Python truthiness of an optional string: present and non-empty. */
  predicate Truthy(s: Option<string>) {
    s.Some? && s.value != ""
  }

  /**
   * The radio button offers exactly the option texts, so a selected
   * Multiple Choice answer is one of them; otherwise the reverse lookup's
   * `[0]` would raise on an empty list.
   */
  predicate Selectable(qtype: QuestionType, q: Question, input: Option<string>) {
    qtype == MultipleChoice && Truthy(input) ==> IndexOfText(OptionsOf(q), input.value).Some?
  }

  /**
   * `correct_key` for one question: the key of the first option whose text is
   * the selected answer (Multiple Choice), the lower-cased selection
   * (True/False), or nothing (Descriptive); nothing when no answer is selected.
   */
  function ResolveKey(qtype: QuestionType, q: Question, input: Option<string>): (k: Option<string>)
    requires Selectable(qtype, q, input)
    ensures k.Some? <==> qtype != Descriptive && Truthy(input)
    ensures k.Some? && qtype == MultipleChoice ==>
      exists i :: 0 <= i < |OptionsOf(q)| && OptionsOf(q)[i] == (k.value, input.value) &&
        forall j :: 0 <= j < i ==> OptionsOf(q)[j].1 != input.value
    ensures k.Some? && qtype == TrueFalse ==> k.value == Lower(input.value)
  {
    if !Truthy(input) then None
    else match qtype
      case MultipleChoice => Some(OptionsOf(q)[IndexOfText(OptionsOf(q), input.value).value].0)
      case TrueFalse => Some(Lower(input.value))
      case Descriptive => None
  }

  /**
   * The record built for one question: the widget value, its resolved key, and
   * the answer it is compared with (the lower-cased `correct`, or for
   * Descriptive the `solution`; an absent field reads as "").
   */
  function RecordFor(qtype: QuestionType, q: Question, input: Option<string>): (rec: AnswerRecord)
    requires Selectable(qtype, q, input)
    ensures rec.userAnswer == input && rec.resolvedKey == ResolveKey(qtype, q, input)
    ensures qtype != Descriptive ==> rec.correctAnswer == Lower(q.correct.GetOr(""))
    ensures qtype == Descriptive ==> rec.correctAnswer == q.solution.GetOr("")
  {
    AnswerRecord(
      input,
      ResolveKey(qtype, q, input),
      if qtype != Descriptive then Lower(q.correct.GetOr("")) else q.solution.GetOr(""))
  }

  /** The set of question keys of a quiz. */
  function KeysOf(quiz: seq<(string, Question)>): set<string> {
    set i | 0 <= i < |quiz| :: quiz[i].0
  }

  lemma KeysOfSnoc(quiz: seq<(string, Question)>, n: nat)
    requires n < |quiz|
    ensures KeysOf(quiz[..n + 1]) == KeysOf(quiz[..n]) + {quiz[n].0}
  {
    var pre, pre' := quiz[..n], quiz[..n + 1];
    assert forall i :: 0 <= i < n ==> pre'[i] == pre[i];
    assert pre'[n] == quiz[n];
  }

  /**
   * The loop that fills `user_answers`: one record per question key, built
   * from that question and the value of its widget (`inputs` is in quiz order).
   */
  method CollectAnswers(qtype: QuestionType, quiz: Quiz, inputs: seq<Option<string>>)
    returns (answers: map<string, AnswerRecord>)
    requires |inputs| == |quiz|
    requires forall i :: 0 <= i < |quiz| ==> Selectable(qtype, quiz[i].1, inputs[i])
    ensures answers.Keys == KeysOf(quiz)
    ensures forall i :: 0 <= i < |quiz| ==> answers[quiz[i].0] == RecordFor(qtype, quiz[i].1, inputs[i])
  {
    answers := map[];
    for n := 0 to |quiz|
      invariant answers.Keys == KeysOf(quiz[..n])
      invariant forall i :: 0 <= i < n ==> quiz[i].0 in answers && answers[quiz[i].0] == RecordFor(qtype, quiz[i].1, inputs[i])
    {
      var key := quiz[n].0;
      KeysOfSnoc(quiz, n);
      answers := answers[key := RecordFor(qtype, quiz[n].1, inputs[n])];
    }
    assert quiz[..|quiz|] == quiz;
  }

  /** `user_answers.get(key, {})` read field by field with the defaults "" of the submit loop. */
  function AnswerOf(answers: map<string, AnswerRecord>, key: string): (rec: AnswerRecord)
    ensures key in answers ==> rec == answers[key]
    ensures key !in answers ==> rec == AnswerRecord(Some(""), Some(""), "")
  {
    if key in answers then answers[key] else AnswerRecord(Some(""), Some(""), "")
  }

  /**
   * When an answer counts: a Multiple Choice or True/False answer is correct when its
   * resolved key is non-empty and, lower-cased, equals the lower-cased
   * `correct`; a Descriptive answer is never counted correct.
   */
  predicate IsCorrect(qtype: QuestionType, rec: AnswerRecord) {
    qtype != Descriptive && Truthy(rec.resolvedKey) && Lower(rec.resolvedKey.value) == rec.correctAnswer
  }

  /** Feedback can be written without a KeyError for this question. */
  predicate CanReport(qtype: QuestionType, q: Question, rec: AnswerRecord) {
    qtype == Descriptive || IsCorrect(qtype, rec) || DisplayDefined(q)
  }

  predicate Reportable(qtype: QuestionType, quiz: seq<(string, Question)>, answers: map<string, AnswerRecord>) {
    forall i :: 0 <= i < |quiz| ==> CanReport(qtype, quiz[i].1, AnswerOf(answers, quiz[i].0))
  }

  /** Answers collected from reportable selections can be reported. */
  lemma CollectedReportable(qtype: QuestionType, quiz: Quiz, inputs: seq<Option<string>>, answers: map<string, AnswerRecord>)
    requires |inputs| == |quiz|
    requires forall i :: 0 <= i < |quiz| ==>
      Selectable(qtype, quiz[i].1, inputs[i]) && CanReport(qtype, quiz[i].1, RecordFor(qtype, quiz[i].1, inputs[i]))
    requires forall i :: 0 <= i < |quiz| ==>
      quiz[i].0 in answers && answers[quiz[i].0] == RecordFor(qtype, quiz[i].1, inputs[i])
    ensures Reportable(qtype, quiz, answers)
  {
    forall i | 0 <= i < |quiz|
      ensures CanReport(qtype, quiz[i].1, AnswerOf(answers, quiz[i].0))
    {
      assert AnswerOf(answers, quiz[i].0) == RecordFor(qtype, quiz[i].1, inputs[i]);
    }
  }

  /** Python's f-string rendering of an optional string. */
  function Show(s: Option<string>): string {
    match s
    case None => "None"
    case Some(v) => v
  }

  /** The opening every feedback line shares. */
  function FeedbackHead(key: string): string {
    "Question " + key + ": "
  }

  /**
   * The feedback line for one question: "Question <key>: " followed by
   * "Correct", by the correct option's text (or the raw `correct` when the
   * question has no options) after a wrong answer, or, for Descriptive, by the
   * user's answer and the suggested solution.
   */
  function FeedbackLine(qtype: QuestionType, key: string, q: Question, rec: AnswerRecord): (line: string)
    requires CanReport(qtype, q, rec)
    ensures |FeedbackHead(key)| <= |line| && line[..|FeedbackHead(key)|] == FeedbackHead(key)
    ensures qtype != Descriptive && IsCorrect(qtype, rec) ==> line == FeedbackHead(key) + "Correct"
    ensures qtype != Descriptive && !IsCorrect(qtype, rec) ==>
      line == FeedbackHead(key) + "Incorrect. The correct answer is " + CorrectDisplay(q)
    ensures qtype == Descriptive ==>
      line == FeedbackHead(key) + "Your answer - " + Show(rec.userAnswer) + "\nSuggested answer - " + rec.correctAnswer
  {
    var head := FeedbackHead(key);
    var tail :=
      if qtype == Descriptive then "Your answer - " + Show(rec.userAnswer) + "\nSuggested answer - " + rec.correctAnswer
      else if IsCorrect(qtype, rec) then "Correct"
      else "Incorrect. The correct answer is " + CorrectDisplay(q);
    assert (head + tail)[..|head|] == head;
    head + tail
  }

  /** The number of correctly answered questions: never more than there are questions. */
  function CountCorrect(qtype: QuestionType, quiz: seq<(string, Question)>, answers: map<string, AnswerRecord>): (n: nat)
    ensures n <= |quiz|
  {
    if quiz == [] then 0
    else
      var last := quiz[|quiz| - 1];
      CountCorrect(qtype, quiz[..|quiz| - 1], answers) + if IsCorrect(qtype, AnswerOf(answers, last.0)) then 1 else 0
  }

  /** The feedback list: exactly one line per question, in quiz order. */
  function FeedbackLines(qtype: QuestionType, quiz: seq<(string, Question)>, answers: map<string, AnswerRecord>): (lines: seq<string>)
    requires Reportable(qtype, quiz, answers)
    ensures |lines| == |quiz|
    ensures forall i :: 0 <= i < |quiz| ==>
      lines[i] == FeedbackLine(qtype, quiz[i].0, quiz[i].1, AnswerOf(answers, quiz[i].0))
  {
    if quiz == [] then []
    else
      var last := quiz[|quiz| - 1];
      FeedbackLines(qtype, quiz[..|quiz| - 1], answers) + [FeedbackLine(qtype, last.0, last.1, AnswerOf(answers, last.0))]
  }

  /**
   * The Submit Assessment loop: counts the correct answers and collects the
   * feedback lines, question by question in quiz order.
   */
  method Evaluate(qtype: QuestionType, quiz: Quiz, answers: map<string, AnswerRecord>)
    returns (correct: nat, total: nat, feedback: seq<string>)
    requires Reportable(qtype, quiz, answers)
    ensures total == |quiz| && correct <= total && |feedback| == total
    ensures correct == CountCorrect(qtype, quiz, answers)
    ensures feedback == FeedbackLines(qtype, quiz, answers)
  {
    total := |quiz|;
    correct := 0;
    feedback := [];
    for n := 0 to |quiz|
      invariant correct == CountCorrect(qtype, quiz[..n], answers)
      invariant feedback == FeedbackLines(qtype, quiz[..n], answers)
    {
      var (key, q) := quiz[n];
      var rec := AnswerOf(answers, key);
      EvaluateStep(qtype, quiz, answers, n);
      if IsCorrect(qtype, rec) {
        correct := correct + 1;
      }
      feedback := feedback + [FeedbackLine(qtype, key, q, rec)];
    }
    assert quiz[..|quiz|] == quiz;
  }

  /** One more question graded: its count and its feedback line are added at the end. */
  lemma EvaluateStep(qtype: QuestionType, quiz: seq<(string, Question)>, answers: map<string, AnswerRecord>, n: nat)
    requires Reportable(qtype, quiz, answers) && n < |quiz|
    ensures Reportable(qtype, quiz[..n], answers) && Reportable(qtype, quiz[..n + 1], answers)
    ensures var rec := AnswerOf(answers, quiz[n].0);
      && CountCorrect(qtype, quiz[..n + 1], answers) ==
           CountCorrect(qtype, quiz[..n], answers) + (if IsCorrect(qtype, rec) then 1 else 0)
      && FeedbackLines(qtype, quiz[..n + 1], answers) ==
           FeedbackLines(qtype, quiz[..n], answers) + [FeedbackLine(qtype, quiz[n].0, quiz[n].1, rec)]
  {
    assert quiz[..n + 1][..n] == quiz[..n];
    assert quiz[..n + 1][n] == quiz[n];
  }

  /** Every question is counted correct exactly when every answer is correct. */
  lemma {:induction false} AllCorrectIff(qtype: QuestionType, quiz: seq<(string, Question)>, answers: map<string, AnswerRecord>)
    ensures CountCorrect(qtype, quiz, answers) == |quiz| <==>
      forall i :: 0 <= i < |quiz| ==> IsCorrect(qtype, AnswerOf(answers, quiz[i].0))
  {
    if quiz != [] {
      var init := quiz[..|quiz| - 1];
      AllCorrectIff(qtype, init, answers);
      assert forall i :: 0 <= i < |init| ==> init[i] == quiz[i];
    }
  }

  /** A Descriptive quiz always scores zero. */
  lemma {:induction false} DescriptiveScoresZero(quiz: seq<(string, Question)>, answers: map<string, AnswerRecord>)
    ensures CountCorrect(Descriptive, quiz, answers) == 0
  {
    if quiz != [] {
      DescriptiveScoresZero(quiz[..|quiz| - 1], answers);
    }
  }

  /** `(correct_answers / total_questions) * 100`, as an exact rational. */
  function Percentage(correct: nat, total: nat): (p: real)
    requires total > 0
    ensures correct <= total ==> 0.0 <= p <= 100.0
    ensures p == 100.0 <==> correct == total
    ensures p == 0.0 <==> correct == 0
  {
    (correct as real / total as real) * 100.0
  }

  /**
   * Selecting the text of the correct option scores the question, provided
   * `correct` is a non-empty option key and no earlier option has the same text.
   */
  lemma ChoosingCorrectOptionScores(q: Question, c: string, i: nat)
    requires q.options.Some? && q.correct == Some(c) && c != ""
    requires IndexOfKey(q.options.value, c) == Some(i)
    requires IndexOfText(q.options.value, q.options.value[i].1) == Some(i)
    requires q.options.value[i].1 != ""
    ensures var input := Some(q.options.value[i].1);
      Selectable(MultipleChoice, q, input) && IsCorrect(MultipleChoice, RecordFor(MultipleChoice, q, input))
  {
    var input := Some(q.options.value[i].1);
    assert ResolveKey(MultipleChoice, q, input) == Some(c);
  }

  /**
   * For a True/False selection, the question is correct exactly when the
   * selection and `correct` agree after lower-casing.
   */
  lemma TrueFalseCorrectIff(q: Question, choice: string)
    requires choice == "True" || choice == "False"
    ensures IsCorrect(TrueFalse, RecordFor(TrueFalse, q, Some(choice))) <==>
      Lower(choice) == Lower(q.correct.GetOr(""))
  {
    LowerIdempotent(choice);
  }
}
