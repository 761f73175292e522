/**
 * The session state the quiz tabs share: the generated quiz, its question
 * type, and the list of submitted scores. The Generate Questions tab may
 * replace the quiz; the Submit Assessment button appends one score.
 */
module AppSession {
  import opened Wrappers
  import opened Quizzes
  import opened Generation
  import opened Assessment

  class Session {
    var generatedQuiz: Option<Quiz>
    var questionType: Option<QuestionType>
    var userPerformance: seq<real>

    /** The quiz and its type are always set together. */
    ghost predicate Valid()
      reads this
    {
      generatedQuiz.Some? <==> questionType.Some?
    }

    /** A fresh session: no quiz, no type, no scores. */
    constructor ()
      ensures Valid()
      ensures generatedQuiz == None && questionType == None && userPerformance == []
    {
      generatedQuiz := None;
      questionType := None;
      userPerformance := [];
    }

    /**
     * Handles the generation chain's response for the selected question type.
     * The quiz and its type are overwritten only when the cleaned `quiz` text
     * decodes; on every other branch both keep their previous values. The
     * score history is never touched.
     */
    method Generate(response: Response, selected: QuestionType, decode: string -> Option<Quiz>)
      returns (outcome: Outcome)
      requires Valid()
      modifies this`generatedQuiz, this`questionType
      ensures Valid()
      ensures outcome == Interpret(response, decode)
      ensures outcome.Generated? ==> generatedQuiz == Some(outcome.quiz) && questionType == Some(selected)
      ensures !outcome.Generated? ==> generatedQuiz == old(generatedQuiz) && questionType == old(questionType)
      ensures userPerformance == old(userPerformance)
    {
      outcome := Interpret(response, decode);
      Record(outcome, selected);
    }

    /** Stores a generated quiz and its type; any other outcome leaves the session as it was. */
    method Record(outcome: Outcome, selected: QuestionType)
      requires Valid()
      modifies this`generatedQuiz, this`questionType
      ensures Valid()
      ensures outcome.Generated? ==> generatedQuiz == Some(outcome.quiz) && questionType == Some(selected)
      ensures !outcome.Generated? ==> generatedQuiz == old(generatedQuiz) && questionType == old(questionType)
    {
      if outcome.Generated? {
        generatedQuiz := Some(outcome.quiz);
        questionType := Some(selected);
      }
    }

    /**
     * The Take Assessment tab with the Submit Assessment button pressed: the
     * widgets' values (one per question, in quiz order) become answer records,
     * the quiz is graded, and the percentage is appended to the history.
     * Only the history changes, and it changes by exactly one entry at the end.
     */
    method Submit(inputs: seq<Option<string>>)
      returns (answers: map<string, AnswerRecord>, correct: nat, total: nat, feedback: seq<string>)
      requires Valid() && generatedQuiz.Some? && |generatedQuiz.value| > 0
      requires |inputs| == |generatedQuiz.value|
      requires forall i :: 0 <= i < |inputs| ==>
        var q := generatedQuiz.value[i].1;
        Selectable(questionType.value, q, inputs[i]) &&
        CanReport(questionType.value, q, RecordFor(questionType.value, q, inputs[i]))
      modifies this`userPerformance
      ensures Valid()
      ensures var quiz := generatedQuiz.value;
        && answers.Keys == KeysOf(quiz)
        && (forall i :: 0 <= i < |quiz| ==>
              answers[quiz[i].0] == RecordFor(questionType.value, quiz[i].1, inputs[i]))
        && total == |quiz| > 0
        && correct == CountCorrect(questionType.value, quiz, answers)
        && feedback == FeedbackLines(questionType.value, quiz, answers)
      ensures userPerformance == old(userPerformance) + [Percentage(correct, total)]
    {
      var quiz, qtype := generatedQuiz.value, questionType.value;
      answers := CollectAnswers(qtype, quiz, inputs);
      CollectedReportable(qtype, quiz, inputs, answers);
      correct, total, feedback := Evaluate(qtype, quiz, answers);
      userPerformance := userPerformance + [Percentage(correct, total)];
    }
  }
}
