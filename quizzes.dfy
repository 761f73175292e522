/**
 * The decoded quiz: a JSON object from question key to question, kept as an
 * ordered sequence of pairs so that the dictionary's insertion order is the
 * order in which questions are shown, graded and exported.
 */
module Quizzes {
  import opened Wrappers

  /** The three values of the question-type radio button. */
  datatype QuestionType = MultipleChoice | TrueFalse | Descriptive

  /** No key occurs twice: the sequence reads as a Python dictionary. */
  predicate DistinctKeys<V>(s: seq<(string, V)>) {
    forall i, j :: 0 <= i < j < |s| ==> s[i].0 != s[j].0
  }

  /** A question's `options` object: option key (`"a"`, `"b"`, ...) to option text, in order. */
  type Options = o: seq<(string, string)> | DistinctKeys(o)

  /**
   * One question object. Each field is `None` when the key is absent from the
   * object; which fields are present depends on what the model produced.
   */
  datatype Question = Question(
    question: Option<string>,
    mcq: Option<string>,
    options: Option<Options>,
    correct: Option<string>,
    solution: Option<string>)

  /** A whole decoded quiz: question key to question, in order. */
  type Quiz = q: seq<(string, Question)> | DistinctKeys(q)

  /** The index of `key` in an ordered dictionary (the key lookup `d[key]`). */
  function IndexOfKey<V>(s: seq<(string, V)>, key: string): (r: Option<nat>)
    ensures r.Some? ==> r.value < |s| && s[r.value].0 == key
    ensures r.None? ==> forall i :: 0 <= i < |s| ==> s[i].0 != key
  {
    if s == [] then None
    else if s[0].0 == key then Some(0)
    else match IndexOfKey(s[1..], key)
      case None => None
      case Some(i) => Some(i + 1)
  }

  /** `key in d` for an ordered dictionary. */
  predicate HasKey<V>(s: seq<(string, V)>, key: string) {
    exists i :: 0 <= i < |s| && s[i].0 == key
  }

  /**
   * The index of the first option, in option order, whose text is `text`:
   * what `[k for k, v in choices.items() if v == text]` starts with.
   */
  function IndexOfText(opts: seq<(string, string)>, text: string): (r: Option<nat>)
    ensures r.Some? ==> r.value < |opts| && opts[r.value].1 == text
    ensures r.Some? ==> forall j :: 0 <= j < r.value ==> opts[j].1 != text
    ensures r.None? ==> forall j :: 0 <= j < |opts| ==> opts[j].1 != text
  {
    if opts == [] then None
    else if opts[0].1 == text then Some(0)
    else match IndexOfText(opts[1..], text)
      case None => None
      case Some(i) => Some(i + 1)
  }

  /** In a dictionary, the key at index `i` is found at index `i`. */
  lemma {:induction false} IndexOfOwnKey<V>(s: seq<(string, V)>, i: nat)
    requires DistinctKeys(s) && i < |s|
    ensures IndexOfKey(s, s[i].0) == Some(i)
  {
    if i > 0 {
      assert s[0].0 != s[i].0;
      assert s[1..][i - 1] == s[i];
      IndexOfOwnKey(s[1..], i - 1);
    }
  }

  /** The options of a question, `{}` when it has none (`q.get('options', {})`). */
  function OptionsOf(q: Question): Options {
    q.options.GetOr([])
  }

  const QuestionNotFound := "Question text not found."

  /**
   * `q.get('question') or q.get('mcq') or 'Question text not found.'`: the
   * first of the two text fields that is present and non-empty, else the
   * placeholder. The result is never empty.
   */
  function QuestionText(q: Question): (t: string)
    ensures t != ""
    ensures t == QuestionNotFound || Some(t) == q.question || Some(t) == q.mcq
    ensures q.question.Some? && q.question.value != "" ==> Some(t) == q.question
    ensures (q.question.None? || q.question.value == "") && q.mcq.Some? && q.mcq.value != "" ==>
      Some(t) == q.mcq
  {
    if q.question.Some? && q.question.value != "" then q.question.value
    else if q.mcq.Some? && q.mcq.value != "" then q.mcq.value
    else QuestionNotFound
  }

  /**
   * The lookup the feedback needs for an incorrectly answered question does
   * not raise: `correct` is present and, when the question has `options`,
   * it is one of their keys.
   */
  predicate DisplayDefined(q: Question) {
    q.correct.Some? && (q.options.Some? ==> HasKey(q.options.value, q.correct.value))
  }

  /**
   * `q['options'][q['correct']] if 'options' in q else q['correct']`: the text
   * of the correct option when the question has options, the raw `correct`
   * value otherwise.
   */
  function CorrectDisplay(q: Question): (t: string)
    requires DisplayDefined(q)
    ensures q.options.Some? ==> (q.correct.value, t) in q.options.value
    ensures q.options.None? ==> t == q.correct.value
  {
    match q.options
    case None => q.correct.value
    case Some(opts) => opts[IndexOfKey(opts, q.correct.value).value].1
  }
}
