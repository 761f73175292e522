/**
 * The Export Quiz as PDF button: the sequence of text lines written to the
 * document, one block per question in quiz order.
 */
module Export {
  import opened Wrappers
  import opened Quizzes

  /**
   * The export's lookup `q['options'][q['correct']]` does not raise: for
   * Multiple Choice and True/False questions, `options` and `correct` are
   * present and `correct` is one of the option keys.
   */
  predicate Exportable(qtype: QuestionType, q: Question) {
    qtype == Descriptive ||
    (q.options.Some? && q.correct.Some? && HasKey(q.options.value, q.correct.value))
  }

  /** One line "<key>. <text>" per option, in option order. */
  function OptionLines(opts: seq<(string, string)>): (lines: seq<string>)
    ensures |lines| == |opts|
    ensures forall j :: 0 <= j < |opts| ==> lines[j] == opts[j].0 + ". " + opts[j].1
  {
    if opts == [] then [] else [opts[0].0 + ". " + opts[0].1] + OptionLines(opts[1..])
  }

  function QuestionLine(key: string, q: Question): string {
    "Question " + key + ": " + QuestionText(q)
  }

  /**
   * The block for one question: its question line, then the solution
   * (Descriptive) or the option lines followed by the correct option's text.
   */
  function Block(qtype: QuestionType, key: string, q: Question): seq<string>
    requires Exportable(qtype, q)
  {
    if qtype == Descriptive then
      [QuestionLine(key, q), "Solution: " + q.solution.GetOr("")]
    else
      [QuestionLine(key, q)] + OptionLines(q.options.value) + ["Correct Answer: " + CorrectDisplay(q)]
  }

  /**
   * A Descriptive block is the question line and the solution line; any other
   * block has one line per option, in option order, between the question line
   * and a last line naming the correct option's text.
   */
  lemma BlockShape(qtype: QuestionType, key: string, q: Question)
    requires Exportable(qtype, q)
    ensures var b := Block(qtype, key, q);
      && |b| >= 2 && b[0] == QuestionLine(key, q)
      && (qtype == Descriptive ==> b == [QuestionLine(key, q), "Solution: " + q.solution.GetOr("")])
      && (qtype != Descriptive ==>
            && |b| == |q.options.value| + 2
            && b[1..|b| - 1] == OptionLines(q.options.value)
            && b[|b| - 1] == "Correct Answer: " + CorrectDisplay(q))
  {
    var b := Block(qtype, key, q);
    if qtype != Descriptive {
      assert b[1..|b| - 1] == OptionLines(q.options.value);
    }
  }

  predicate AllExportable(qtype: QuestionType, quiz: seq<(string, Question)>) {
    forall i :: 0 <= i < |quiz| ==> Exportable(qtype, quiz[i].1)
  }

  /** The lines of consecutive blocks, one after the other. */
  function Flatten(bs: seq<seq<string>>): seq<string> {
    if bs == [] then [] else bs[0] + Flatten(bs[1..])
  }

  /** Block `i` sits between the lines of the blocks before it and those after it. */
  lemma {:induction false} FlattenAt(bs: seq<seq<string>>, i: nat)
    requires i < |bs|
    ensures Flatten(bs) == Flatten(bs[..i]) + bs[i] + Flatten(bs[i + 1..])
  {
    if i == 0 {
      assert bs[..0] == [];
    } else {
      FlattenAt(bs[1..], i - 1);
      assert bs[1..][..i - 1] == bs[..i][1..];
      assert bs[1..][i - 1] == bs[i] && bs[1..][i..] == bs[i + 1..];
      assert bs[..i][0] == bs[0];
    }
  }

  /** Blocks of `k` lines each give `k` lines per block. */
  lemma {:induction false} FlattenUniform(bs: seq<seq<string>>, k: nat)
    requires forall i :: 0 <= i < |bs| ==> |bs[i]| == k
    ensures |Flatten(bs)| == k * |bs|
  {
    if bs != [] {
      FlattenUniform(bs[1..], k);
    }
  }

  /** The block of each question, in quiz order. */
  function Blocks(qtype: QuestionType, quiz: seq<(string, Question)>): (bs: seq<seq<string>>)
    requires AllExportable(qtype, quiz)
    ensures |bs| == |quiz|
  {
    seq(|quiz|, i requires 0 <= i < |quiz| => Block(qtype, quiz[i].0, quiz[i].1))
  }

  /** The lines written to the PDF: the questions' blocks, concatenated in quiz order. */
  function ExportLines(qtype: QuestionType, quiz: seq<(string, Question)>): seq<string>
    requires AllExportable(qtype, quiz)
  {
    Flatten(Blocks(qtype, quiz))
  }

  /**
   * Question `i`'s block sits right after the blocks of the questions before it
   * and right before those of the questions after it.
   */
  lemma ExportBlockAt(qtype: QuestionType, quiz: seq<(string, Question)>, i: nat)
    requires AllExportable(qtype, quiz) && i < |quiz|
    ensures var bs := Blocks(qtype, quiz);
      ExportLines(qtype, quiz) == Flatten(bs[..i]) + Block(qtype, quiz[i].0, quiz[i].1) + Flatten(bs[i + 1..])
  {
    FlattenAt(Blocks(qtype, quiz), i);
  }

  /**
   * The line at the start of question `i`'s block names it and its text; for
   * Multiple Choice and True/False the block's last line names the correct
   * option's text, for Descriptive the solution.
   */
  lemma ExportedQuestion(qtype: QuestionType, quiz: seq<(string, Question)>, i: nat)
    requires AllExportable(qtype, quiz) && i < |quiz|
    ensures var start := |Flatten(Blocks(qtype, quiz)[..i])|;
      var end := start + |Block(qtype, quiz[i].0, quiz[i].1)|;
      var lines := ExportLines(qtype, quiz);
      && end <= |lines|
      && lines[start] == QuestionLine(quiz[i].0, quiz[i].1)
      && (qtype != Descriptive ==> lines[end - 1] == "Correct Answer: " + CorrectDisplay(quiz[i].1))
      && (qtype == Descriptive ==> lines[end - 1] == "Solution: " + quiz[i].1.solution.GetOr(""))
  {
    ExportBlockAt(qtype, quiz, i);
    BlockShape(qtype, quiz[i].0, quiz[i].1);
  }

  /** A Descriptive export has exactly two lines per question. */
  lemma DescriptiveExportLength(quiz: seq<(string, Question)>)
    ensures |ExportLines(Descriptive, quiz)| == 2 * |quiz|
  {
    FlattenUniform(Blocks(Descriptive, quiz), 2);
  }
}
