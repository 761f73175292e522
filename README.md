# Quiz lifecycle of the study-assistant app

This project models the quiz logic that `app.py` runs inline in its Streamlit
tabs, and proves properties of that model:

- **Generate Questions**: the language model's `quiz` text is cleaned (fences,
  whitespace and the first `### RESPONSE_JSON` marker removed) and decoded. The
  session's quiz and question type are replaced only when decoding succeeds.
- **Take Assessment**: one answer record is built per question. Multiple Choice
  resolves the selected option text back to its key. True/False lower-cases the
  selection. Descriptive resolves nothing.
- **Submit Assessment**: a loop counts correct answers and writes one feedback
  line per question. The percentage is then appended to the score history.
- **Performance Tracking**: the average of the score history, shown only when
  the history is non-empty.
- **Export Quiz as PDF**: the sequence of text lines written for each question.

Modules, one file each:

- `Wrappers`: `Option`.
- `Text`: Python's `strip`, `find`, `replace(old, "", 1)` and `lower` on strings.
- `Quizzes`: the decoded quiz as an ordered sequence of `(key, Question)`
  pairs with distinct keys, the question-text fallback, and the
  correct-answer display text.
- `Generation`: the cleanup and the response branches.
- `Assessment`: answer records, the scoring loop, feedback and the percentage.
- `Performance`: sum and average of the history.
- `Export`: the PDF line list.
- `AppSession`: the `Session` class. It holds `generated_quiz`,
  `question_type` and `user_performance` and updates them in place.

External pieces are parameters:

- The generation chain's reply is a `Response` value: it raised, it is not a
  dict, or it is a dict with or without `quiz`.
- `json.loads` is a function `decode: string -> Option<Quiz>`.
- The widgets' values are a sequence `inputs`, one per question in quiz order.

Places where the code raises are stated as preconditions:

- `Selectable`: the `[0]` on an empty list at line 185.
- `CanReport`: the `q['options'][q['correct']]` lookup at line 215.
- `Exportable`: the same lookup at line 263.

Two behaviours of the code are modelled as written:

- Every submission appends a score to the history, Descriptive included.
  `Assessment.DescriptiveScoresZero` shows that this score is always 0.
  This differs from a reading in which Descriptive quizzes are feedback-only.
- Cleanup does not guarantee that no backtick is left at the edges.
  `Generation.UnfencedHasNoEdgeBacktick` holds only after the first strip. The
  later whitespace strip can expose a backtick again:
  - `Generation.CleanupCanKeepBacktick`: "` `x" becomes "`x".
  - `Generation.CleanupTrailingNewlineKeepsFence`: a reply that ends in a
    closing fence and a newline keeps the closing fence. It is decoded with
    the "```" still attached.

## Model

| member | source | states |
|---|---|---|
| Text.Strip | app.py:148-149 | `strip(chars)` / `strip()`: the result neither starts nor ends with a character of the stripped set |
| Text.StripIsTrim | app.py:148-149 | strip removes only stripped-set characters and only at the ends: the result is a slice `s[i..j]`, and everything outside it is in the set |
| Text.StripUntrimmed | app.py:148-149 | a string whose two ends are not in the set is returned unchanged |
| Text.StripDropsPrefix | app.py:148-149 | any run of set characters in front of a string is removed entirely |
| Text.StripDropsSuffix | app.py:148-149 | any run of set characters behind a string is removed entirely |
| Text.FindFrom | app.py:149 | `find`: when it returns an index, the pattern occurs there and at no earlier index; when it returns nothing, the pattern occurs nowhere |
| Text.FindTooLong | app.py:149 | a pattern longer than the text is never found |
| Text.FindAtStart | app.py:149 | a text starting with the pattern finds it at index 0 |
| Text.RemoveFirst | app.py:149 | `replace(pat, "", 1)`: unchanged when the pattern is absent; otherwise the first occurrence is cut out, with everything before and after it kept |
| Text.LaterOccurrencesKept | app.py:149 | only the first marker is removed: every occurrence after it is still present, shifted left by the marker's length |
| Text.Lower | app.py:188 | `lower()`: same length, every character lower-cased |
| Text.LowerIdempotent | app.py:211 | lower-casing an already lower-cased key changes nothing, so the comparison at line 211 sees the key as resolved |
| Quizzes.IndexOfKey | app.py:215 | dictionary lookup by key: found at an index holding that key, or absent from every index |
| Quizzes.IndexOfOwnKey | app.py:215 | in a dictionary with distinct keys, each key is found at its own position |
| Quizzes.IndexOfText | app.py:185 | the reverse lookup's first element: the first option, in option order, whose text is the answer, or none when no option has it |
| Quizzes.QuestionText | app.py:178 | the `or` fallback: non-empty `question`, else non-empty `mcq`, else "Question text not found."; never empty |
| Quizzes.CorrectDisplay | app.py:215 | with `options`, the text paired with the `correct` key in the options; without them, the raw `correct` |
| Generation.Cleanup | app.py:148-149 | the cleaned text never starts or ends with whitespace |
| Generation.UnfencedHasNoEdgeBacktick | app.py:148 | after `strip("```")` no backtick is left at either end |
| Generation.CleanupCanKeepBacktick | app.py:148-149 | the final text can still start with a backtick: "` `x" is cleaned to "`x" |
| Generation.CleanupTrailingNewlineKeepsFence | app.py:148-149 | "```<body>\n```\n" is cleaned to "<body>\n```": a newline after the closing fence keeps the fence |
| Generation.CleanupKeepsBareJson | app.py:148-149 | text with no edge whitespace or backtick and no marker is passed to the decoder unchanged |
| Generation.FencesRemoved | app.py:148 | the backtick strip removes the opening and closing fences and nothing else |
| Generation.LeadingMarkerRemoved | app.py:149 | a marker at the very front is the occurrence that is removed |
| Generation.NewlinesTrimmed | app.py:148-149 | a newline next to a body without edge whitespace is trimmed away |
| Generation.CleanupFencedAnswer | app.py:148-149 | "```### RESPONSE_JSON\n<body>\n```" is cleaned to exactly `<body>`, including any later marker inside the body |
| Generation.Interpret | app.py:144-164 | a quiz is generated exactly when the reply is a dict with a `quiz` value whose cleaned text decodes, and the quiz is the decoded value; each error message maps one-to-one to its branch |
| AppSession.Session.constructor | app.py:32-36 | a fresh session has no quiz, no type and an empty history |
| AppSession.Session.Generate | app.py:144-164 | the outcome is `Interpret`'s; quiz and type are set to the decoded quiz and the selected type on success and keep their old values on every failure branch; the history is untouched |
| AppSession.Session.Record | app.py:152-153 | both session entries are written together on success and not at all otherwise |
| AppSession.Session.Submit | app.py:199-224 | answers hold one record per question; total is the number of questions, which is positive; the count and the feedback equal `CountCorrect` and `FeedbackLines`; the history gains exactly one entry at the end and earlier entries are unchanged |
| Assessment.ResolveKey | app.py:182-191 | a key exactly when the type is not Descriptive and an answer is selected; for Multiple Choice, the key of the first option whose text is the answer; for True/False, the lower-cased selection |
| Assessment.RecordFor | app.py:193-197 | the record holds the widget value, its resolved key, and the lower-cased `correct` (or for Descriptive the `solution`), with an absent field read as "" |
| Assessment.CollectAnswers | app.py:174-197 | the map's keys are exactly the quiz keys, and each key holds the record built from its question and its widget value |
| Assessment.AnswerOf | app.py:205-208 | a stored record is read as stored; a missing key reads as the defaults "" |
| Assessment.FeedbackLine | app.py:210-218 | each line starts "Question <key>: "; then "Correct", or "Incorrect. The correct answer is " plus the display text, or for Descriptive the echoed answer and the suggested answer |
| Assessment.CountCorrect | app.py:204-212 | the number of correct answers never exceeds the number of questions |
| Assessment.FeedbackLines | app.py:204-218 | exactly one feedback line per question, in quiz order, and line `i` is question `i`'s line |
| Assessment.Evaluate | app.py:199-218 | the loop returns total = number of questions, a count equal to `CountCorrect`, and feedback equal to `FeedbackLines` |
| Assessment.AllCorrectIff | app.py:210-212 | the count equals the number of questions if and only if every answer is correct |
| Assessment.DescriptiveScoresZero | app.py:210-218 | a Descriptive quiz always counts zero correct answers |
| Assessment.Percentage | app.py:220 | the score lies in [0, 100]; it is 100 exactly when every answer is correct and 0 exactly when none is |
| Assessment.ChoosingCorrectOptionScores | app.py:183-212 | selecting the text of the `correct` option (the first option with that text) is selectable and is graded correct |
| Assessment.TrueFalseCorrectIff | app.py:186-212 | a True/False selection is graded correct exactly when it agrees with `correct` after lower-casing |
| Performance.Average | app.py:278 | `sum / len`: the average times the number of scores equals the sum |
| Performance.ShownAverage | app.py:274-279 | no average when the history is empty; otherwise an average consistent with the sum |
| Performance.SumBounds | app.py:278 | scores in [lo, hi] sum to between len·lo and len·hi |
| Performance.AverageWithin | app.py:278 | the average of scores in [lo, hi] is in [lo, hi], so an average of percentages is a percentage |
| Performance.SumAppend | app.py:224 | appending a score adds exactly that score to the sum |
| Performance.AverageExample | app.py:278 | the history [80, 60, 100] averages 80 |
| Export.OptionLines | app.py:261-262 | one "<key>. <text>" line per option, in option order |
| Export.BlockShape | app.py:256-263 | a question's block starts with "Question <key>: <text>"; a Descriptive block then has one solution line; any other block has the option lines and then "Correct Answer: <display text>" |
| Export.ExportBlockAt | app.py:255-263 | the document is the blocks of the questions before `i`, then question `i`'s block, then the blocks of the questions after it |
| Export.ExportedQuestion | app.py:255-263 | at the start of question `i`'s block is its question line, and its last line names the correct option's text (or the solution for Descriptive) |
| Export.DescriptiveExportLength | app.py:255-259 | a Descriptive export has exactly two lines per question |

## Left out

- Streamlit widgets, tabs, rendering and the `st.*` messages. Each message
  is an `Outcome` constructor or the absence of an average, not a string.
- The language-model calls and their token logging. The reply is a `Response`
  parameter.
- How `json.loads` works. Decoding is the `decode` parameter, which returns a
  quiz or fails. JSON values other than an object of question objects with
  string fields are not modelled, and neither is a decoded value that is not
  a dict.
- The Review Quiz display lines (app.py:230-248). They are not part of the
  modelled core.
- Floating-point division and the `:.2f` formatting. Percentages and averages
  are exact reals.
- FPDF rendering, latin1 encoding, base64 and the download link. Export is
  modelled only as its list of lines.
- File reading, the response templates, notes, audio and bcrypt authentication.
  These are I/O or foreign libraries.
- Text.Lower: only ASCII `A`–`Z` are lower-cased. Python's `lower()` also
  maps non-ASCII letters, which this model leaves unchanged.
- Generation.Cleanup: the contract promises no edge whitespace only. No
  edge backtick is not promised, because the code does not achieve it.
  `Generation.CleanupCanKeepBacktick` and
  `Generation.CleanupTrailingNewlineKeepsFence` show this.
- The crash paths themselves are preconditions and not modelled as
  behaviours: the `[0]` at line 185 and the `KeyError`s at lines 215 and 263.
