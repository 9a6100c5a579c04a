# A verified model of the quiz engine of quiz.js

quiz.js is a browser quiz built from an uploaded CSV file. Each line holds a
question (column A), its correct answer (column B) and a cell of "enriched"
answer choices (column D), for example `A) 3 B) 4 C) 5`. The script works in
three steps:

- it reads the file into a pool of question objects;
- it deals a quiz of randomly chosen questions with shuffled options;
- it runs a small state machine of submitting, navigating, restarting and
  scoring.

This project models that engine in Dafny and proves what each step promises.

| file | module | models |
|---|---|---|
| `wrappers.dfy` | `Wrappers` | `Option`, for `null` and `NaN` |
| `strings.dfy` | `Strings` | `trim`, `toLowerCase`, `includes` and `split` on one character, over `seq<char>` |
| `csv_line.dfy` | `CsvLine` | `parseCSVLine`: a reference definition and the character scanner proved against it |
| `choices.dfy` | `Choices` | `parseEnrichedChoices`: the three-tier split of a choices cell |
| `pool.dfy` | `Pool` | the pool `parseCSV` extracts, as a value |
| `shuffle.dfy` | `Shuffle` | `shuffleArray`: Fisher-Yates (Knuth's Algorithm P, The Art of Computer Programming vol. 2, section 3.4.2) on an array copy |
| `summary.dfy` | `Summary` | the arithmetic of `showResults` and the number check of `generateCustomQuiz` |
| `session.dfy` | `Session` | the question objects and the page state (`allQuestions`, `quizData`, `currentQuestionIndex`, `userAnswers`, `score`) as classes, with every state-changing handler of the core as a method |

Design points:

- **Questions are objects.** A question is a `Question` object. `generateQuiz`
  deals the quiz from a *shallow* copy of the pool, so every question of
  `quizData` is the very object held in `allQuestions`. Shuffling its options
  or clearing its answer changes the pool too. `Session.Quiz.GenerateQuiz`
  states exactly which pool objects change and that the others do not.
- **Randomness is an input.** Every `Math.floor(Math.random() * (i + 1))`
  becomes a draw `draws[i]` with `draws[i] <= i`. The results hold for every
  such draw sequence. `poolDraws` drives the shuffle of the pool, and a map
  from each question object to its draws drives the shuffles of the options.
- **Results are whole numbers.** The percentage of `showResults` is computed
  in exact integer arithmetic, as `floor((200 * correct + total) / (2 * total))`.
  That is `Math.round` of the exact ratio, halves rounded up.
- **The score needs a usage rule.** The score counts the correctly answered
  questions only if a question is answered at most once. The page enforces
  this: it shows no submit button on an answered question (quiz.js:269-276).
  `Session.Quiz.ScoreConsistent` states the count. `SubmitAnswer` preserves it
  when the current question was unanswered.
- **Tier 2 is unreachable from the file.** `parseCSV` cuts the whole file at
  every line feed before any cell reaches `parseEnrichedChoices`. The
  line-separated tier of that function therefore never fires for a question
  read from a file (`Pool.PoolSkipsLineTier`). It fires only when the function
  is called directly (`Choices.LineSeparatedExample`).
- **The header rule can drop a question.** The first line is dropped whenever
  it mentions "question" in any letter case, even when it is a well-formed
  question itself (`Pool.HeaderSkip`).

## Model

| member | source | states |
|---|---|---|
| Strings.Trim | quiz.js:57 | reference definition of `trim`: the whitespace run at each end removed; its properties are the four lemmas below |
| Strings.TrimSlice | quiz.js:57 | `trim` keeps a contiguous slice cut only at whitespace; a non-empty result starts and ends with a non-space |
| Strings.TrimIdempotent | quiz.js:63 | trimming twice is trimming once |
| Strings.TrimEmptyIff | quiz.js:63-64 | a line is skipped as blank exactly when it is all whitespace |
| Strings.ContainsIff | quiz.js:61 | `includes` holds exactly when the substring occurs at some position |
| Strings.Contains | quiz.js:61 | reference definition of `includes`: a scan for the substring at each position, characterized by `ContainsIff` |
| Strings.SplitOn | quiz.js:57 | reference definition of `split` on one character, characterized by `SplitOnJoin` |
| Strings.SplitOnJoin | quiz.js:57 | the pieces of `split('\n')` joined with the separator give the text back; no piece holds the separator; there is one piece more than separators |
| Strings.ToLower | quiz.js:61 | lower-casing keeps the length, turns each capital A-Z into the letter 32 code points on (its lower-case letter), leaves every other character alone, and leaves no capital |
| Strings.ToLowerIdempotent | quiz.js:61 | lower-casing twice is lower-casing once |
| Strings.ToLowerCaseBlind | quiz.js:61 | two texts that agree up to the case of their letters lower-case to the same text |
| CsvLine.RawFields | quiz.js:129-142 | reference definition of the fields the character loop collects: a quote flips the mode and is dropped, an unquoted comma ends a field; characterized by `RawFieldsShape` |
| CsvLine.StripBoundaryQuotes | quiz.js:144 | the quote `replace` of each field: one leading and one trailing double quote removed; `CleanQuoteFree` shows it changes no raw field, since none holds a quote |
| CsvLine.ParseLine | quiz.js:125-145 | reference definition of `parseCSVLine`: each raw field with boundary quotes stripped and trimmed; characterized by `ParseLineShape` |
| CsvLine.ParseCsvLine | quiz.js:125-145 | the character scanner returns exactly the reference fields: one more than the commas outside quotes, none holding a double quote |
| CsvLine.RawFieldsShape | quiz.js:129-142 | the raw fields number one more than the unquoted commas, hold no quote, and joined with commas give the line with its quotes removed |
| CsvLine.ParseLineShape | quiz.js:125-145 | field count is 1 + commas outside quotes; every returned field is quote-free and trimmed |
| CsvLine.QuoteFreeSplitsAtCommas | quiz.js:129-142 | on a line without quotes the fields are the pieces of a plain split at every comma |
| CsvLine.QuotedCommaExample | quiz.js:125-145 | `a,"b,c",d` gives `["a", "b,c", "d"]`: a comma inside quotes stays in its field |
| Choices.SplitMarkers | quiz.js:102-103 | reference definition of `split(/[A-Z]\)\s*/g)`; characterized by `SplitMarkersHaveNoMarker`, `MarkerFreeWhole` and `SplitBeforeMarker` |
| Choices.SplitNewlineRuns | quiz.js:111 | reference definition of `split(/\n+/)`; characterized by `SplitNewlineRunsAvoid`, `NoNewlineIsOnePiece` and `SplitBeforeNewlines` |
| Choices.StripMarker | quiz.js:113 | `replace(/^[A-Z]\)\s*/, '')`: a marker and its whitespace removed from the front only |
| Choices.NonBlank | quiz.js:103 | `filter(part => part.trim())`: the pieces that are not all whitespace, in order |
| Choices.TrimAll | quiz.js:107 | `map(opt => opt.trim())`, one trimmed piece per piece |
| Choices.DropEmpty | quiz.js:107 | `filter(opt => opt)`: the non-empty pieces, in order; `TrimNonBlank` shows it drops nothing on tier 1 |
| Choices.LineOptions | quiz.js:111-114 | each newline piece with one leading marker stripped and trimmed, empty results dropped; `LineOptionsTrimmed` |
| Choices.ParseEnrichedChoices | quiz.js:98-122 | at least one option is always returned |
| Choices.MarkerTier | quiz.js:101-107 | two or more non-blank marker pieces are returned trimmed, in order, none empty |
| Choices.NewlineTier | quiz.js:110-117 | otherwise two or more non-empty line pieces, markers stripped, are returned |
| Choices.FallbackTier | quiz.js:119-121 | every cell without a line feed and with no marker, or one marker at its very start, gets the whole trimmed cell as its only option, marker kept |
| Choices.EnrichedOptionsTrimmed | quiz.js:98-122 | every returned option is trimmed |
| Choices.SplitMarkersHaveNoMarker | quiz.js:101-102 | no piece of the marker split contains a marker |
| Choices.MarkerFreeWhole | quiz.js:102-103 | a text without a marker is a single piece of the marker split |
| Choices.SplitBeforeMarker | quiz.js:102-103 | a marker-free stretch ending at a marker and its whitespace is one whole piece, and the split resumes after the whitespace |
| Choices.SplitNewlineRunsAvoid | quiz.js:111 | no piece of the line split holds a line feed |
| Choices.SplitBeforeNewlines | quiz.js:111 | a line-feed-free stretch followed by a run of one or more line feeds is one piece, the whole run a single separator |
| Choices.NoNewlineSkipsTier2 | quiz.js:98-122 | a cell without line feed gets tier 1's options or the whole trimmed cell, and the latter whenever tier 1 finds at most one piece |
| Choices.LetteredExample | quiz.js:101-107 | `A) 3 B) 4 C) 5` gives `["3", "4", "5"]` |
| Choices.SingleMarkerExample | quiz.js:119-121 | `A) only` gives `["A) only"]`, marker kept |
| Choices.LineSeparatedExample | quiz.js:110-117 | `A) x` and `y` on two lines give `["x", "y"]` |
| Choices.PlainCellExample | quiz.js:119-121 | `onlyoneanswer` gives `["onlyoneanswer"]`, an instance of `FallbackTier` |
| Pool.IsHeader | quiz.js:61 | the header test: the lower-cased line contains "question" |
| Pool.HeaderCaseBlind | quiz.js:61 | the header test ignores the case of letters |
| Pool.HeaderExample | quiz.js:61 | `Question,Answer,Choices,Enriched` is a header |
| Pool.RowRecord | quiz.js:64-86 | reference definition of the question one line yields, if any; characterized by `RowRecordIff` |
| Pool.Rows | quiz.js:62-88 | the questions of a run of lines, in order; characterized by `RowsAppend`, `RowsFresh` and `RowsEmptyIff` |
| Pool.ParsePool | quiz.js:56-88 | the pool `parseCSV` builds: the rows from the start index on; characterized by `HeaderSkip` and `PoolSkipsLineTier` |
| Pool.Lines | quiz.js:57 | the trimmed content always splits into at least one line |
| Pool.RowRecordIff | quiz.js:63-86 | a line yields a question exactly when it is non-blank with at least three unquoted commas; the question is columns A, B and the choices of D with no answer; the options check never drops a row |
| Pool.RowsFresh | quiz.js:79-85 | every pooled question has at least one option and no recorded answer |
| Pool.RowsEmptyIff | quiz.js:62-93 | at most one question per line; the pool is empty (the alert case) exactly when no line qualifies |
| Pool.RowsAppend | quiz.js:62-88 | the pool of consecutive runs of lines is their pools in order: file order is kept |
| Pool.HeaderSkip | quiz.js:57-61 | line 0 is dropped exactly when its lower-case form contains "question", otherwise read as data |
| Pool.LinesHaveNoNewline | quiz.js:57 | no line of the split content holds a line feed |
| Pool.PoolSkipsLineTier | quiz.js:57-73 | every question read from a file got its options from tier 1 or tier 3 |
| Session.Question.constructor | quiz.js:79-85 | the pushed object literal: given text, answer and options, `userAnswer` and `isCorrect` null |
| Session.ReadRow | quiz.js:63-86 | one line yields a fresh question object exactly as `Pool` says, or none |
| Session.ReadQuestions | quiz.js:62-88 | the loop pushes distinct, newly created objects whose values are, in order, the questions of the lines |
| Session.Quiz.constructor | quiz.js:1-7 | the initial empty state |
| Session.Quiz.ParseCsv | quiz.js:56-95 | `allQuestions` becomes newly created objects whose values are `Pool.ParsePool`; the selector is shown exactly for a non-empty pool; nothing else changes |
| Shuffle.Shuffled | quiz.js:148-156 | reference definition of the swaps from the last index down, for given draws; characterized by `ShuffledPermutes` and `EveryPermutationReached` |
| Shuffle.ShuffleArray | quiz.js:148-156 | the in-place swap loop on a copy computes the reference shuffle, of the same length and multiset |
| Shuffle.ShuffledPermutes | quiz.js:148-156 | for every draw sequence the shuffle is a permutation |
| Shuffle.EveryPermutationReached | quiz.js:148-156 | every permutation is produced by some draw sequence |
| Shuffle.DistinctDrawsDistinctResults | quiz.js:148-156 | on distinct elements different draws give different shuffles, so uniform draws give uniform permutations |
| Shuffle.UsedDrawsOnly | quiz.js:150-151 | a shuffle of `n` elements uses only the first `n` draws |
| Session.DealtFromPool | quiz.js:186-187 | a prefix of the shuffled pool holds no object twice and only pool objects |
| Session.ShuffleOptions | quiz.js:191-192 | each question's options become their shuffle; answers untouched |
| Session.ClearAnswers | quiz.js:193-194 | each question's answer and verdict are nulled; options untouched |
| Session.ClearedCount | quiz.js:193-194 | cleared questions count zero correct and are judged |
| Session.Quiz.GenerateQuiz | quiz.js:183-198 | the quiz is the first `min(n, pool size)` objects of the shuffled pool, distinct pool objects; their options shuffled and answers cleared in the pool as well, other pool objects untouched; index 0, score 0, score consistent |
| Summary.CustomQuizSize | quiz.js:201-216 | refused exactly for `NaN` or below 1; else the size is `min(num, pool size)`, with the warning exactly when `num` exceeds the pool |
| Session.Quiz.GenerateCustomQuiz | quiz.js:201-216 | a refused number changes nothing; otherwise the quiz of the checked size is dealt as by `GenerateQuiz`, index and score 0, one null answer slot per question |
| Session.Quiz.InitializeQuiz | quiz.js:219-222 | index 0, score 0, one null answer slot per question; quiz and pool kept; the invariant holds whenever pool and quiz are distinct and every quiz verdict matches its answer |
| Session.AnswerAt | quiz.js:307-313 | records the answer and its verdict on one question, leaves the others unchanged, and moves the correct count by one exactly for a correct first answer |
| Session.CountCorrectUpdate | quiz.js:312-317 | replacing one record changes the count of correct answers by the change of its verdict |
| Session.Quiz.SubmitAnswer | quiz.js:303-348 | no selection: no change; otherwise only the current question gets the answer and verdict, the score rises by one exactly when correct, the index is kept, the results follow exactly after the last question, and a first answer keeps the score consistent |
| Session.Quiz.ShowPreviousQuestion | quiz.js:370-375 | one back unless at 0; index stays in bounds; nothing else changes |
| Session.Quiz.ShowNextQuestion | quiz.js:377-382 | one on unless at the last question; index stays in bounds; nothing else changes |
| Session.Quiz.ReviewAnswers | quiz.js:403-408 | index 0; answers, score and questions untouched |
| Session.Quiz.RestartQuiz | quiz.js:411-432 | same questions in the same order, every answer nulled, options reshuffled, index and score 0, score consistent |
| Session.Quiz.LoadNewQuiz | quiz.js:455-464 | quiz and pool emptied, index and score 0 |
| Summary.ShowResults | quiz.js:385-400 | correct is the score, `incorrect = total - score`, a percentage exactly for a non-empty quiz |
| Summary.Percentage | quiz.js:392 | `Math.round(correct / total * 100)` in exact arithmetic; characterized by `PercentageNearest` |
| Summary.PercentageNearest | quiz.js:392 | the percentage is the integer nearest to `100 * correct / total`, halves up |
| Summary.PercentageBounds | quiz.js:392 | for `0 <= score <= total` the percentage lies in `[0, 100]`, 0 only below half a percent, 100 only from 99.5 percent |
| Summary.PercentageMonotone | quiz.js:392 | a higher score never shows a lower percentage |
| Summary.ResultsBounds | quiz.js:389-392 | for a score within the quiz, incorrect lies in `[0, total]` and the percentage in `[0, 100]` |
| Session.Quiz.Results | quiz.js:389-392 | the figures `showResults` shows, for the current quiz and score |
| Session.Quiz.Answered | quiz.js:364 | the count of questions with an answer that `updateScoreDisplay` shows |
| Session.CorrectAmongAnswered | quiz.js:363-367 | for judged questions, correct `<=` answered `<=` total |
| Session.Quiz.ResultsInRange | quiz.js:363-400 | in a consistent state the shown figures satisfy correct `<=` answered `<=` total, `0 <= incorrect`, `0 <= percentage <= 100` |

## Left out

- The DOM is not modelled: `showQuestion`, `showFeedback`, the text that
  `updateScoreDisplay` writes, the markup of `showQuestionLimitSelector`, and
  the upload area rebuilt by `loadNewQuiz` and `generateNewQuizFromSame`.
  They are presentation only. `updateScoreDisplay`'s answered count is the
  function `Session.Quiz.Answered`.
- `selectOption` only toggles a CSS class. The selected option it leaves
  behind is the `Option<string>` argument of `SubmitAnswer`.
- `handleFileUpload`, `FileReader`, `alert` and the 1.5-second
  `setTimeout` before `showResults` are I/O and timing. The file's text is
  the argument of `ParseCsv`; an alert is a returned flag or outcome.
- `Math.random` and `Math.floor` are replaced by draw sequences. The model
  takes the draws as given and proves its results for every valid choice.
- `Math.round` of a floating-point ratio is modelled in exact arithmetic.
  Floating-point rounding of the ratio itself is not modelled.
- `parseInt` of the input field is not modelled. Its result is the
  `Option<int>` argument of `GenerateCustomQuiz`, with `None` for `NaN`.
- `trim` and the regular-expression class `\s` cover only space, tab, line
  feed and carriage return, not JavaScript's full Unicode whitespace set.
  `toLowerCase` lowers only the ASCII letters.
- `generateNewQuizFromSame` and `showQuestionLimitSelector` only re-show the
  page that calls `generateQuiz`. `currentFile` is written but never read.
- Session.Quiz.ParseCsv: `parseCSV` pushes onto `allQuestions` as it reads.
  The model builds the list first and then stores it. No other code runs in
  between, so the final state is the same.
- Session.Quiz.GenerateQuiz: the source shuffles and clears each question
  in one `forEach` pass. The model makes two passes, one to shuffle and one
  to clear. The questions are distinct objects, so the final state is the
  same.
- Session.Quiz.GenerateQuiz: the options' permutation is stated as
  `q.options == Shuffled(old(q.options), draws)`. That this is a permutation
  is `Shuffle.ShuffledPermutes` rather than a clause of the method.
- Session.Quiz.SubmitAnswer: requires a non-empty quiz when an option is
  selected. On an empty quiz the page shows no option to select.
- Session.Quiz.SubmitAnswer: the score stays consistent only for a first
  answer to the current question, the only case the page allows.
- Shuffle.ShuffleArray: the argument is modelled as a value, so it cannot
  be modified by construction; aliasing of the argument array is not
  modelled.
