/**
 * The quiz session of quiz.js: the module-level state (`allQuestions`,
 * `quizData`, `currentQuestionIndex`, `userAnswers`, `score`) as the fields
 * of a `Quiz` object, and the handlers that change it.
 *
 * Questions are objects (`Question`), because the source shares them: the
 * quiz is dealt by copying the array `allQuestions` shallowly, so every
 * question of `quizData` is the very object held in the pool, and answering,
 * restarting or reshuffling changes the pool as well.
 *
 * Random draws are inputs: `poolDraws` for the shuffle of the pool, and for
 * every question the draws that shuffle its options, keyed by the object.
 */
module Session {
  import opened Wrappers
  import opened Strings
  import opened CsvLine
  import opened Choices
  import opened Pool
  import opened Shuffle
  import opened Summary

  /** A question object. The question text and the correct answer are never
      reassigned; the options and the recorded answer are. */
  class Question {
    const question: string
    const correctAnswer: string
    var options: seq<string>
    var userAnswer: Option<string>
    var isCorrect: Option<bool>

    /** The object literal pushed by `parseCSV`. */
    constructor (question: string, correctAnswer: string, options: seq<string>)
      ensures this.question == question && this.correctAnswer == correctAnswer
      ensures this.options == options
      ensures userAnswer == None && isCorrect == None
    {
      this.question := question;
      this.correctAnswer := correctAnswer;
      this.options := options;
      userAnswer := None;
      isCorrect := None;
    }

    /** The fields of the object, as a value. */
    function Snapshot(): Record
      reads this
    {
      Record(question, correctAnswer, options, userAnswer, isCorrect)
    }

    /** The recorded verdict is the one the recorded answer deserves, and
        there is no verdict without an answer. */
    predicate Graded()
      reads this
    {
      Judged(Snapshot())
    }
  }

  /** A record whose verdict matches its answer. */
  predicate Judged(r: Record) {
    r.isCorrect == (if r.userAnswer.Some? then Some(r.userAnswer.value == r.correctAnswer) else None)
  }

  /** The questions `qs` as values. */
  function Snapshots(qs: seq<Question>): (r: seq<Record>)
    reads qs
    ensures |r| == |qs|
  {
    if qs == [] then [] else [qs[0].Snapshot()] + Snapshots(qs[1..])
  }

  /** The `k`-th value is the value of the `k`-th question. */
  lemma {:induction false} SnapshotsIndex(qs: seq<Question>)
    ensures forall k :: 0 <= k < |qs| ==> Snapshots(qs)[k] == qs[k].Snapshot()
  {
    if qs != [] {
      SnapshotsIndex(qs[1..]);
      assert forall k :: 1 <= k < |qs| ==> qs[1..][k - 1] == qs[k];
    }
  }

  /** Questions answered correctly. */
  function CountCorrect(rs: seq<Record>): nat
  {
    if rs == [] then 0
    else (if rs[0].isCorrect == Some(true) then 1 else 0) + CountCorrect(rs[1..])
  }

  /** Questions answered at all (`quizData.filter(q => q.userAnswer !== null).length`). */
  function CountAnswered(rs: seq<Record>): nat
  {
    if rs == [] then 0
    else (if rs[0].userAnswer.Some? then 1 else 0) + CountAnswered(rs[1..])
  }

  function Indicator(r: Record): nat {
    if r.isCorrect == Some(true) then 1 else 0
  }

  /** Replacing one question changes the count of correct answers by the
      difference of the two verdicts. */
  lemma {:induction false} CountCorrectUpdate(rs: seq<Record>, k: nat, r: Record)
    requires k < |rs|
    ensures CountCorrect(rs[k := r]) == CountCorrect(rs) - Indicator(rs[k]) + Indicator(r)
  {
    if k > 0 {
      assert rs[k := r][1..] == rs[1..][k - 1 := r];
      CountCorrectUpdate(rs[1..], k - 1, r);
    } else {
      assert rs[k := r][1..] == rs[1..];
    }
  }

  /** With no verdict recorded, nothing counts as correct. */
  lemma {:induction false} CountCorrectNone(rs: seq<Record>)
    requires forall k :: 0 <= k < |rs| ==> rs[k].isCorrect == None
    ensures CountCorrect(rs) == 0
  {
    if rs != [] {
      assert forall k :: 0 <= k < |rs[1..]| ==> rs[1..][k] == rs[k + 1];
      CountCorrectNone(rs[1..]);
    }
  }

  /** For judged questions the correct ones are among the answered ones,
      which are among all of them. */
  lemma {:induction false} CorrectAmongAnswered(rs: seq<Record>)
    requires forall k :: 0 <= k < |rs| ==> Judged(rs[k])
    ensures CountCorrect(rs) <= CountAnswered(rs) <= |rs|
  {
    if rs != [] {
      assert forall k :: 0 <= k < |rs[1..]| ==> rs[1..][k] == rs[k + 1];
      CorrectAmongAnswered(rs[1..]);
    }
  }

  lemma {:induction false} SnapshotsAppend(qs: seq<Question>, q: Question)
    ensures Snapshots(qs + [q]) == Snapshots(qs) + [q.Snapshot()]
  {
    if qs == [] {
      assert qs + [q] == [q];
    } else {
      assert (qs + [q])[1..] == qs[1..] + [q];
      SnapshotsAppend(qs[1..], q);
    }
  }

  lemma DistinctAppend(qs: seq<Question>, q: Question)
    requires Distinct(qs) && forall k :: 0 <= k < |qs| ==> qs[k] != q
    ensures Distinct(qs + [q])
  {
  }

  /** One more line read by the loop of `parseCSV`. */
  lemma RowsStep(lines: seq<string>, start: nat, i: nat)
    requires start <= i < |lines|
    ensures Rows(lines[start..i + 1]) == Rows(lines[start..i]) + Contribution(lines[i])
  {
    assert lines[start..i + 1] == lines[start..i] + [lines[i]];
    RowsSnoc(lines[start..i], lines[i]);
  }

  /** The body of the loop of `parseCSV` for one line: the question object
      the line yields, if any. */
  method ReadRow(raw: string) returns (q: Option<Question>)
    ensures q.Some? ==> fresh(q.value)
    ensures Contribution(raw) == if q.Some? then [q.value.Snapshot()] else []
  {
    q := None;
    var line := Trim(raw);
    if line != [] {
      var fields := ParseCsvLine(line);
      if |fields| >= 4 {
        var question := Trim(fields[0]);
        var correctAnswer := Trim(fields[1]);
        var enrichedChoices := Trim(fields[3]);
        var options := ParseEnrichedChoices(enrichedChoices);
        if |options| > 0 {
          var created := new Question(question, correctAnswer, options);
          q := Some(created);
        }
      }
    }
  }

  /** One turn of the loop of `parseCSV`: push the question of line `raw`,
      if it has one, onto questions whose values are `done`. */
  method PushRow(questions: seq<Question>, raw: string, ghost done: seq<Record>) returns (more: seq<Question>)
    requires Distinct(questions) && Snapshots(questions) == done
    ensures Distinct(more)
    ensures forall q :: q in more ==> q in questions || fresh(q)
    ensures Snapshots(more) == done + Contribution(raw)
  {
    var row := ReadRow(raw);
    ghost var added := Contribution(raw);
    assert Snapshots(questions) == done;
    more := questions;
    if row.Some? {
      ghost var snap := row.value.Snapshot();
      assert added == [snap];
      assert forall k :: 0 <= k < |questions| ==> questions[k] != row.value;
      more := questions + [row.value];
      DistinctAppend(questions, row.value);
      SnapshotsAppend(questions, row.value);
    } else {
      assert done + added == done;
    }
  }

  /** One turn of the loop of `parseCSV`, on line `i`. */
  method PushLine(questions: seq<Question>, lines: seq<string>, start: nat, i: nat) returns (more: seq<Question>)
    requires start <= i < |lines|
    requires Distinct(questions) && Snapshots(questions) == Rows(lines[start..i])
    ensures Distinct(more) && Snapshots(more) == Rows(lines[start..i + 1])
    ensures forall q :: q in more ==> q in questions || fresh(q)
  {
    RowsStep(lines, start, i);
    more := PushRow(questions, lines[i], Rows(lines[start..i]));
  }

  /** The loop of `parseCSV` over the lines from `start` on: the question
      objects pushed onto the pool, none twice, in line order. */
  method ReadQuestions(lines: seq<string>, start: nat) returns (questions: seq<Question>)
    requires start <= |lines|
    ensures Snapshots(questions) == Rows(lines[start..])
    ensures Distinct(questions)
    ensures forall q :: q in questions ==> fresh(q)
  {
    assert lines[start..|lines|] == lines[start..];
    questions := [];
    var i := start;
    while i < |lines|
      invariant start <= i <= |lines|
      invariant Snapshots(questions) == Rows(lines[start..i])
      invariant Distinct(questions)
      invariant forall q :: q in questions ==> fresh(q)
    {
      questions := PushLine(questions, lines, start, i);
      i := i + 1;
    }
  }

  /** Every question of `qs` has draws for a shuffle of its options. */
  ghost predicate HasDraws(qs: seq<Question>, optionDraws: map<Question, seq<nat>>)
    reads qs
  {
    forall k :: 0 <= k < |qs| ==> qs[k] in optionDraws && ValidDraws(optionDraws[qs[k]], |qs[k].options|)
  }

  /** `qs.forEach(question => { question.options = shuffleArray(question.options); })`. */
  method ShuffleOptions(qs: seq<Question>, optionDraws: map<Question, seq<nat>>)
    requires Distinct(qs) && HasDraws(qs, optionDraws)
    modifies set q | q in qs
    ensures forall q :: q in qs ==>
      q.options == Shuffled(old(q.options), optionDraws[q])
      && q.userAnswer == old(q.userAnswer) && q.isCorrect == old(q.isCorrect)
  {
    var i := 0;
    while i < |qs|
      invariant 0 <= i <= |qs|
      invariant forall k :: 0 <= k < i ==>
        qs[k].options == Shuffled(old(qs[k].options), optionDraws[qs[k]])
        && qs[k].userAnswer == old(qs[k].userAnswer) && qs[k].isCorrect == old(qs[k].isCorrect)
      invariant forall k :: i <= k < |qs| ==> unchanged(qs[k])
    {
      var q := qs[i];
      q.options := ShuffleArray(q.options, optionDraws[q]);
      i := i + 1;
    }
    forall q | q in qs
      ensures q.options == Shuffled(old(q.options), optionDraws[q])
      ensures q.userAnswer == old(q.userAnswer) && q.isCorrect == old(q.isCorrect)
    {
      var k :| 0 <= k < |qs| && qs[k] == q;
    }
  }

  /** `qs.forEach(question => { question.userAnswer = null; question.isCorrect = null; })`. */
  method ClearAnswers(qs: seq<Question>)
    modifies set q | q in qs
    ensures forall q :: q in qs ==>
      q.options == old(q.options) && q.userAnswer == None && q.isCorrect == None
  {
    var i := 0;
    while i < |qs|
      invariant 0 <= i <= |qs|
      invariant forall q :: q in qs[..i] ==>
        q.options == old(q.options) && q.userAnswer == None && q.isCorrect == None
      invariant forall q :: q in qs && q !in qs[..i] ==> unchanged(q)
    {
      var q := qs[i];
      q.userAnswer := None;
      q.isCorrect := None;
      assert qs[..i + 1] == qs[..i] + [q];
      i := i + 1;
    }
    assert qs[..|qs|] == qs;
  }

  /** Cleared questions count nothing as correct and are judged. */
  lemma ClearedCount(qs: seq<Question>)
    requires forall q :: q in qs ==> q.userAnswer == None && q.isCorrect == None
    ensures CountCorrect(Snapshots(qs)) == 0
    ensures forall k :: 0 <= k < |qs| ==> qs[k].Graded()
  {
    var rs := Snapshots(qs);
    SnapshotsIndex(qs);
    CountCorrectNone(rs);
  }

  /** The quiz dealt from a pool: a prefix of a shuffle of the pool, so its
      questions come from the pool and none appears twice. */
  lemma DealtFromPool(pool: seq<Question>, shuffled: seq<Question>, limit: nat)
    requires Distinct(pool) && multiset(shuffled) == multiset(pool) && limit <= |shuffled|
    ensures Distinct(shuffled[..limit])
    ensures forall q :: q in shuffled[..limit] ==> q in pool
  {
    PermutationKeepsDistinct(pool, shuffled);
    forall q | q in shuffled[..limit] ensures q in pool {
      assert q in multiset(shuffled);
    }
  }

  /** Record `answer` and its verdict on the `k`-th of distinct judged
      questions; the others keep their values, all stay judged, and the
      count of correct answers moves by the change of that one verdict. */
  method AnswerAt(qs: seq<Question>, k: nat, answer: string) returns (isCorrect: bool)
    requires k < |qs| && Distinct(qs)
    requires forall j :: 0 <= j < |qs| ==> qs[j].Graded()
    modifies qs[k]
    ensures isCorrect <==> answer == qs[k].correctAnswer
    ensures qs[k].userAnswer == Some(answer) && qs[k].isCorrect == Some(isCorrect)
    ensures qs[k].options == old(qs[k].options)
    ensures forall j :: 0 <= j < |qs| && j != k ==> unchanged(qs[j])
    ensures forall j :: 0 <= j < |qs| ==> qs[j].Graded()
    ensures old(qs[k].userAnswer) == None ==>
      CountCorrect(Snapshots(qs)) == old(CountCorrect(Snapshots(qs))) + (if isCorrect then 1 else 0)
  {
    ghost var was := Snapshots(qs);
    SnapshotsIndex(qs);
    var q := qs[k];
    assert was[k] == q.Snapshot() && q.Graded();
    isCorrect := answer == q.correctAnswer;
    q.userAnswer := Some(answer);
    q.isCorrect := Some(isCorrect);
    var now := Snapshots(qs);
    SnapshotsIndex(qs);
    forall j | 0 <= j < |qs| && j != k ensures now[j] == was[j] && unchanged(qs[j]) {
      assert qs[j] != q;
    }
    assert now == was[k := q.Snapshot()];
    CountCorrectUpdate(was, k, q.Snapshot());
  }

  /** The state of one page of the quiz. */
  class Quiz {
    var allQuestions: seq<Question>
    var quizData: seq<Question>
    var currentQuestionIndex: int
    var userAnswers: seq<Option<string>>
    var score: int

    /** The state as the script starts. */
    constructor ()
      ensures allQuestions == [] && quizData == [] && userAnswers == []
      ensures currentQuestionIndex == 0 && score == 0
      ensures Valid() && ScoreConsistent()
    {
      allQuestions := [];
      quizData := [];
      currentQuestionIndex := 0;
      userAnswers := [];
      score := 0;
    }

    /** What every handler keeps: the current index points into the quiz
        (or is 0 for an empty one), no question object appears twice in the
        pool or in the quiz, every verdict matches its answer, and the
        score is not negative. */
    ghost predicate Valid()
      reads this, allQuestions, quizData
    {
      && 0 <= currentQuestionIndex
      && (currentQuestionIndex < |quizData| || currentQuestionIndex == 0)
      && Distinct(allQuestions) && Distinct(quizData)
      && (forall k :: 0 <= k < |quizData| ==> quizData[k].Graded())
      && 0 <= score
    }

    /** The score counts the correctly answered questions of the quiz. It
        holds as long as each question is submitted at most once, which is
        what the page enforces by showing no submit button on an answered
        question. */
    ghost predicate ScoreConsistent()
      reads this, quizData
    {
      score == CountCorrect(Snapshots(quizData))
    }

    /** `parseCSV(csvContent)`: replace the pool by fresh question objects
        built from the file. `found` tells whether the question-count
        selector is shown rather than the "no valid questions" alert. */
    method ParseCsv(content: string) returns (found: bool)
      requires Valid()
      modifies this
      ensures Snapshots(allQuestions) == ParsePool(content)
      ensures found <==> |allQuestions| > 0
      ensures quizData == old(quizData) && currentQuestionIndex == old(currentQuestionIndex)
      ensures score == old(score) && userAnswers == old(userAnswers)
      ensures forall q :: q in allQuestions ==> fresh(q)
      ensures Valid()
    {
      var lines := Lines(content);
      allQuestions := [];
      var start := StartIndex(lines);
      var questions := ReadQuestions(lines, start);
      ghost var pool := Snapshots(questions);
      assert pool == ParsePool(content);
      allQuestions := questions;
      assert Snapshots(allQuestions) == pool;
      found := |allQuestions| > 0;
    }

    /** `initializeQuiz()`: back to the first question, no answers, no
        score. */
    method InitializeQuiz()
      modifies this
      ensures currentQuestionIndex == 0 && score == 0
      ensures userAnswers == seq(|quizData|, _ => None)
      ensures allQuestions == old(allQuestions) && quizData == old(quizData)
      ensures (Distinct(allQuestions) && Distinct(quizData)
               && forall k :: 0 <= k < |quizData| ==> quizData[k].Graded()) ==> Valid()
    {
      currentQuestionIndex := 0;
      userAnswers := seq(|quizData|, _ => None);
      score := 0;
    }
    /** `generateQuiz(numQuestions)`: deal the first `min(numQuestions,
        pool size)` questions of a shuffled shallow copy of the pool, then
        shuffle the options of each dealt question and clear its answer.
        The dealt questions are the pool's own objects, so the pool sees
        these changes; the questions left in the pool keep theirs. */
    method GenerateQuiz(numQuestions: nat, poolDraws: seq<nat>, optionDraws: map<Question, seq<nat>>)
      requires Valid()
      requires ValidDraws(poolDraws, |allQuestions|)
      requires HasDraws(allQuestions, optionDraws)
      modifies this, allQuestions
      ensures allQuestions == old(allQuestions)
      ensures quizData == Shuffled(allQuestions, poolDraws)[..Min(numQuestions, |allQuestions|)]
      ensures |quizData| == Min(numQuestions, |allQuestions|)
      ensures forall q :: q in quizData ==> q in allQuestions
      ensures forall q :: q in quizData ==>
        q.options == Shuffled(old(q.options), optionDraws[q]) && q.userAnswer == None && q.isCorrect == None
      ensures forall q :: q in allQuestions && q !in quizData ==> unchanged(q)
      ensures currentQuestionIndex == 0 && score == 0
      ensures userAnswers == seq(|quizData|, _ => None)
      ensures Valid() && ScoreConsistent()
    {
      var limit := Min(numQuestions, |allQuestions|);
      var shuffledAll := ShuffleArray(allQuestions, poolDraws);
      DealtFromPool(allQuestions, shuffledAll, limit);
      var dealt := shuffledAll[..limit];
      quizData := dealt;
      assert forall q :: q in dealt ==> q in allQuestions;
      assert HasDraws(quizData, optionDraws) by {
        forall k | 0 <= k < |quizData|
          ensures quizData[k] in optionDraws && ValidDraws(optionDraws[quizData[k]], |quizData[k].options|)
        {
          assert quizData[k] in allQuestions;
        }
      }
      ShuffleOptions(dealt, optionDraws);
      ClearAnswers(dealt);
      InitializeQuiz();
      ClearedCount(dealt);
    }

    /** `generateCustomQuiz()` for the number `num` read from the input
        field: refused without any change, or a quiz of the checked size. */
    method GenerateCustomQuiz(num: Option<int>, poolDraws: seq<nat>, optionDraws: map<Question, seq<nat>>)
      returns (outcome: CustomOutcome)
      requires Valid()
      requires ValidDraws(poolDraws, |allQuestions|)
      requires HasDraws(allQuestions, optionDraws)
      modifies this, allQuestions
      ensures outcome == CustomQuizSize(num, |allQuestions|)
      ensures allQuestions == old(allQuestions)
      ensures outcome.Refused? ==> unchanged(this) && unchanged(allQuestions)
      ensures outcome.Start? ==>
        && quizData == Shuffled(allQuestions, poolDraws)[..outcome.size]
        && (forall q :: q in quizData ==> q in allQuestions)
        && (forall q :: q in quizData ==>
              q.options == Shuffled(old(q.options), optionDraws[q]) && q.userAnswer == None && q.isCorrect == None)
        && (forall q :: q in allQuestions && q !in quizData ==> unchanged(q))
        && currentQuestionIndex == 0 && score == 0
        && userAnswers == seq(|quizData|, _ => None)
      ensures Valid() && (outcome.Start? ==> ScoreConsistent())
    {
      outcome := CustomQuizSize(num, |allQuestions|);
      if outcome.Start? {
        GenerateQuiz(outcome.size, poolDraws, optionDraws);
      }
    }

    /** `submitAnswer()` with the option the page has marked as selected,
        `None` when there is none. The answer and its verdict are recorded
        on the current question and a correct answer adds one to the score;
        `showsResults` tells whether this was the last question, after which
        the page shows the results. */
    method SubmitAnswer(selection: Option<string>) returns (showsResults: bool)
      requires Valid()
      requires selection.Some? ==> |quizData| > 0
      modifies this, quizData
      ensures quizData == old(quizData) && allQuestions == old(allQuestions)
      ensures currentQuestionIndex == old(currentQuestionIndex) && userAnswers == old(userAnswers)
      ensures selection.None? ==> score == old(score) && !showsResults && unchanged(quizData)
      ensures selection.Some? ==>
        var q := quizData[currentQuestionIndex];
        && q.userAnswer == selection
        && q.isCorrect == Some(selection.value == q.correctAnswer)
        && q.options == old(q.options)
        && score == old(score) + (if selection.value == q.correctAnswer then 1 else 0)
        && (showsResults <==> currentQuestionIndex == |quizData| - 1)
        && (forall k :: 0 <= k < |quizData| && k != currentQuestionIndex ==> unchanged(quizData[k]))
      ensures Valid()
      ensures old(ScoreConsistent()) && (selection.None? || old(quizData[currentQuestionIndex].userAnswer).None?)
        ==> ScoreConsistent()
    {
      showsResults := false;
      if selection.None? {
        return;
      }
      var userAnswer := selection.value;
      var isCorrect := AnswerAt(quizData, currentQuestionIndex, userAnswer);
      if isCorrect {
        score := score + 1;
      }
      showsResults := !(currentQuestionIndex < |quizData| - 1);
    }

    /** `showPreviousQuestion()`: one back unless at the first question. */
    method ShowPreviousQuestion()
      requires Valid()
      modifies this
      ensures currentQuestionIndex == if old(currentQuestionIndex) > 0 then old(currentQuestionIndex) - 1 else old(currentQuestionIndex)
      ensures quizData == old(quizData) && allQuestions == old(allQuestions)
      ensures score == old(score) && userAnswers == old(userAnswers)
      ensures Valid()
    {
      if currentQuestionIndex > 0 {
        currentQuestionIndex := currentQuestionIndex - 1;
      }
    }

    /** `showNextQuestion()`: one on unless at the last question. */
    method ShowNextQuestion()
      requires Valid()
      modifies this
      ensures currentQuestionIndex == if old(currentQuestionIndex) < |quizData| - 1 then old(currentQuestionIndex) + 1 else old(currentQuestionIndex)
      ensures quizData == old(quizData) && allQuestions == old(allQuestions)
      ensures score == old(score) && userAnswers == old(userAnswers)
      ensures Valid()
    {
      if currentQuestionIndex < |quizData| - 1 {
        currentQuestionIndex := currentQuestionIndex + 1;
      }
    }

    /** `reviewAnswers()`: back to the first question, answers kept. */
    method ReviewAnswers()
      requires Valid()
      modifies this
      ensures currentQuestionIndex == 0
      ensures quizData == old(quizData) && allQuestions == old(allQuestions)
      ensures score == old(score) && userAnswers == old(userAnswers)
      ensures Valid()
    {
      currentQuestionIndex := 0;
    }

    /** `restartQuiz()`: the same questions again, answers cleared, options
        shuffled anew, score and position reset. `userAnswers` is left as it
        was. */
    method RestartQuiz(optionDraws: map<Question, seq<nat>>)
      requires Valid()
      requires HasDraws(quizData, optionDraws)
      modifies this, quizData
      ensures quizData == old(quizData) && allQuestions == old(allQuestions)
      ensures userAnswers == old(userAnswers)
      ensures forall q :: q in quizData ==>
        q.options == Shuffled(old(q.options), optionDraws[q]) && q.userAnswer == None && q.isCorrect == None
      ensures currentQuestionIndex == 0 && score == 0
      ensures Valid() && ScoreConsistent()
    {
      ClearAnswers(quizData);
      ShuffleOptions(quizData, optionDraws);
      currentQuestionIndex := 0;
      score := 0;
      ClearedCount(quizData);
    }

    /** `loadNewQuiz()`: forget the quiz and the pool. `userAnswers` is left
        as it was. */
    method LoadNewQuiz()
      modifies this
      ensures quizData == [] && allQuestions == []
      ensures currentQuestionIndex == 0 && score == 0 && userAnswers == old(userAnswers)
      ensures Valid() && ScoreConsistent()
    {
      quizData := [];
      allQuestions := [];
      currentQuestionIndex := 0;
      score := 0;
    }

    /** The figures `showResults()` displays. */
    function Results(): Results
      reads this
    {
      ShowResults(|quizData|, score)
    }

    /** The count of answered questions `updateScoreDisplay()` shows. */
    function Answered(): nat
      reads this, quizData
    {
      CountAnswered(Snapshots(quizData))
    }

    /** With a consistent score the results screen shows no more correct
        answers than answered questions, a non-negative number of incorrect
        ones, and a percentage between 0 and 100. */
    lemma ResultsInRange()
      requires Valid() && ScoreConsistent()
      ensures Results().correct <= Answered() <= Results().total
      ensures 0 <= Results().incorrect <= Results().total
      ensures Results().percentage.Some? ==> 0 <= Results().percentage.value <= 100
    {
      var rs := Snapshots(quizData);
      SnapshotsIndex(quizData);
      assert forall k :: 0 <= k < |rs| ==> Judged(rs[k]) by {
        forall k | 0 <= k < |rs| ensures Judged(rs[k]) {
          assert quizData[k].Graded();
        }
      }
      CorrectAmongAnswered(rs);
      ResultsBounds(|quizData|, score);
    }
  }
}
