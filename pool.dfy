/**
 * The question pool `parseCSV` of quiz.js builds from the text of an uploaded
 * file, as a value. The content is trimmed and cut at every line feed; the
 * first line is skipped when it mentions "question" in any letter case; each
 * remaining line that is not blank and splits into at least four fields
 * yields one question: column A is the question, column B the correct answer
 * and column D the enriched choices (column C is ignored).
 */
module Pool {
  import opened Wrappers
  import opened Strings
  import opened CsvLine
  import opened Choices

  /** The JavaScript object literal pushed for a question, as a value. */
  datatype Record = Record(
    question: string,
    correctAnswer: string,
    options: seq<string>,
    userAnswer: Option<string>,
    isCorrect: Option<bool>)

  /** `csvContent.trim().split('\n')`. */
  function Lines(content: string): (r: seq<string>)
    ensures |r| >= 1
  {
    SplitOn(Trim(content), '\n')
  }

  /** `line.toLowerCase().includes('question')`. */
  predicate IsHeader(line: string) {
    Contains(ToLower(line), "question")
  }

  /** The header test ignores letter case: lines that differ only in the
      case of their letters are both headers or both not. */
  lemma HeaderCaseBlind(a: string, b: string)
    requires |a| == |b| && forall i :: 0 <= i < |a| ==> LowerChar(a[i]) == LowerChar(b[i])
    ensures IsHeader(a) <==> IsHeader(b)
  {
    ToLowerCaseBlind(a, b);
  }

  /** The usual first line of such a file is taken for a header. */
  lemma HeaderExample()
    ensures IsHeader("Question,Answer,Choices,Enriched")
  {
    var line := "Question,Answer,Choices,Enriched";
    var low := ToLower(line);
    assert low[0] as int == 'Q' as int + 32 == 'q' as int;
    assert low[1] == 'u' && low[2] == 'e' && low[3] == 's' && low[4] == 't';
    assert low[5] == 'i' && low[6] == 'o' && low[7] == 'n';
    assert low[..8] == "question";
  }

  /** Index of the first line read as data. */
  function StartIndex(lines: seq<string>): nat
    requires |lines| >= 1
  {
    if IsHeader(lines[0]) then 1 else 0
  }

  /** Column D of a line that has at least four fields, trimmed. */
  function ChoicesCell(line: string): string
    requires |ParseLine(line)| >= 4
  {
    Trim(ParseLine(line)[3])
  }

  /** What one line contributes to the pool: nothing for a blank line or one
      with fewer than four fields, else the question it describes. */
  function RowRecord(raw: string): Option<Record>
  {
    var line := Trim(raw);
    if line == [] then None
    else
      var fields := ParseLine(line);
      if |fields| >= 4 then
        var options := ParseEnrichedChoices(ChoicesCell(line));
        if |options| > 0 then
          Some(Record(Trim(fields[0]), Trim(fields[1]), options, None, None))
        else None
      else None
  }

  /** A question as `parseCSV` creates it: some option, no answer yet. */
  predicate Unanswered(r: Record) {
    |r.options| >= 1 && r.userAnswer == None && r.isCorrect == None
  }

  /** The question of one line, if any, as a sequence. */
  function Contribution(raw: string): (r: seq<Record>)
    ensures |r| <= 1
    ensures forall k :: 0 <= k < |r| ==> Unanswered(r[k])
  {
    if RowRecord(raw).Some? then [RowRecord(raw).value] else []
  }

  /** The questions of a run of lines, in line order. */
  function Rows(lines: seq<string>): seq<Record>
  {
    if lines == [] then [] else Contribution(lines[0]) + Rows(lines[1..])
  }

  /** The pool `parseCSV(content)` leaves in `allQuestions`. */
  function ParsePool(content: string): seq<Record>
  {
    var lines := Lines(content);
    Rows(lines[StartIndex(lines)..])
  }

  /** A line yields a question exactly when, once trimmed, it is not empty
      and has at least three commas outside quotes. */
  predicate Qualifies(raw: string) {
    Trim(raw) != [] && UnquotedCommas(Trim(raw), false) >= 3
  }

  /** The rows of consecutive runs of lines are the rows of each run in
      order: the pool keeps the file's order. */
  lemma {:induction false} RowsAppend(a: seq<string>, b: seq<string>)
    ensures Rows(a + b) == Rows(a) + Rows(b)
  {
    if a != [] {
      assert (a + b)[1..] == a[1..] + b;
      RowsAppend(a[1..], b);
    } else {
      assert a + b == b;
    }
  }

  /** One more line read adds its question, if any, at the end. */
  lemma RowsSnoc(a: seq<string>, x: string)
    ensures Rows(a + [x]) == Rows(a) + Contribution(x)
  {
    RowsAppend(a, [x]);
    RowsSingle(x);
  }

  lemma RowsSingle(x: string)
    ensures Rows([x]) == Contribution(x)
  {
    assert [x][1..] == [];
  }

  /** Which lines count, and the question a line yields: the options check of
      `parseCSV` never rejects a line, since `parseEnrichedChoices` always
      returns at least one option; the fields are the cleaned columns A, B
      and D, and no answer is recorded yet. */
  lemma RowRecordIff(raw: string)
    ensures RowRecord(raw).Some? <==> Qualifies(raw)
    ensures RowRecord(raw).Some? ==>
      var fields := ParseLine(Trim(raw));
      var r := RowRecord(raw).value;
      r.question == fields[0] && r.correctAnswer == fields[1]
      && r.options == ParseEnrichedChoices(fields[3])
      && |r.options| >= 1
      && r.userAnswer == None && r.isCorrect == None
  {
    var line := Trim(raw);
    ParseLineShape(line);
  }

  /** Every question of the pool has at least one option and no recorded
      answer. */
  lemma {:induction false} RowsFresh(lines: seq<string>)
    ensures forall k :: 0 <= k < |Rows(lines)| ==> Unanswered(Rows(lines)[k])
  {
    if lines != [] {
      RowsFresh(lines[1..]);
      var head := Contribution(lines[0]);
      var tail := Rows(lines[1..]);
      assert Rows(lines) == head + tail;
      AllUnanswered(head, tail);
    }
  }

  lemma AllUnanswered(a: seq<Record>, b: seq<Record>)
    requires forall k :: 0 <= k < |a| ==> Unanswered(a[k])
    requires forall k :: 0 <= k < |b| ==> Unanswered(b[k])
    ensures forall k :: 0 <= k < |a + b| ==> Unanswered((a + b)[k])
  {
  }

  /** At most one question per line, and none at all exactly when no line
      qualifies. */
  lemma {:induction false} RowsEmptyIff(lines: seq<string>)
    ensures |Rows(lines)| <= |lines|
    ensures Rows(lines) == [] <==> forall k :: 0 <= k < |lines| ==> !Qualifies(lines[k])
  {
    if lines != [] {
      RowsEmptyIff(lines[1..]);
      RowRecordIff(lines[0]);
      var rs := Rows(lines);
      if forall k :: 0 <= k < |lines| ==> !Qualifies(lines[k]) {
        assert !Qualifies(lines[0]);
        forall k | 0 <= k < |lines[1..]| ensures !Qualifies(lines[1..][k]) {
          assert lines[1..][k] == lines[k + 1];
        }
      }
      if rs == [] {
        forall k | 0 <= k < |lines| ensures !Qualifies(lines[k]) {
          if k > 0 {
            assert lines[k] == lines[1..][k - 1];
          }
        }
      }
    }
  }

  /** The header rule: the first line is dropped whenever it mentions
      "question", even when it is itself a well-formed question, and kept as
      data otherwise. */
  lemma HeaderSkip(content: string)
    ensures var lines := Lines(content);
      ParsePool(content)
        == (if IsHeader(lines[0]) then [] else Rows([lines[0]])) + Rows(lines[1..])
  {
    var lines := Lines(content);
    if !IsHeader(lines[0]) {
      assert lines == [lines[0]] + lines[1..];
      RowsAppend([lines[0]], lines[1..]);
    }
  }

  lemma {:induction false} RawFieldsAvoid(s: string, inQuotes: bool, c: char)
    requires c !in s
    ensures forall k :: 0 <= k < |RawFields(s, inQuotes)| ==> c !in RawFields(s, inQuotes)[k]
  {
    if s != [] {
      if s[0] == '"' {
        RawFieldsAvoid(s[1..], !inQuotes, c);
      } else {
        RawFieldsAvoid(s[1..], inQuotes, c);
        var rest := RawFields(s[1..], inQuotes);
        var r := RawFields(s, inQuotes);
        if !(s[0] == ',' && !inQuotes) {
          forall k | 0 <= k < |r| ensures c !in r[k] {
            if k > 0 { assert r[k] == rest[k]; }
          }
        }
      }
    }
  }

  lemma TrimAvoid(s: string, c: char)
    requires c !in s
    ensures c !in Trim(s)
  {
    TrimSlice(s);
  }

  /** Characters a line does not contain appear in none of its fields. */
  lemma ParseLineAvoid(line: string, c: char)
    requires c !in line
    ensures forall k :: 0 <= k < |ParseLine(line)| ==> c !in ParseLine(line)[k]
  {
    RawFieldsAvoid(line, false, c);
    var raw := RawFields(line, false);
    forall k | 0 <= k < |raw| ensures c !in ParseLine(line)[k] {
      assert c !in StripBoundaryQuotes(raw[k]);
      TrimAvoid(StripBoundaryQuotes(raw[k]), c);
    }
  }

  /** No line of the split content holds a line feed. */
  lemma LinesHaveNoNewline(content: string)
    ensures forall k :: 0 <= k < |Lines(content)| ==> '\n' !in Lines(content)[k]
  {
    SplitOnJoin(Trim(content), '\n');
  }

  /** The line-separated tier of `parseEnrichedChoices` never fires inside
      `parseCSV`: a line holds no line feed, so column D holds none, and its
      options come from the lettered split or are the whole cell. */
  lemma RowSkipsLineTier(raw: string)
    requires '\n' !in raw && RowRecord(raw).Some?
    ensures var cell := ChoicesCell(Trim(raw));
      RowRecord(raw).value.options == TrimAll(MarkerParts(cell))
      || RowRecord(raw).value.options == [Trim(cell)]
  {
    var line := Trim(raw);
    TrimAvoid(raw, '\n');
    ParseLineAvoid(line, '\n');
    TrimAvoid(ParseLine(line)[3], '\n');
    NoNewlineSkipsTier2(ChoicesCell(line));
  }

  /** Every line `parseCSV` reads gets its options from tier one or three
      of `parseEnrichedChoices`. */
  lemma PoolSkipsLineTier(content: string)
    ensures forall k :: 0 <= k < |Lines(content)| && RowRecord(Lines(content)[k]).Some? ==>
      var cell := ChoicesCell(Trim(Lines(content)[k]));
      RowRecord(Lines(content)[k]).value.options == TrimAll(MarkerParts(cell))
      || RowRecord(Lines(content)[k]).value.options == [Trim(cell)]
  {
    LinesHaveNoNewline(content);
    forall k | 0 <= k < |Lines(content)| && RowRecord(Lines(content)[k]).Some?
      ensures var cell := ChoicesCell(Trim(Lines(content)[k]));
        RowRecord(Lines(content)[k]).value.options == TrimAll(MarkerParts(cell))
        || RowRecord(Lines(content)[k]).value.options == [Trim(cell)]
    {
      RowSkipsLineTier(Lines(content)[k]);
    }
  }
}
