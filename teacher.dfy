/**
 * The first generation of the tool, teacher side (teacher.js): the
 * line-based reader of a converted word-processing document
 * (`parseWordContent`) and the structural check `createTest` applies to the
 * questions JSON before a test is stored.
 *
 * The document arrives as its raw text (what the converter extracted); the
 * parser splits it on '\n', trims every line and drops the empty ones. The
 * first line is the title, every other line is classified and fed to a state
 * machine with one open question.
 */
module Teacher {
  import opened Wrappers
  import opened Text
  import opened Patterns

  /** A question of the legacy format; `correct` is -1 until a marker sets it. */
  datatype LegacyQuestion = LegacyQuestion(question: string, image: string, answers: seq<string>, correct: int)

  // ----- lines -----

  /** `.map(line => line.trim()).filter(line => line)`: the trimmed pieces that are not empty. */
  function TrimmedLines(pieces: seq<string>): (lines: seq<string>)
    ensures |lines| <= |pieces|
  {
    if pieces == [] then []
    else
      var pre := TrimmedLines(pieces[..|pieces| - 1]);
      var t := Trim(pieces[|pieces| - 1]);
      if t == [] then pre else pre + [t]
  }

  /**
   * The positions of the pieces that survive `filter`: increasing, and a
   * piece is among them exactly when it is not all white space.
   */
  function KeptPieces(pieces: seq<string>): (ix: seq<nat>)
    ensures forall k :: 0 <= k < |ix| ==> ix[k] < |pieces|
    ensures forall k, l :: 0 <= k < l < |ix| ==> ix[k] < ix[l]
    ensures forall i :: 0 <= i < |pieces| ==> (i in ix <==> !AllSpace(pieces[i]))
  {
    if pieces == [] then []
    else
      var n := |pieces| - 1;
      var pre := pieces[..n];
      var before := KeptPieces(pre);
      if AllSpace(pieces[n]) then
        assert forall i :: 0 <= i < |pieces| ==> (i in before <==> !AllSpace(pieces[i])) by {
          forall i | 0 <= i < |pieces| ensures i in before <==> !AllSpace(pieces[i]) {
            if i < n {
              assert pre[i] == pieces[i];
            }
          }
        }
        before
      else
        var ix := before + [n];
        assert forall k, l :: 0 <= k < l < |ix| ==> ix[k] < ix[l] by {
          forall k, l | 0 <= k < l < |ix| ensures ix[k] < ix[l] {
            assert ix[k] == before[k];
          }
        }
        assert forall i :: 0 <= i < |pieces| ==> (i in ix <==> !AllSpace(pieces[i])) by {
          forall i | 0 <= i < |pieces| ensures i in ix <==> !AllSpace(pieces[i]) {
            if i < n {
              assert pre[i] == pieces[i];
            } else {
              assert ix[|before|] == i;
            }
          }
        }
        ix
  }

  /** The surviving lines are the kept pieces, trimmed, in the order of the pieces. */
  lemma {:induction false} TrimmedLinesKept(pieces: seq<string>)
    ensures |TrimmedLines(pieces)| == |KeptPieces(pieces)|
    ensures forall k :: 0 <= k < |TrimmedLines(pieces)| ==>
              TrimmedLines(pieces)[k] == Trim(pieces[KeptPieces(pieces)[k]])
  {
    if pieces != [] {
      var n := |pieces| - 1;
      var pre := pieces[..n];
      TrimmedLinesKept(pre);
      TrimEmptyIff(pieces[n]);
      var lines := TrimmedLines(pieces);
      var ix := KeptPieces(pieces);
      forall k | 0 <= k < |lines| ensures lines[k] == Trim(pieces[ix[k]]) {
        if k < |KeptPieces(pre)| {
          assert pre[KeptPieces(pre)[k]] == pieces[ix[k]];
        }
      }
    }
  }

  /** Every surviving line is non-empty and has no white space at either end. */
  lemma {:induction false} TrimmedLinesTrimmed(pieces: seq<string>)
    ensures forall i :: 0 <= i < |TrimmedLines(pieces)| ==> IsTrimmedLine(TrimmedLines(pieces)[i])
  {
    if pieces != [] {
      var pre := pieces[..|pieces| - 1];
      TrimmedLinesTrimmed(pre);
      var before := TrimmedLines(pre);
      var t := Trim(pieces[|pieces| - 1]);
      var lines := TrimmedLines(pieces);
      if t == [] {
        assert lines == before;
      } else {
        assert lines == before + [t];
        forall i | 0 <= i < |lines| ensures IsTrimmedLine(lines[i]) {
          if i < |before| {
            assert lines[i] == before[i];
          } else {
            assert lines[i] == t;
          }
        }
      }
    }
  }

  /** A line as it leaves `trim`, not empty: no white space at either end. */
  predicate IsTrimmedLine(line: string)
  {
    line != [] && !IsSpace(line[0]) && !IsSpace(line[|line| - 1])
  }

  /** No line survives exactly when every piece is white space. */
  lemma {:induction false} TrimmedLinesEmpty(pieces: seq<string>)
    ensures TrimmedLines(pieces) == [] <==> forall i :: 0 <= i < |pieces| ==> AllSpace(pieces[i])
  {
    if pieces != [] {
      var pre := pieces[..|pieces| - 1];
      var last := pieces[|pieces| - 1];
      TrimmedLinesEmpty(pre);
      TrimEmptyIff(last);
      if Trim(last) == [] {
        assert TrimmedLines(pieces) == TrimmedLines(pre);
        assert (forall i :: 0 <= i < |pieces| ==> AllSpace(pieces[i]))
           <==> (forall i :: 0 <= i < |pre| ==> AllSpace(pre[i]));
      } else {
        assert TrimmedLines(pieces) != [];
      }
    }
  }

  /** `text.split('\n').map(line => line.trim()).filter(line => line)`. */
  function Lines(text: string): seq<string>
  {
    TrimmedLines(Split(text, '\n'))
  }

  // ----- classifying one line -----

  /** What one line is, in the order the loop tests it. */
  datatype LineKind =
    | QuestionLine(text: string)   // `^(\d+)\.\s*(.+)`
    | AnswerLine(text: string)     // `^([A-D])\)\s*(.+)` under `/i`
    | KeyLine(index: int)          // `^Správně:\s*([A-D])` under `/i`
    | OtherLine(line: string)      // anything else

  function ClassifyLine(line: string): (k: LineKind)
    ensures k.QuestionLine? <==> MatchQuestion(line).Some?
    ensures k.QuestionLine? ==> k.text != [] && k.text == MatchQuestion(line).value
    ensures k.AnswerLine? ==> MatchQuestion(line).None? && k.text != []
    ensures k.KeyLine? ==> MatchQuestion(line).None? && MatchAnswer(line).None? && 0 <= k.index <= 3
    ensures k.OtherLine? ==> k.line == line
    ensures MatchQuestion(line).None? && MatchAnswer(line).Some? ==> k == AnswerLine(MatchAnswer(line).value)
    ensures MatchQuestion(line).None? && MatchAnswer(line).None? && MatchAnswerKey(line).Some? ==>
              k == KeyLine(MatchAnswerKey(line).value)
    ensures k.OtherLine? <==> MatchQuestion(line).None? && MatchAnswer(line).None? && MatchAnswerKey(line).None?
  {
    if MatchQuestion(line).Some? then QuestionLine(MatchQuestion(line).value)
    else if MatchAnswer(line).Some? then AnswerLine(MatchAnswer(line).value)
    else if MatchAnswerKey(line).Some? then KeyLine(MatchAnswerKey(line).value)
    else OtherLine(line)
  }

  function LineKinds(lines: seq<string>): (ks: seq<LineKind>)
    ensures |ks| == |lines|
  {
    if lines == [] then [] else LineKinds(lines[..|lines| - 1]) + [ClassifyLine(lines[|lines| - 1])]
  }

  // ----- the state machine -----

  datatype LegacyState = LegacyState(questions: seq<LegacyQuestion>, current: Option<LegacyQuestion>)

  const LegacyInitial: LegacyState := LegacyState([], None)

  /** The open question is pushed only when it has exactly four answers, and discarded otherwise. */
  function KeepIfFour(questions: seq<LegacyQuestion>, current: Option<LegacyQuestion>): (r: seq<LegacyQuestion>)
    ensures current.Some? && |current.value.answers| == 4 ==> r == questions + [current.value]
    ensures !(current.Some? && |current.value.answers| == 4) ==> r == questions
  {
    if current.Some? && |current.value.answers| == 4 then questions + [current.value] else questions
  }

  /**
   * One iteration of the loop: a question line closes the open question and
   * opens a new one; with a question open, an answer is appended, a key sets
   * `correct`, and any other line is appended to the question text (after a
   * space) as long as no answer has arrived.
   */
  function LegacyStep(st: LegacyState, k: LineKind): LegacyState
  {
    match k
    case QuestionLine(text) =>
      LegacyState(KeepIfFour(st.questions, st.current), Some(LegacyQuestion(text, "", [], -1)))
    case AnswerLine(text) =>
      if st.current.Some? then st.(current := Some(st.current.value.(answers := st.current.value.answers + [text])))
      else st
    case KeyLine(index) =>
      if st.current.Some? then st.(current := Some(st.current.value.(correct := index)))
      else st
    case OtherLine(line) =>
      if st.current.Some? && |st.current.value.answers| == 0 then
        st.(current := Some(st.current.value.(question := st.current.value.question + " " + line)))
      else st
  }

  function LegacyRun(st: LegacyState, ks: seq<LineKind>): LegacyState
  {
    if ks == [] then st else LegacyStep(LegacyRun(st, ks[..|ks| - 1]), ks[|ks| - 1])
  }

  /** The filter behind the warning: questions without four answers or without a marker. */
  function CountInvalid(qs: seq<LegacyQuestion>): (n: nat)
    ensures n <= |qs|
  {
    if qs == [] then 0
    else
      var q := qs[|qs| - 1];
      CountInvalid(qs[..|qs| - 1]) + (if |q.answers| != 4 || q.correct == -1 then 1 else 0)
  }

  /** What reading a document gives: nothing for an empty one, else the title, the questions and the warning count. */
  datatype LegacyOutcome =
    | EmptyDocument
    | Parsed(title: string, questions: seq<LegacyQuestion>, invalidCount: nat)

  /** `parseWordContent` as a function. */
  function ParseLegacy(text: string): LegacyOutcome
  {
    var lines := Lines(text);
    if lines == [] then EmptyDocument
    else
      var st := LegacyRun(LegacyInitial, LineKinds(lines[1..]));
      var qs := KeepIfFour(st.questions, st.current);
      Parsed(StripTitlePrefix(lines[0]), qs, CountInvalid(qs))
  }

  lemma LegacyRunOneMore(lines: seq<string>, i: nat)
    requires 1 <= i < |lines|
    ensures LegacyRun(LegacyInitial, LineKinds(lines[1..i + 1]))
         == LegacyStep(LegacyRun(LegacyInitial, LineKinds(lines[1..i])), ClassifyLine(lines[i]))
  {
    assert lines[1..i + 1][..i - 1] == lines[1..i];
    var ks := LineKinds(lines[1..i + 1]);
    assert ks[..i - 1] == LineKinds(lines[1..i]);
  }

  /**
   * One pass of the loop of `parseWordContent` over a line: a question line
   * pushes the open question when it has four answers and opens a new one;
   * otherwise, with a question open, an answer is appended, a marker sets the
   * correct index, and any other line extends the question text while it has
   * no answers.
   */
  method ReadLine(questions: seq<LegacyQuestion>, current: Option<LegacyQuestion>, line: string)
    returns (questions': seq<LegacyQuestion>, current': Option<LegacyQuestion>)
    ensures LegacyState(questions', current') == LegacyStep(LegacyState(questions, current), ClassifyLine(line))
  {
    questions', current' := questions, current;
    var questionMatch := MatchQuestion(line);
    if questionMatch.Some? {
      assert ClassifyLine(line) == QuestionLine(questionMatch.value);
      if current.Some? && |current.value.answers| == 4 {
        questions' := questions + [current.value];
      }
      current' := Some(LegacyQuestion(questionMatch.value, "", [], -1));
      return;
    }
    var answerMatch := MatchAnswer(line);
    if answerMatch.Some? && current.Some? {
      assert ClassifyLine(line) == AnswerLine(answerMatch.value);
      current' := Some(current.value.(answers := current.value.answers + [answerMatch.value]));
      return;
    }
    var correctMatch := MatchAnswerKey(line);
    if correctMatch.Some? && current.Some? {
      assert ClassifyLine(line) == KeyLine(correctMatch.value);
      current' := Some(current.value.(correct := correctMatch.value));
      return;
    }
    if current.Some? && answerMatch.None? && correctMatch.None? && |current.value.answers| == 0 {
      assert ClassifyLine(line) == OtherLine(line);
      current' := Some(current.value.(question := current.value.question + " " + line));
    } else if current.Some? {
      assert !ClassifyLine(line).QuestionLine?;
    }
  }

  /**
   * `parseWordContent`: the title from the first line, then one pass over the
   * remaining lines with a nullable open question, then the final push and
   * the count behind the format warning.
   */
  method ParseWordContent(text: string) returns (outcome: LegacyOutcome)
    ensures outcome == ParseLegacy(text)
  {
    var lines := Lines(text);
    if |lines| == 0 {
      return EmptyDocument;
    }
    var testName := StripTitlePrefix(lines[0]);
    var questions, current := ReadQuestions(lines);
    if current.Some? && |current.value.answers| == 4 {
      questions := questions + [current.value];
    }
    var invalidCount := CountInvalid(questions);
    outcome := Parsed(testName, questions, invalidCount);
  }

  /** The loop of `parseWordContent` over the lines after the title, one line at a time. */
  method ReadQuestions(lines: seq<string>) returns (questions: seq<LegacyQuestion>, current: Option<LegacyQuestion>)
    requires |lines| >= 1
    ensures LegacyState(questions, current) == LegacyRun(LegacyInitial, LineKinds(lines[1..]))
  {
    questions, current := [], None;
    for i := 1 to |lines|
      invariant LegacyState(questions, current) == LegacyRun(LegacyInitial, LineKinds(lines[1..i]))
    {
      LegacyRunOneMore(lines, i);
      questions, current := ReadLine(questions, current, lines[i]);
    }
    assert lines[1..|lines|] == lines[1..];
  }

  // ----- the structural check of `createTest` -----

  /** A JSON value as `JSON.parse` returns it. */
  datatype Json =
    | JNull
    | JBool(b: bool)
    | JNum(n: real)
    | JStr(s: string)
    | JArr(items: seq<Json>)
    | JObj(fields: map<string, Json>)

  /** A property read: `None` stands for `undefined`. */
  function Field(v: Json, key: string): Option<Json>
  {
    if v.JObj? && key in v.fields then Some(v.fields[key]) else None
  }

  /** JavaScript truthiness (`undefined`, `null`, `false`, `0` and `""` are falsy). */
  predicate Truthy(v: Option<Json>)
  {
    match v
    case None => false
    case Some(JNull) => false
    case Some(JBool(b)) => b
    case Some(JNum(n)) => n != 0.0
    case Some(JStr(s)) => s != ""
    case Some(JArr(_)) => true
    case Some(JObj(_)) => true
  }

  /**
   * The check made on each question: truthy `question`, an array `answers` of
   * four items, a number `correct` (any number: -1 passes).
   */
  predicate WellFormedQuestion(q: Json)
  {
    && Truthy(Field(q, "question"))
    && Field(q, "answers").Some? && Field(q, "answers").value.JArr?
    && |Field(q, "answers").value.items| == 4
    && Field(q, "correct").Some? && Field(q, "correct").value.JNum?
  }

  datatype CreateCheck =
    | MissingTestName          // "Vyplňte název testu!"
    | NotJson                  // `JSON.parse` throws
    | NotNonEmptyArray         // not an array, or an empty one
    | NullQuestion(index: nat) // reading a property of `null` throws
    | BadQuestion(index: nat)  // "Chyba v otázce <index + 1>"
    | Accepted(questions: seq<Json>)

  /** The index of the first question, from `i` on, that makes the `forEach` throw, or `|qs|`. */
  function FirstRejected(qs: seq<Json>, i: nat): (k: nat)
    requires i <= |qs|
    ensures i <= k <= |qs|
    ensures forall j :: i <= j < k ==> qs[j] != JNull && WellFormedQuestion(qs[j])
    ensures k < |qs| ==> qs[k] == JNull || !WellFormedQuestion(qs[k])
    decreases |qs| - i
  {
    if i == |qs| || qs[i] == JNull || !WellFormedQuestion(qs[i]) then i else FirstRejected(qs, i + 1)
  }

  /**
   * The validation of `createTest`: the trimmed name must not be empty, the
   * trimmed questions text must parse (`parsed` is `None` when `JSON.parse`
   * throws), be a non-empty array, and every element must pass the check;
   * the first failing element stops it.
   */
  function CheckCreateTest(testName: string, parsed: Option<Json>): (r: CreateCheck)
    ensures r.MissingTestName? <==> Trim(testName) == []
    ensures r.Accepted? <==> Trim(testName) != [] && parsed.Some? && parsed.value.JArr?
                             && parsed.value.items != []
                             && forall j :: 0 <= j < |parsed.value.items| ==>
                                  parsed.value.items[j] != JNull && WellFormedQuestion(parsed.value.items[j])
    ensures r.Accepted? ==> r.questions == parsed.value.items
    ensures (r.BadQuestion? || r.NullQuestion?) ==>
              parsed.Some? && parsed.value.JArr? &&
              var qs := parsed.value.items;
              r.index < |qs| && (forall j :: 0 <= j < r.index ==> qs[j] != JNull && WellFormedQuestion(qs[j]))
              && (r.NullQuestion? <==> qs[r.index] == JNull)
    ensures r.NotJson? <==> Trim(testName) != [] && parsed.None?
    ensures r.NotNonEmptyArray? <==>
              Trim(testName) != [] && parsed.Some? && (!parsed.value.JArr? || parsed.value.items == [])
    ensures Trim(testName) != [] && parsed.Some? && parsed.value.JArr? && parsed.value.items != []
            && FirstRejected(parsed.value.items, 0) < |parsed.value.items| ==>
              (r.BadQuestion? || r.NullQuestion?) && r.index == FirstRejected(parsed.value.items, 0)
  {
    if Trim(testName) == [] then MissingTestName
    else if parsed.None? then NotJson
    else if !parsed.value.JArr? || |parsed.value.items| == 0 then NotNonEmptyArray
    else
      var qs := parsed.value.items;
      var k := FirstRejected(qs, 0);
      if k == |qs| then Accepted(qs)
      else if qs[k] == JNull then NullQuestion(k)
      else BadQuestion(k)
  }

  /** What `JSON.parse(JSON.stringify(q))` gives for a legacy question. */
  function QuestionToJson(q: LegacyQuestion): Json
  {
    JObj(map["question" := JStr(q.question), "image" := JStr(q.image),
             "answers" := JArr(seq(|q.answers|, i requires 0 <= i < |q.answers| => JStr(q.answers[i]))),
             "correct" := JNum(q.correct as real)])
  }

  function QuestionsToJson(qs: seq<LegacyQuestion>): (j: Json)
    ensures j.JArr? && |j.items| == |qs|
    ensures forall i :: 0 <= i < |qs| ==> j.items[i] == QuestionToJson(qs[i])
  {
    JArr(seq(|qs|, i requires 0 <= i < |qs| => QuestionToJson(qs[i])))
  }
}
