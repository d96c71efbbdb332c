/**
 * What the legacy line-based parser of teacher.js guarantees, and how its
 * output meets the structural check of `createTest`.
 *
 * `ParseIsDeclared` equates the one-pass state machine with a definition by
 * segments: the classified lines after the title are cut at every question
 * line; a segment's question has the question text followed by every other
 * line that comes before its first answer (each after one space), all its
 * answers in order and the index of its last key (-1 without one), and it is
 * kept exactly when it has four answers.
 */
module TeacherProofs {
  import opened Wrappers
  import opened Text
  import opened Patterns
  import opened Teacher

  // ----- the definition by segments -----

  predicate NoQuestionIn(ks: seq<LineKind>, lo: nat, hi: nat)
    requires lo <= hi <= |ks|
  {
    forall i :: lo <= i < hi ==> !ks[i].QuestionLine?
  }

  /** The first question line from `from` on, or `|ks|`. */
  function NextQuestion(ks: seq<LineKind>, from: nat): (k: nat)
    requires from <= |ks|
    ensures from <= k <= |ks| && NoQuestionIn(ks, from, k)
    ensures k < |ks| ==> ks[k].QuestionLine?
    decreases |ks| - from
  {
    if from == |ks| || ks[from].QuestionLine? then from else NextQuestion(ks, from + 1)
  }

  function SegmentEnd(ks: seq<LineKind>, k: nat): (j: nat)
    requires k < |ks|
    ensures k < j <= |ks| && NoQuestionIn(ks, k + 1, j)
    ensures j < |ks| ==> ks[j].QuestionLine?
  {
    NextQuestion(ks, k + 1)
  }

  /** The answers among the positions `lo` to `hi - 1`, in order. */
  function AnswersIn(ks: seq<LineKind>, lo: nat, hi: nat): seq<string>
    requires lo <= hi <= |ks|
    decreases hi - lo
  {
    if lo == hi then []
    else AnswersIn(ks, lo, hi - 1) + (if ks[hi - 1].AnswerLine? then [ks[hi - 1].text] else [])
  }

  /** The index of the last key among the positions `lo` to `hi - 1`. */
  function LastKeyIn(ks: seq<LineKind>, lo: nat, hi: nat): Option<int>
    requires lo <= hi <= |ks|
    decreases hi - lo
  {
    if lo == hi then None
    else if ks[hi - 1].KeyLine? then Some(ks[hi - 1].index)
    else LastKeyIn(ks, lo, hi - 1)
  }

  /** The continuation of the question text: each other line that comes before any answer, after a space. */
  function ContinuationIn(ks: seq<LineKind>, lo: nat, hi: nat): string
    requires lo <= hi <= |ks|
    decreases hi - lo
  {
    if lo == hi then ""
    else
      ContinuationIn(ks, lo, hi - 1)
      + (if ks[hi - 1].OtherLine? && AnswersIn(ks, lo, hi - 1) == [] then " " + ks[hi - 1].line else "")
  }

  /** The question the segment whose question line is at `k` builds. */
  function Built(ks: seq<LineKind>, k: nat): LegacyQuestion
    requires k < |ks| && ks[k].QuestionLine?
  {
    var j := SegmentEnd(ks, k);
    LegacyQuestion(ks[k].text + ContinuationIn(ks, k + 1, j), "", AnswersIn(ks, k + 1, j),
                   LastKeyIn(ks, k + 1, j).GetOr(-1))
  }

  /** The questions kept from position `from` on. */
  function Declared(ks: seq<LineKind>, from: nat): seq<LegacyQuestion>
    requires from <= |ks|
    decreases |ks| - from
  {
    var k := NextQuestion(ks, from);
    if k == |ks| then []
    else if |Built(ks, k).answers| == 4 then [Built(ks, k)] + Declared(ks, SegmentEnd(ks, k))
    else Declared(ks, SegmentEnd(ks, k))
  }

  /** The positions of the question lines whose questions are kept. */
  function DeclaredLines(ks: seq<LineKind>, from: nat): seq<nat>
    requires from <= |ks|
    decreases |ks| - from
  {
    var k := NextQuestion(ks, from);
    if k == |ks| then []
    else if |Built(ks, k).answers| == 4 then [k] + DeclaredLines(ks, SegmentEnd(ks, k))
    else DeclaredLines(ks, SegmentEnd(ks, k))
  }

  // ----- the state machine, piece by piece -----

  function Finish(st: LegacyState): seq<LegacyQuestion>
  {
    KeepIfFour(st.questions, st.current)
  }

  lemma {:induction false} RunAppend(st: LegacyState, a: seq<LineKind>, b: seq<LineKind>)
    ensures LegacyRun(st, a + b) == LegacyRun(LegacyRun(st, a), b)
    decreases |b|
  {
    if b == [] {
      assert a + b == a;
    } else {
      var ab := a + b;
      assert ab[..|ab| - 1] == a + b[..|b| - 1];
      assert ab[|ab| - 1] == b[|b| - 1];
      RunAppend(st, a, b[..|b| - 1]);
    }
  }

  lemma RunOne(st: LegacyState, k: LineKind)
    ensures LegacyRun(st, [k]) == LegacyStep(st, k)
  {
    assert [k][..0] == [];
  }

  lemma RunLast(st: LegacyState, ks: seq<LineKind>, lo: nat, hi: nat)
    requires lo < hi <= |ks|
    ensures LegacyRun(st, ks[lo..hi]) == LegacyStep(LegacyRun(st, ks[lo..hi - 1]), ks[hi - 1])
  {
    assert ks[lo..hi][..hi - lo - 1] == ks[lo..hi - 1];
  }

  /** With no question open, lines other than question lines change nothing. */
  lemma {:induction false} IdleRun(qs: seq<LegacyQuestion>, ks: seq<LineKind>, lo: nat, hi: nat)
    requires lo <= hi <= |ks| && NoQuestionIn(ks, lo, hi)
    ensures LegacyRun(LegacyState(qs, None), ks[lo..hi]) == LegacyState(qs, None)
    decreases hi - lo
  {
    if lo < hi {
      RunLast(LegacyState(qs, None), ks, lo, hi);
      IdleRun(qs, ks, lo, hi - 1);
    }
  }

  /** The open question `d` after the positions `lo` to `hi - 1`, when it had no answer yet. */
  function Absorbed(d: LegacyQuestion, ks: seq<LineKind>, lo: nat, hi: nat): LegacyQuestion
    requires lo <= hi <= |ks|
  {
    d.(question := d.question + ContinuationIn(ks, lo, hi),
       answers := AnswersIn(ks, lo, hi),
       correct := LastKeyIn(ks, lo, hi).GetOr(d.correct))
  }

  /** With a question open and no answer yet, the lines of its segment only add to it. */
  lemma {:induction false} BodyRun(qs: seq<LegacyQuestion>, d: LegacyQuestion, ks: seq<LineKind>, lo: nat, hi: nat)
    requires lo <= hi <= |ks| && NoQuestionIn(ks, lo, hi) && d.answers == []
    ensures LegacyRun(LegacyState(qs, Some(d)), ks[lo..hi]) == LegacyState(qs, Some(Absorbed(d, ks, lo, hi)))
    decreases hi - lo
  {
    if lo < hi {
      RunLast(LegacyState(qs, Some(d)), ks, lo, hi);
      BodyRun(qs, d, ks, lo, hi - 1);
      AbsorbStep(qs, d, ks, lo, hi);
    } else {
      assert d.question + "" == d.question;
    }
  }

  /** One more line of the segment, taken by the state machine, is one more position absorbed. */
  lemma AbsorbStep(qs: seq<LegacyQuestion>, d: LegacyQuestion, ks: seq<LineKind>, lo: nat, hi: nat)
    requires lo < hi <= |ks| && !ks[hi - 1].QuestionLine? && d.answers == []
    ensures LegacyStep(LegacyState(qs, Some(Absorbed(d, ks, lo, hi - 1))), ks[hi - 1])
         == LegacyState(qs, Some(Absorbed(d, ks, lo, hi)))
  {
    var q := Absorbed(d, ks, lo, hi - 1);
    var prev := AnswersIn(ks, lo, hi - 1);
    var text := ContinuationIn(ks, lo, hi - 1);
    match ks[hi - 1] {
      case AnswerLine(a) =>
        assert text + "" == text;
      case KeyLine(index) =>
        assert prev + [] == prev;
        assert text + "" == text;
      case OtherLine(line) =>
        assert prev + [] == prev;
        if prev == [] {
          assert d.question + ContinuationIn(ks, lo, hi) == q.question + " " + line;
        } else {
          assert d.question + ContinuationIn(ks, lo, hi) == q.question;
        }
    }
  }

  /** Once the next question line arrives (or the input ends), the open question is kept or dropped. */
  lemma Handover(qs: seq<LegacyQuestion>, q: LegacyQuestion, rest: seq<LineKind>)
    requires rest == [] || rest[0].QuestionLine?
    ensures Finish(LegacyRun(LegacyState(qs, Some(q)), rest))
         == Finish(LegacyRun(LegacyState(KeepIfFour(qs, Some(q)), None), rest))
  {
    if rest != [] {
      var a := LegacyState(qs, Some(q));
      var b := LegacyState(KeepIfFour(qs, Some(q)), None);
      assert rest == [rest[0]] + rest[1..];
      RunAppend(a, [rest[0]], rest[1..]);
      RunAppend(b, [rest[0]], rest[1..]);
      RunOne(a, rest[0]);
      RunOne(b, rest[0]);
    }
  }

  /** Idle lines, a question line and its segment leave exactly the built question open. */
  lemma OpenSegment(qs: seq<LegacyQuestion>, ks: seq<LineKind>, from: nat, k: nat)
    requires from <= k < |ks| && NoQuestionIn(ks, from, k) && ks[k].QuestionLine?
    ensures LegacyRun(LegacyState(qs, None), ks[from..SegmentEnd(ks, k)]) == LegacyState(qs, Some(Built(ks, k)))
  {
    var s0 := LegacyState(qs, None);
    var j := SegmentEnd(ks, k);
    var started := LegacyQuestion(ks[k].text, "", [], -1);
    assert ks[from..j] == ks[from..k] + [ks[k]] + ks[k + 1..j];
    IdleRun(qs, ks, from, k);
    RunAppend(s0, ks[from..k] + [ks[k]], ks[k + 1..j]);
    RunAppend(s0, ks[from..k], [ks[k]]);
    RunOne(s0, ks[k]);
    BodyRun(qs, started, ks, k + 1, j);
    assert Absorbed(started, ks, k + 1, j) == Built(ks, k);
  }

  lemma DeclaredSegment(qs: seq<LegacyQuestion>, ks: seq<LineKind>, from: nat)
    requires from <= |ks| && NextQuestion(ks, from) < |ks|
    ensures var k := NextQuestion(ks, from);
            KeepIfFour(qs, Some(Built(ks, k))) + Declared(ks, SegmentEnd(ks, k)) == qs + Declared(ks, from)
  {
    var k := NextQuestion(ks, from);
    var q := Built(ks, k);
    if |q.answers| == 4 {
      var rest := Declared(ks, SegmentEnd(ks, k));
      assert (qs + [q]) + rest == qs + ([q] + rest);
    }
  }

  /** The state machine, started with `qs` kept and nothing open, keeps what `Declared` keeps. */
  lemma {:induction false} RunIsDeclared(qs: seq<LegacyQuestion>, ks: seq<LineKind>, from: nat)
    requires from <= |ks|
    ensures Finish(LegacyRun(LegacyState(qs, None), ks[from..])) == qs + Declared(ks, from)
    decreases |ks| - from
  {
    var s0 := LegacyState(qs, None);
    var k := NextQuestion(ks, from);
    if k == |ks| {
      IdleRun(qs, ks, from, k);
      assert ks[from..k] == ks[from..];
    } else {
      var j := SegmentEnd(ks, k);
      var q := Built(ks, k);
      assert ks[from..] == ks[from..j] + ks[j..];
      RunAppend(s0, ks[from..j], ks[j..]);
      OpenSegment(qs, ks, from, k);
      Handover(qs, q, ks[j..]);
      RunIsDeclared(KeepIfFour(qs, Some(q)), ks, j);
      DeclaredSegment(qs, ks, from);
    }
  }

  /**
   * `parseWordContent` and the definition by segments agree: the title is the
   * first line with its prefix stripped, and the questions are those declared
   * from the classified lines after it.
   */
  lemma ParseIsDeclared(text: string)
    requires Lines(text) != []
    ensures ParseLegacy(text).Parsed?
    ensures ParseLegacy(text).title == StripTitlePrefix(Lines(text)[0])
    ensures ParseLegacy(text).questions == Declared(LineKinds(Lines(text)[1..]), 0)
  {
    var ks := LineKinds(Lines(text)[1..]);
    assert ks[0..] == ks;
    RunIsDeclared([], ks, 0);
  }

  /** Nothing is parsed exactly when the text is white space only. */
  lemma EmptyDocumentIff(text: string)
    ensures ParseLegacy(text).EmptyDocument? <==> AllSpace(text)
  {
    var pieces := Split(text, '\n');
    TrimmedLinesEmpty(pieces);
    JoinAllSpace(pieces, '\n');
    assert ParseLegacy(text).EmptyDocument? <==> TrimmedLines(pieces) == [];
  }

  // ----- properties of the output -----

  /** Every kept question has exactly four answers and is the question its segment builds. */
  lemma {:induction false} DeclaredInOrder(ks: seq<LineKind>, from: nat)
    requires from <= |ks|
    ensures |DeclaredLines(ks, from)| == |Declared(ks, from)|
    ensures forall i :: 0 <= i < |DeclaredLines(ks, from)| ==>
              from <= DeclaredLines(ks, from)[i] < |ks| && ks[DeclaredLines(ks, from)[i]].QuestionLine?
              && Declared(ks, from)[i] == Built(ks, DeclaredLines(ks, from)[i])
              && |Declared(ks, from)[i].answers| == 4
    decreases |ks| - from
  {
    var k := NextQuestion(ks, from);
    if k < |ks| {
      var j := SegmentEnd(ks, k);
      DeclaredInOrder(ks, j);
      var lines, qs := DeclaredLines(ks, j), Declared(ks, j);
      if |Built(ks, k).answers| == 4 {
        assert DeclaredLines(ks, from) == [k] + lines;
        assert Declared(ks, from) == [Built(ks, k)] + qs;
      } else {
        assert DeclaredLines(ks, from) == lines;
        assert Declared(ks, from) == qs;
      }
    }
  }

  /** The kept question lines are strictly increasing: document order is preserved. */
  lemma {:induction false} DeclaredLinesIncreasing(ks: seq<LineKind>, from: nat)
    requires from <= |ks|
    ensures forall i :: 0 <= i < |DeclaredLines(ks, from)| ==> from <= DeclaredLines(ks, from)[i]
    ensures forall i, i' :: 0 <= i < i' < |DeclaredLines(ks, from)| ==>
              DeclaredLines(ks, from)[i] < DeclaredLines(ks, from)[i']
    decreases |ks| - from
  {
    var k := NextQuestion(ks, from);
    if k < |ks| {
      DeclaredLinesIncreasing(ks, SegmentEnd(ks, k));
    }
  }

  /** A question line is kept exactly when its segment holds four answers. */
  lemma {:induction false} DeclaredLinesExact(ks: seq<LineKind>, from: nat, p: nat)
    requires from <= p < |ks| && ks[p].QuestionLine?
    ensures p in DeclaredLines(ks, from) <==> |AnswersIn(ks, p + 1, SegmentEnd(ks, p))| == 4
    decreases |ks| - from
  {
    var k := NextQuestion(ks, from);
    var j := SegmentEnd(ks, k);
    DeclaredLinesIncreasing(ks, j);
    if k < p {
      DeclaredLinesExact(ks, j, p);
    }
  }

  /** A later key overrides an earlier one: the last key of a segment gives `correct`. */
  lemma {:induction false} LastKeyWins(ks: seq<LineKind>, lo: nat, hi: nat)
    requires lo <= hi <= |ks|
    ensures LastKeyIn(ks, lo, hi).None? <==> forall i :: lo <= i < hi ==> !ks[i].KeyLine?
    ensures LastKeyIn(ks, lo, hi).Some? ==>
              exists i :: lo <= i < hi && ks[i].KeyLine? && LastKeyIn(ks, lo, hi).value == ks[i].index
                          && forall j :: i < j < hi ==> !ks[j].KeyLine?
    decreases hi - lo
  {
    if lo < hi && !ks[hi - 1].KeyLine? {
      LastKeyWins(ks, lo, hi - 1);
    }
  }

  /** Other lines after the first answer are dropped: they add nothing to the text. */
  lemma {:induction false} ContinuationStops(ks: seq<LineKind>, lo: nat, mid: nat, hi: nat)
    requires lo <= mid <= hi <= |ks| && AnswersIn(ks, lo, mid) != []
    ensures ContinuationIn(ks, lo, hi) == ContinuationIn(ks, lo, mid)
    ensures AnswersIn(ks, lo, hi) != []
    decreases hi - mid
  {
    if mid < hi {
      ContinuationStops(ks, lo, mid, hi - 1);
      var before := ContinuationIn(ks, lo, hi - 1);
      assert AnswersIn(ks, lo, hi - 1) != [];
      assert ContinuationIn(ks, lo, hi) == before + "";
      assert before + "" == before;
    }
  }

  // ----- the values the classified lines can take -----

  /** What the matchers guarantee about a classified line. */
  predicate KindOk(k: LineKind)
  {
    (k.QuestionLine? ==> k.text != []) && (k.KeyLine? ==> 0 <= k.index <= 3)
  }

  lemma {:induction false} LineKindsOk(lines: seq<string>)
    ensures forall i :: 0 <= i < |LineKinds(lines)| ==> KindOk(LineKinds(lines)[i])
  {
    if lines != [] {
      LineKindsOk(lines[..|lines| - 1]);
    }
  }

  /** A question of the output: non-empty text, four answers, `correct` -1 or an index 0 to 3. */
  predicate KeptOk(q: LegacyQuestion)
  {
    q.question != [] && |q.answers| == 4 && -1 <= q.correct <= 3
  }

  lemma {:induction false} LastKeyRange(ks: seq<LineKind>, lo: nat, hi: nat)
    requires lo <= hi <= |ks| && forall i :: lo <= i < hi ==> KindOk(ks[i])
    ensures LastKeyIn(ks, lo, hi).Some? ==> 0 <= LastKeyIn(ks, lo, hi).value <= 3
    decreases hi - lo
  {
    if lo < hi && !ks[hi - 1].KeyLine? {
      LastKeyRange(ks, lo, hi - 1);
    }
  }

  lemma DeclaredOk(ks: seq<LineKind>)
    requires forall i :: 0 <= i < |ks| ==> KindOk(ks[i])
    ensures forall i :: 0 <= i < |Declared(ks, 0)| ==> KeptOk(Declared(ks, 0)[i])
  {
    DeclaredInOrder(ks, 0);
    forall i | 0 <= i < |Declared(ks, 0)| ensures KeptOk(Declared(ks, 0)[i]) {
      var k := DeclaredLines(ks, 0)[i];
      LastKeyRange(ks, k + 1, SegmentEnd(ks, k));
    }
  }

  /**
   * Every question `parseWordContent` keeps has text, exactly four answers and
   * `correct` between -1 and 3; the warning counts exactly those still at -1.
   */
  lemma ParsedQuestionsOk(text: string)
    requires ParseLegacy(text).Parsed?
    ensures forall i :: 0 <= i < |ParseLegacy(text).questions| ==> KeptOk(ParseLegacy(text).questions[i])
    ensures ParseLegacy(text).invalidCount == CountUnkeyed(ParseLegacy(text).questions)
  {
    ParseIsDeclared(text);
    LineKindsOk(Lines(text)[1..]);
    DeclaredOk(LineKinds(Lines(text)[1..]));
    InvalidAreUnkeyed(ParseLegacy(text).questions);
  }

  /** The number of questions whose `correct` is still -1. */
  function CountUnkeyed(qs: seq<LegacyQuestion>): (n: nat)
    ensures n <= |qs|
  {
    if qs == [] then 0
    else CountUnkeyed(qs[..|qs| - 1]) + (if qs[|qs| - 1].correct == -1 then 1 else 0)
  }

  lemma {:induction false} InvalidAreUnkeyed(qs: seq<LegacyQuestion>)
    requires forall i :: 0 <= i < |qs| ==> |qs[i].answers| == 4
    ensures CountInvalid(qs) == CountUnkeyed(qs)
  {
    if qs != [] {
      InvalidAreUnkeyed(qs[..|qs| - 1]);
    }
  }

  /** Questions of the output shape, with a title, pass the check of `createTest`. */
  lemma KeptQuestionsAccepted(title: string, qs: seq<LegacyQuestion>)
    requires Trim(title) != [] && qs != []
    requires forall i :: 0 <= i < |qs| ==> KeptOk(qs[i])
    ensures CheckCreateTest(title, Some(QuestionsToJson(qs))).Accepted?
  {
    var j := QuestionsToJson(qs);
    forall i | 0 <= i < |j.items| ensures j.items[i] != JNull && WellFormedQuestion(j.items[i]) {
      assert j.items[i] == QuestionToJson(qs[i]);
      KeptQuestionWellFormed(qs[i]);
    }
  }

  /** One kept question, written out as JSON, passes the per-question check. */
  lemma KeptQuestionWellFormed(q: LegacyQuestion)
    requires KeptOk(q)
    ensures QuestionToJson(q) != JNull && WellFormedQuestion(QuestionToJson(q))
  {
  }

  /**
   * What the parser writes into the questions field passes the check of
   * `createTest`, as long as there is at least one question and a title.
   */
  lemma ParsedOutputAccepted(text: string)
    requires ParseLegacy(text).Parsed? && ParseLegacy(text).questions != []
    requires Trim(ParseLegacy(text).title) != []
    ensures CheckCreateTest(ParseLegacy(text).title, Some(QuestionsToJson(ParseLegacy(text).questions))).Accepted?
  {
    ParsedQuestionsOk(text);
    KeptQuestionsAccepted(ParseLegacy(text).title, ParseLegacy(text).questions);
  }

  /** The check accepts a question whose `correct` is -1: it only asks for a number. */
  lemma UnkeyedQuestionAccepted()
    ensures WellFormedQuestion(QuestionToJson(LegacyQuestion("Q", "", ["a", "b", "c", "d"], -1)))
  {
  }
}
