/**
 * The student's page of the legacy tool: the identity check before the test
 * starts, the answer array and the question cursor while it runs, and the
 * scoring and grading when it is submitted.
 */
module Student {
  import opened Wrappers
  import opened Text

  /** The four grade thresholds of a test (`testData.grading`), in percent. */
  datatype Grading = Grading(grade1: int, grade2: int, grade3: int, grade4: int)

  /**
   * The grade for a percentage: the first threshold the percentage reaches
   * decides, tried from grade 1 to grade 4; otherwise 5. `None` stands for the
   * not-a-number percentage of a test without questions, which every
   * comparison rejects.
   */
  function CalculateGrade(percentage: Option<int>, g: Grading): (grade: nat)
    ensures 1 <= grade <= 5
    ensures grade == 1 <==> percentage.Some? && percentage.value >= g.grade1
    ensures grade == 5 <==>
      (percentage.None? ||
       (percentage.value < g.grade1 && percentage.value < g.grade2 &&
        percentage.value < g.grade3 && percentage.value < g.grade4))
  {
    match percentage
    case None => 5
    case Some(p) =>
      if p >= g.grade1 then 1
      else if p >= g.grade2 then 2
      else if p >= g.grade3 then 3
      else if p >= g.grade4 then 4
      else 5
  }

  /** The `k`-th threshold, `k` from 1 to 4. */
  function Threshold(g: Grading, k: nat): int
    requires 1 <= k <= 4
  {
    if k == 1 then g.grade1 else if k == 2 then g.grade2 else if k == 3 then g.grade3 else g.grade4
  }

  /** The grade is the first threshold the percentage reaches, for any thresholds whatever. */
  lemma GradeIsFirstReached(p: int, g: Grading)
    ensures var grade := CalculateGrade(Some(p), g);
      (grade <= 4 ==> p >= Threshold(g, grade)) &&
      (forall k :: 1 <= k < grade && k <= 4 ==> p < Threshold(g, k))
  {
  }

  /**
   * A higher percentage never gets a numerically larger grade. This holds for
   * any thresholds, ordered or not, because the first reached threshold can
   * only move earlier as the percentage grows.
   */
  lemma GradeMonotone(p: int, q: int, g: Grading)
    requires p <= q
    ensures CalculateGrade(Some(q), g) <= CalculateGrade(Some(p), g)
  {
    GradeIsFirstReached(p, g);
    GradeIsFirstReached(q, g);
    var gp := CalculateGrade(Some(p), g);
    if gp <= 4 {
      assert q >= Threshold(g, gp);
    }
  }

  /** How many of the given thresholds lie above the percentage. */
  function Missed(p: int, g: Grading): (m: nat)
    ensures m <= 4
  {
    (if p < g.grade1 then 1 else 0) + (if p < g.grade2 then 1 else 0) +
    (if p < g.grade3 then 1 else 0) + (if p < g.grade4 then 1 else 0)
  }

  /** With non-increasing thresholds the grade is one more than the number of thresholds the percentage misses. */
  lemma GradeCountsMissed(p: int, g: Grading)
    requires g.grade1 >= g.grade2 >= g.grade3 >= g.grade4
    ensures CalculateGrade(Some(p), g) == 1 + Missed(p, g)
  {
  }

  /** The scale of the sample test: 90, 75, 60 and 40 percent. */
  const SampleScale: Grading := Grading(90, 75, 60, 40)

  /** The sample results: 100 percent is graded 1 and 50 percent is graded 4; each threshold is inclusive. */
  lemma SampleScaleGrades()
    ensures CalculateGrade(Some(100), SampleScale) == 1
    ensures CalculateGrade(Some(50), SampleScale) == 4
    ensures CalculateGrade(Some(90), SampleScale) == 1 && CalculateGrade(Some(89), SampleScale) == 2
    ensures CalculateGrade(Some(75), SampleScale) == 2 && CalculateGrade(Some(74), SampleScale) == 3
    ensures CalculateGrade(Some(60), SampleScale) == 3 && CalculateGrade(Some(59), SampleScale) == 4
    ensures CalculateGrade(Some(40), SampleScale) == 4 && CalculateGrade(Some(39), SampleScale) == 5
  {
  }

  /** Whether a recorded answer equals the question's correct index (`===`; an unanswered slot never does). */
  predicate Matches(answer: Option<nat>, correct: int)
  {
    answer.Some? && answer.value as int == correct
  }

  /** The number of questions among the first `n` whose answer equals the key. */
  function CountCorrect(answers: seq<Option<nat>>, keys: seq<int>, n: nat): (c: nat)
    requires n <= |answers| && n <= |keys|
    ensures c <= n
  {
    if n == 0 then 0
    else CountCorrect(answers, keys, n - 1) + (if Matches(answers[n - 1], keys[n - 1]) then 1 else 0)
  }

  /** The questions among the first `n` answered correctly. */
  function CorrectSet(answers: seq<Option<nat>>, keys: seq<int>, n: nat): set<nat>
    requires n <= |answers| && n <= |keys|
  {
    set i: nat | i < n && Matches(answers[i], keys[i])
  }

  /** The count is the number of indices whose answer equals the key. */
  lemma {:induction false} CountIsSize(answers: seq<Option<nat>>, keys: seq<int>, n: nat)
    requires n <= |answers| && n <= |keys|
    ensures CountCorrect(answers, keys, n) == |CorrectSet(answers, keys, n)|
  {
    if n > 0 {
      CountIsSize(answers, keys, n - 1);
      CorrectSetStep(answers, keys, n);
    }
  }

  /** The correctly answered questions among the first `n` are those among the first `n - 1`, and maybe question `n - 1`. */
  lemma CorrectSetStep(answers: seq<Option<nat>>, keys: seq<int>, n: nat)
    requires 0 < n <= |answers| && n <= |keys|
    ensures n - 1 !in CorrectSet(answers, keys, n - 1)
    ensures CorrectSet(answers, keys, n)
         == CorrectSet(answers, keys, n - 1) + (if Matches(answers[n - 1], keys[n - 1]) then {n - 1} else {})
  {
  }

  /** All answers right gives the full count; no answer right (every slot empty, or every key -1) gives zero. */
  lemma {:induction false} CountExtremes(answers: seq<Option<nat>>, keys: seq<int>, n: nat)
    requires n <= |answers| && n <= |keys|
    ensures (forall i :: 0 <= i < n ==> Matches(answers[i], keys[i])) ==> CountCorrect(answers, keys, n) == n
    ensures (forall i :: 0 <= i < n ==> !Matches(answers[i], keys[i])) ==> CountCorrect(answers, keys, n) == 0
  {
    if n > 0 {
      CountExtremes(answers, keys, n - 1);
    }
  }

  /**
   * `Math.round(correct / total * 100)`, taken as exact half-up rounding of the
   * ratio; `None` when there are no questions (not a number).
   */
  function Percent(correct: nat, total: nat): (p: Option<nat>)
    ensures p.None? <==> total == 0
    ensures p.Some? ==> 2 * total * p.value <= 200 * correct + total < 2 * total * (p.value + 1)
  {
    if total == 0 then None else Some((200 * correct + total) / (2 * total))
  }

  /** Multiplying by a positive factor keeps the order of two integers. */
  lemma MulCompare(k: int, a: int, b: int)
    requires k > 0
    ensures k * a <= k * b <==> a <= b
    ensures k * a < k * b <==> a < b
  {
    assert k * b - k * a == k * (b - a);
    if a <= b {
      assert k * (b - a) >= 0;
    } else {
      assert k * (a - b) > 0;
    }
  }

  /** The percentage lies between 0 and 100; it is 100 exactly for a (nearly) full score and 0 for an empty one. */
  lemma PercentRange(correct: nat, total: nat)
    requires 0 < total && correct <= total
    ensures Percent(correct, total).value <= 100
    ensures Percent(correct, total).value == 100 <==> 200 * correct >= 199 * total
    ensures correct == total ==> Percent(correct, total).value == 100
    ensures correct == 0 ==> Percent(correct, total).value == 0
  {
    var p := Percent(correct, total).value;
    var k := 2 * total;
    var x := 200 * correct + total;
    assert k * p <= x < k * (p + 1);
    MulCompare(k, p, 101);
    MulCompare(k, 100, p + 1);
    MulCompare(k, 100, p);
    MulCompare(k, p, 1);
  }

  /** More correct answers never lower the percentage. */
  lemma PercentMonotone(c1: nat, c2: nat, total: nat)
    requires 0 < total && c1 <= c2
    ensures Percent(c1, total).value <= Percent(c2, total).value
  {
    var p1 := Percent(c1, total).value;
    var p2 := Percent(c2, total).value;
    var k := 2 * total;
    assert k * p1 <= 200 * c1 + total <= 200 * c2 + total < k * (p2 + 1);
    MulCompare(k, p1, p2 + 1);
  }

  /** The slot of the first unanswered question (`findIndex` of `null`), or -1 when all are answered. */
  function FirstUnanswered(answers: seq<Option<nat>>): (r: int)
    ensures -1 <= r < |answers|
    ensures r == -1 <==> forall i :: 0 <= i < |answers| ==> answers[i].Some?
    ensures r >= 0 ==> answers[r].None? && forall i :: 0 <= i < r ==> answers[i].Some?
  {
    if answers == [] then -1
    else if answers[0].None? then 0
    else
      var r := FirstUnanswered(answers[1..]);
      if r == -1 then -1 else r + 1
  }

  /** The student's name and class, trimmed. */
  datatype StudentInfo = StudentInfo(firstName: string, lastName: string, className: string)

  /** The identity check of `startTest`: all three fields must be non-blank; they are kept trimmed. */
  function StartCheck(firstName: string, lastName: string, className: string): (info: Option<StudentInfo>)
    ensures info.Some? <==> !AllSpace(firstName) && !AllSpace(lastName) && !AllSpace(className)
    ensures info.Some? ==> info.value.firstName == Trim(firstName) && info.value.lastName == Trim(lastName)
                           && info.value.className == Trim(className)
  {
    TrimEmptyIff(firstName);
    TrimEmptyIff(lastName);
    TrimEmptyIff(className);
    var f := Trim(firstName);
    var l := Trim(lastName);
    var c := Trim(className);
    if f == [] || l == [] || c == [] then None else Some(StudentInfo(f, l, c))
  }

  /** An accepted identity passes the check again unchanged. */
  lemma StartCheckIdempotent(firstName: string, lastName: string, className: string)
    requires StartCheck(firstName, lastName, className).Some?
    ensures var info := StartCheck(firstName, lastName, className).value;
      StartCheck(info.firstName, info.lastName, info.className) == Some(info)
  {
    TrimIdempotent(firstName);
    TrimIdempotent(lastName);
    TrimIdempotent(className);
  }

  /** The cursor after "previous": one back, unless already at the first question. */
  function PreviousIndex(index: nat): (r: nat)
    ensures r <= index
    ensures index > 0 ==> r == index - 1
  {
    if index > 0 then index - 1 else index
  }

  /** The cursor after "next": one on, unless already at the last of `n` questions. */
  function NextIndex(index: nat, n: nat): (r: nat)
    ensures index <= r
    ensures index + 1 < n ==> r == index + 1
    ensures index < n ==> r < n
  {
    if (index as int) < n - 1 then index + 1 else index
  }

  /** "Next" then "previous" comes back, except at the last question. */
  lemma PreviousUndoesNext(index: nat, n: nat)
    requires index + 1 < n
    ensures PreviousIndex(NextIndex(index, n)) == index
  {
  }

  /** "Previous" then "next" comes back, except at the first question. */
  lemma NextUndoesPrevious(index: nat, n: nat)
    requires 0 < index < n
    ensures NextIndex(PreviousIndex(index), n) == index
  {
  }

  /** What a submission computes. */
  datatype Score = Score(correctCount: nat, percentage: Option<nat>, grade: nat)

  /** The state of the student's page while a test is taken. */
  class TestSession {
    /** The correct answer index of each question (`testData.questions[i].correct`). */
    const keys: seq<int>
    /** `studentAnswers`: the chosen option index of each question, `None` while unanswered. */
    var answers: seq<Option<nat>>
    /** `currentQuestionIndex`. */
    var index: nat
    /** `studentInfo`, set once the identity check passes. */
    var student: Option<StudentInfo>

    /** One answer slot per question, and the cursor on a question (or at 0 when there are none). */
    ghost predicate Valid()
      reads this
    {
      |answers| == |keys| && (index < |keys| || index == 0)
    }

    /** A loaded test: one empty answer slot per question, the cursor at the first question. */
    constructor(keys: seq<int>)
      ensures Valid()
      ensures this.keys == keys
      ensures answers == seq(|keys|, _ => None)
      ensures index == 0 && student.None?
    {
      this.keys := keys;
      answers := seq(|keys|, _ => None);
      index := 0;
      student := None;
    }

    /** `startTest`: with a complete identity the student is recorded and the first question shown. */
    method Start(firstName: string, lastName: string, className: string) returns (started: bool)
      requires Valid()
      modifies this
      ensures Valid()
      ensures started <==> StartCheck(firstName, lastName, className).Some?
      ensures started ==> student == StartCheck(firstName, lastName, className) && index == 0
      ensures !started ==> student == old(student) && index == old(index)
      ensures answers == old(answers)
    {
      var info := StartCheck(firstName, lastName, className);
      started := Admit(info);
    }

    /** Records an identity that passed the check and moves to the first question. */
    method Admit(info: Option<StudentInfo>) returns (admitted: bool)
      requires Valid()
      modifies this
      ensures Valid()
      ensures admitted <==> info.Some?
      ensures admitted ==> student == info && index == 0
      ensures !admitted ==> student == old(student) && index == old(index)
      ensures answers == old(answers)
    {
      admitted := info.Some?;
      if admitted {
        student := info;
        index := 0;
      }
    }

    /** `selectAnswer`: records the option in the current question's slot and nowhere else. */
    method SelectAnswer(option: nat)
      requires Valid() && index < |answers|
      modifies this
      ensures Valid()
      ensures answers == old(answers)[index := Some(option)]
      ensures forall j :: 0 <= j < |answers| && j != index ==> answers[j] == old(answers)[j]
      ensures index == old(index) && student == old(student)
    {
      answers := answers[index := Some(option)];
    }

    /** `previousQuestion`. */
    method Previous()
      requires Valid()
      modifies this
      ensures Valid()
      ensures index == PreviousIndex(old(index))
      ensures answers == old(answers) && student == old(student)
    {
      if index > 0 {
        index := index - 1;
      }
    }

    /** `nextQuestion`. */
    method Next()
      requires Valid()
      modifies this
      ensures Valid()
      ensures index == NextIndex(old(index), |keys|)
      ensures answers == old(answers) && student == old(student)
    {
      if (index as int) < |keys| - 1 {
        index := index + 1;
      }
    }

    /**
     * `submitTest`: with an unanswered question the student is asked first and
     * `confirmed` is the reply; the correct answers are counted one question at
     * a time, then the percentage and the grade follow.
     */
    method Submit(confirmed: bool, grading: Grading) returns (score: Option<Score>)
      requires Valid()
      ensures FirstUnanswered(answers) != -1 && !confirmed ==> score.None?
      ensures FirstUnanswered(answers) == -1 || confirmed ==> score.Some?
      ensures score.Some? ==>
        var n := |keys|;
        var c := CountCorrect(answers, keys, n);
        score.value == Score(c, Percent(c, n), CalculateGrade(Percent(c, n), grading))
    {
      var unanswered := FirstUnanswered(answers);
      if unanswered != -1 && !confirmed {
        return None;
      }
      var correctCount := 0;
      for i := 0 to |keys|
        invariant correctCount == CountCorrect(answers, keys, i)
      {
        if answers[i].Some? && answers[i].value as int == keys[i] {
          correctCount := correctCount + 1;
        }
      }
      var percentage := Percent(correctCount, |keys|);
      var grade := CalculateGrade(percentage, grading);
      score := Some(Score(correctCount, percentage, grade));
    }
  }
}
