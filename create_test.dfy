/**
 * The test-creation page of the current generation of the tool
 * (src/app/create-test/page.tsx): the assembler that turns the blocks of a
 * converted word-processing document into parsed questions, the file-name
 * title, the upload gate and the publish gate with its mapping to stored
 * questions.
 *
 * A block is what the converter produces for one top-level element of the
 * document body: its rendered text (not yet trimmed) and the `src` of the
 * first image inside it, when there is one. The text is trimmed here, as the
 * page does.
 */
module CreateTest {
  import opened Wrappers
  import opened Text
  import opened Patterns

  datatype Block = Block(text: string, img: Option<string>)

  datatype AnswerOption = AnswerOption(id: string, text: string)

  /** A question as the assembler builds it; `imageSrc` is `None` for `null`. */
  datatype ParsedQuestion = ParsedQuestion(
    id: string,
    text: string,
    options: seq<AnswerOption>,
    correctAnswerId: string,
    imageSrc: Option<string>)

  /** The assembler's state: the questions pushed so far and the open question (`currentQuestion`). */
  datatype ParserState = ParserState(questions: seq<ParsedQuestion>, current: Option<ParsedQuestion>)

  // ----- classifying one block -----

  /** What one block is, judged on its own, in the order the loop tests it. */
  datatype Kind =
    | Blank                                               // no text and no image: passed over
    | QuestionStart(text: string, imageSrc: Option<string>) // a question-number line, with its own image
    | ImageBlock(src: string)                             // an image with a non-empty source
    | OptionBlock(option: AnswerOption)                   // an option line
    | MarkerBlock(letter: string)                         // a correct-answer marker
    | Unrecognised                                        // anything else

  /** The block holds an image whose `src` is not empty (`img && img.src`). */
  predicate HasImageSrc(b: Block)
  {
    b.img.Some? && b.img.value != ""
  }

  /**
   * The tests of the loop body that do not depend on the open question, in
   * their order: blank, question line (`^(\d+)\.\s*(.+)`), image with a
   * source, option line (`^([a-zA-Z])\)\s*(.+)`), marker ("Správně:" or
   * "Správná odpověď:" anywhere).
   */
  function Classify(b: Block): (k: Kind)
    ensures k.Blank? <==> Trim(b.text) == [] && b.img.None?
    ensures k.QuestionStart? ==> k.text != "" && (k.imageSrc.Some? <==> HasImageSrc(b))
                                 && (k.imageSrc.Some? ==> k.imageSrc == b.img)
    ensures k.ImageBlock? ==> k.src != "" && b.img == Some(k.src)
    ensures k.OptionBlock? ==> |k.option.id| == 1 && IsUpperLetter(k.option.id[0]) && !HasImageSrc(b)
    ensures k.MarkerBlock? ==> |k.letter| == 1 && IsUpperLetter(k.letter[0]) && !HasImageSrc(b)
  {
    var text := Trim(b.text);
    if text == [] && b.img.None? then Blank
    else if MatchQuestion(text).Some? then
      QuestionStart(MatchQuestion(text).value, if HasImageSrc(b) then b.img else None)
    else if HasImageSrc(b) then ImageBlock(b.img.value)
    else if MatchOption(text).Some? then
      OptionBlock(AnswerOption([MatchOption(text).value.0], MatchOption(text).value.1))
    else if FindMarker(text).Some? then MarkerBlock([FindMarker(text).value])
    else Unrecognised
  }

  /**
   * Which test claims a block, on its trimmed text `t`: a question-number line
   * opens a question with the captured text; otherwise an image with a source
   * is an image; otherwise an option line is an option with the upper-cased
   * letter and the captured text; otherwise a marker sets the letter it
   * captures; anything else that is not blank is passed over.
   */
  lemma ClassifyPrecedence(b: Block)
    ensures var t := Trim(b.text);
              MatchQuestion(t).Some? ==> Classify(b).QuestionStart? && Classify(b).text == MatchQuestion(t).value
    ensures var t := Trim(b.text);
              MatchQuestion(t).None? && HasImageSrc(b) ==> Classify(b) == ImageBlock(b.img.value)
    ensures var t := Trim(b.text);
              MatchQuestion(t).None? && !HasImageSrc(b) && MatchOption(t).Some? ==>
                Classify(b) == OptionBlock(AnswerOption([MatchOption(t).value.0], MatchOption(t).value.1))
    ensures var t := Trim(b.text);
              MatchQuestion(t).None? && !HasImageSrc(b) && MatchOption(t).None? && FindMarker(t).Some? ==>
                Classify(b) == MarkerBlock([FindMarker(t).value])
    ensures var t := Trim(b.text);
              Classify(b).Unrecognised? <==> !(t == [] && b.img.None?) && MatchQuestion(t).None? && !HasImageSrc(b)
                                             && MatchOption(t).None? && FindMarker(t).None?
  {
  }

  /** The kinds of a sequence of blocks. */
  function Kinds(blocks: seq<Block>): (ks: seq<Kind>)
    ensures |ks| == |blocks|
  {
    if blocks == [] then [] else Kinds(blocks[..|blocks| - 1]) + [Classify(blocks[|blocks| - 1])]
  }

  /** The i-th kind is the classification of the i-th block. */
  lemma {:induction false} KindsAt(blocks: seq<Block>, i: nat)
    requires i < |blocks|
    ensures Kinds(blocks)[i] == Classify(blocks[i])
    decreases |blocks|
  {
    var pre := blocks[..|blocks| - 1];
    assert Kinds(blocks) == Kinds(pre) + [Classify(blocks[|blocks| - 1])];
    if i < |pre| {
      KindsAt(pre, i);
      assert pre[i] == blocks[i];
    }
  }

  // ----- the question id -----

  /** `q-${Date.now()}-${questions.length}`, the clock reading being `now`. */
  function QuestionId(now: nat, index: nat): string
  {
    "q-" + Decimal(now) + "-" + Decimal(index)
  }

  /**
   * Ids made for different positions differ, whatever the two clock
   * readings: the digits after the last '-' are the position.
   */
  lemma QuestionIdPositions(a: nat, b: nat, i: nat, j: nat)
    requires i != j
    ensures QuestionId(a, i) != QuestionId(b, j)
  {
    var x := QuestionId(a, i);
    var y := QuestionId(b, j);
    var di := Decimal(i);
    var dj := Decimal(j);
    if |x| == |y| {
      if |di| == |dj| {
        assert x[|x| - |di|..] == di;
        assert y[|y| - |dj|..] == dj;
        DecimalInjective(i, j);
      } else if |di| < |dj| {
        var p := |x| - |di| - 1;
        assert x[p] == '-';
        assert y[p] == dj[|dj| - |di| - 1];
      } else {
        var p := |y| - |dj| - 1;
        assert y[p] == '-';
        assert x[p] == di[|di| - |dj| - 1];
      }
    }
  }

  // ----- the assembler as a state machine -----

  /** The check `finalizeQuestion` makes before it pushes: text, an option, a correct id. */
  predicate IsComplete(q: ParsedQuestion)
  {
    q.text != "" && |q.options| > 0 && q.correctAnswerId != ""
  }

  /** `finalizeQuestion`: the open question is pushed when it is complete, and dropped otherwise. */
  function Finalize(questions: seq<ParsedQuestion>, current: Option<ParsedQuestion>): (r: seq<ParsedQuestion>)
    ensures current.Some? && IsComplete(current.value) ==> r == questions + [current.value]
    ensures !(current.Some? && IsComplete(current.value)) ==> r == questions
  {
    if current.Some? && IsComplete(current.value) then questions + [current.value] else questions
  }

  /** What one iteration of the loop over the blocks does to the state. */
  function Step(st: ParserState, k: Kind, now: nat): ParserState
  {
    match k
    case QuestionStart(text, imageSrc) =>
      var done := Finalize(st.questions, st.current);
      ParserState(done, Some(ParsedQuestion(QuestionId(now, |done|), text, [], "", imageSrc)))
    case ImageBlock(src) =>
      if st.current.Some? && st.current.value.imageSrc.None? then
        st.(current := Some(st.current.value.(imageSrc := Some(src))))
      else st
    case OptionBlock(o) =>
      if st.current.Some? then st.(current := Some(st.current.value.(options := st.current.value.options + [o])))
      else st
    case MarkerBlock(letter) =>
      if st.current.Some? then st.(current := Some(st.current.value.(correctAnswerId := letter)))
      else st
    case Blank => st
    case Unrecognised => st
  }

  /** The state after the kinds `ks`, starting from `st`. */
  function RunFrom(st: ParserState, ks: seq<Kind>, now: nat): ParserState
  {
    if ks == [] then st else Step(RunFrom(st, ks[..|ks| - 1], now), ks[|ks| - 1], now)
  }

  const Initial: ParserState := ParserState([], None)

  /** `parseWordTestWithImages` as a function: run over all blocks, then finalize the last question. */
  function Assemble(blocks: seq<Block>, now: nat): seq<ParsedQuestion>
  {
    var st := RunFrom(Initial, Kinds(blocks), now);
    Finalize(st.questions, st.current)
  }

  /** One more block is one more step. */
  lemma RunOneMore(blocks: seq<Block>, i: nat, now: nat)
    requires i < |blocks|
    ensures RunFrom(Initial, Kinds(blocks[..i + 1]), now)
         == Step(RunFrom(Initial, Kinds(blocks[..i]), now), Classify(blocks[i]), now)
  {
    assert blocks[..i + 1][..i] == blocks[..i];
    var ks := Kinds(blocks[..i + 1]);
    assert ks[..i] == Kinds(blocks[..i]);
  }

  /**
   * `parseWordTestWithImages`: one pass over the blocks with a nullable
   * accumulator for the open question; `now` is the reading of `Date.now()`.
   */
  method ParseWordTestWithImages(blocks: seq<Block>, now: nat) returns (questions: seq<ParsedQuestion>)
    ensures questions == Assemble(blocks, now)
  {
    questions := [];
    var current: Option<ParsedQuestion> := None;
    for i := 0 to |blocks|
      invariant ParserState(questions, current) == RunFrom(Initial, Kinds(blocks[..i]), now)
    {
      RunOneMore(blocks, i, now);
      questions, current := ReadBlock(questions, current, blocks[i], now);
    }
    assert blocks[..|blocks|] == blocks;
    questions := Finalize(questions, current);
  }

  /** The body of the loop over the blocks: what one block does to the questions and the open question. */
  method ReadBlock(questions: seq<ParsedQuestion>, current: Option<ParsedQuestion>, b: Block, now: nat)
    returns (questions': seq<ParsedQuestion>, current': Option<ParsedQuestion>)
    ensures ParserState(questions', current') == Step(ParserState(questions, current), Classify(b), now)
  {
    ghost var st, k := ParserState(questions, current), Classify(b);
    questions', current' := questions, current;
    var text := Trim(b.text);
    if text == [] && b.img.None? {
      assert k == Blank;
    } else {
      var questionMatch := MatchQuestion(text);
      if questionMatch.Some? {
        var imageSrc := None;
        if b.img.Some? && b.img.value != "" {
          imageSrc := b.img;
        }
        assert k == QuestionStart(questionMatch.value, imageSrc);
        questions' := Finalize(questions, current);
        current' := Some(ParsedQuestion(QuestionId(now, |questions'|), questionMatch.value, [], "", imageSrc));
        assert ParserState(questions', current') == Step(st, k, now);
      } else if current.None? {
        assert !k.QuestionStart?;
      } else if b.img.Some? && b.img.value != "" {
        assert k == ImageBlock(b.img.value);
        if current.value.imageSrc.None? {
          current' := Some(current.value.(imageSrc := b.img));
        }
        assert ParserState(questions', current') == Step(st, k, now);
      } else {
        var answerMatch := MatchOption(text);
        if answerMatch.Some? {
          var option := AnswerOption([answerMatch.value.0], answerMatch.value.1);
          assert k == OptionBlock(option);
          current' := Some(current.value.(options := current.value.options + [option]));
          assert ParserState(questions', current') == Step(st, k, now);
        } else {
          var correctMatch := FindMarker(text);
          if correctMatch.Some? {
            assert k == MarkerBlock([correctMatch.value]);
            current' := Some(current.value.(correctAnswerId := [correctMatch.value]));
            assert ParserState(questions', current') == Step(st, k, now);
          } else {
            assert k == Unrecognised;
          }
        }
      }
    }
  }

  // ----- the file name as the default title -----

  const DocxExtension: string := ".docx"

  /** `file.name.replace(/\.docx$/, '')`: a trailing ".docx" (exact case) is dropped. */
  function TitleFromFileName(name: string): (title: string)
    ensures title + DocxExtension == name || title == name
    ensures |name| >= |DocxExtension| && name[|name| - |DocxExtension|..] == DocxExtension
            ==> title + DocxExtension == name
    ensures !(|name| >= |DocxExtension| && name[|name| - |DocxExtension|..] == DocxExtension)
            ==> title == name
  {
    if |name| >= |DocxExtension| && name[|name| - |DocxExtension|..] == DocxExtension then
      assert name == name[..|name| - |DocxExtension|] + name[|name| - |DocxExtension|..];
      name[..|name| - |DocxExtension|]
    else name
  }

  // ----- after parsing: the upload gate -----

  datatype UploadOutcome = NoQuestionsFound | Preview(questions: seq<ParsedQuestion>)

  /** An upload that yields no question is refused and its state discarded; otherwise it is previewed. */
  function AfterParse(questions: seq<ParsedQuestion>): (r: UploadOutcome)
    ensures r.NoQuestionsFound? <==> questions == []
    ensures r.Preview? ==> r.questions == questions
  {
    if |questions| == 0 then NoQuestionsFound else Preview(questions)
  }

  // ----- publishing -----

  /** An option as stored (the `isCorrect` flag of the stored shape is never set here). */
  datatype StoredOption = StoredOption(id: string, text: string)

  /** A question as stored; `imageSrc` is absent unless the parsed question had one. */
  datatype StoredQuestion = StoredQuestion(
    id: string,
    text: string,
    options: seq<StoredOption>,
    correctAnswerId: string,
    imageSrc: Option<string>)

  /** The four grade thresholds, for grades 1 to 4. */
  datatype GradeScale = GradeScale(grade1: int, grade2: int, grade3: int, grade4: int)

  /** A test as stored (`AppTest`). */
  datatype AppTest = AppTest(
    id: string,
    teacherId: string,
    title: string,
    category: string,
    createdAt: string,
    gradeScale: GradeScale,
    questions: seq<StoredQuestion>)

  datatype PublishOutcome = MissingDetails | IncompleteTest | Published(test: AppTest)

  const DefaultCategory: string := "Nekategorizováno"
  const TeacherId: string := "teacher-1"

  /** The check behind "Nekompletní test": a question without options or without a correct id. */
  predicate IsIncomplete(q: ParsedQuestion)
  {
    |q.options| == 0 || q.correctAnswerId == ""
  }

  function StoreOption(o: AnswerOption): StoredOption
  {
    StoredOption(o.id, o.text)
  }

  /** The mapping of one parsed question onto the stored shape. */
  function StoreQuestion(q: ParsedQuestion): (s: StoredQuestion)
    ensures s.id == q.id && s.text == q.text && s.correctAnswerId == q.correctAnswerId
    ensures |s.options| == |q.options|
    ensures forall i :: 0 <= i < |q.options| ==>
              s.options[i].id == q.options[i].id && s.options[i].text == q.options[i].text
    ensures s.imageSrc.Some? <==> q.imageSrc.Some? && q.imageSrc.value != ""
    ensures s.imageSrc.Some? ==> s.imageSrc == q.imageSrc
  {
    StoredQuestion(q.id, q.text, seq(|q.options|, i requires 0 <= i < |q.options| => StoreOption(q.options[i])),
                   q.correctAnswerId,
                   if q.imageSrc.Some? && q.imageSrc.value != "" then q.imageSrc else None)
  }

  /**
   * `handlePublish`: refused when the store is not ready, the title is empty or
   * nothing was parsed; refused when some question is incomplete; otherwise the
   * test to save, with id `test-${Date.now()}` (the clock reading being `now`).
   */
  function HandlePublish(storeReady: bool, title: string, category: string, scale: GradeScale,
                         parsed: seq<ParsedQuestion>, now: nat, createdAt: string): (r: PublishOutcome)
    ensures r.MissingDetails? <==> !storeReady || title == "" || parsed == []
    ensures r.IncompleteTest? <==> storeReady && title != "" && parsed != []
                                   && exists i :: 0 <= i < |parsed| && IsIncomplete(parsed[i])
    ensures r.Published? ==> forall i :: 0 <= i < |parsed| ==> !IsIncomplete(parsed[i])
    ensures r.Published? ==> r.test.id == "test-" + Decimal(now) && r.test.title == title
    ensures r.Published? ==> r.test.category == (if category == "" then DefaultCategory else category)
    ensures r.Published? ==> r.test.gradeScale == scale && r.test.createdAt == createdAt
    ensures r.Published? ==> |r.test.questions| == |parsed|
                             && forall i :: 0 <= i < |parsed| ==> r.test.questions[i] == StoreQuestion(parsed[i])
  {
    if !storeReady || title == "" || |parsed| == 0 then MissingDetails
    else if exists i :: 0 <= i < |parsed| && IsIncomplete(parsed[i]) then IncompleteTest
    else
      var stored := seq(|parsed|, i requires 0 <= i < |parsed| => StoreQuestion(parsed[i]));
      Published(AppTest("test-" + Decimal(now), TeacherId, title,
                        if category == "" then DefaultCategory else category,
                        createdAt, scale, stored))
  }
}
