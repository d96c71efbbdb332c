/**
 * What the block assembler of src/app/create-test/page.tsx guarantees.
 *
 * The central result, `AssembleIsDeclared`, equates the one-pass state
 * machine with a definition by segments: the classified blocks are cut at
 * every question-number line, each segment builds one question (its options
 * in arrival order, the last marker, the first image), and a question is kept
 * when it is complete, its id carrying the number of questions kept before it.
 * The other lemmas read properties off that definition. Segments are named by
 * positions in the sequence of kinds rather than by slices of it.
 */
module CreateTestProofs {
  import opened Wrappers
  import opened Text
  import opened CreateTest

  // ----- the definition by segments -----

  /** No question-number line among the positions `lo` to `hi - 1`. */
  predicate NoStartIn(ks: seq<Kind>, lo: nat, hi: nat)
    requires lo <= hi <= |ks|
  {
    forall i :: lo <= i < hi ==> !ks[i].QuestionStart?
  }

  /** The position of the first question-number line from `from` on, or `|ks|`. */
  function NextStart(ks: seq<Kind>, from: nat): (k: nat)
    requires from <= |ks|
    ensures from <= k <= |ks| && NoStartIn(ks, from, k)
    ensures k < |ks| ==> ks[k].QuestionStart?
    decreases |ks| - from
  {
    if from == |ks| || ks[from].QuestionStart? then from else NextStart(ks, from + 1)
  }

  /** The end of the segment whose question line is at `k`: the next question line, or the end. */
  function SegmentEnd(ks: seq<Kind>, k: nat): (j: nat)
    requires k < |ks|
    ensures k < j <= |ks| && NoStartIn(ks, k + 1, j)
    ensures j < |ks| ==> ks[j].QuestionStart?
  {
    NextStart(ks, k + 1)
  }

  /** The options the positions `lo` to `hi - 1` add: their option lines, in order. */
  function OptionsIn(ks: seq<Kind>, lo: nat, hi: nat): seq<AnswerOption>
    requires lo <= hi <= |ks|
    decreases hi - lo
  {
    if lo == hi then []
    else OptionsIn(ks, lo, hi - 1) + (if ks[hi - 1].OptionBlock? then [ks[hi - 1].option] else [])
  }

  /** The letter of the last marker among the positions `lo` to `hi - 1`. */
  function LastMarkerIn(ks: seq<Kind>, lo: nat, hi: nat): Option<string>
    requires lo <= hi <= |ks|
    decreases hi - lo
  {
    if lo == hi then None
    else if ks[hi - 1].MarkerBlock? then Some(ks[hi - 1].letter)
    else LastMarkerIn(ks, lo, hi - 1)
  }

  /** The source of the first image among the positions `lo` to `hi - 1`. */
  function FirstImageIn(ks: seq<Kind>, lo: nat, hi: nat): Option<string>
    requires lo <= hi <= |ks|
    decreases hi - lo
  {
    if lo == hi then None
    else if FirstImageIn(ks, lo, hi - 1).Some? then FirstImageIn(ks, lo, hi - 1)
    else if ks[hi - 1].ImageBlock? then Some(ks[hi - 1].src)
    else None
  }

  /**
   * The question built from the question line at `k` and the blocks up to the
   * next one: the line's own image if it has one, else the segment's first.
   */
  function Built(ks: seq<Kind>, k: nat, index: nat, now: nat): ParsedQuestion
    requires k < |ks| && ks[k].QuestionStart?
  {
    var j := SegmentEnd(ks, k);
    ParsedQuestion(QuestionId(now, index), ks[k].text, OptionsIn(ks, k + 1, j),
                   LastMarkerIn(ks, k + 1, j).GetOr(""),
                   if ks[k].imageSrc.Some? then ks[k].imageSrc else FirstImageIn(ks, k + 1, j))
  }

  /** The questions kept from position `from` on, segment by segment, the first id index being `n`. */
  function Declared(ks: seq<Kind>, from: nat, n: nat, now: nat): seq<ParsedQuestion>
    requires from <= |ks|
    decreases |ks| - from
  {
    var k := NextStart(ks, from);
    if k == |ks| then []
    else
      var q := Built(ks, k, n, now);
      if IsComplete(q) then [q] + Declared(ks, SegmentEnd(ks, k), n + 1, now)
      else Declared(ks, SegmentEnd(ks, k), n, now)
  }

  /** The positions of the question lines whose questions `Declared` keeps. */
  function DeclaredLines(ks: seq<Kind>, from: nat, n: nat, now: nat): seq<nat>
    requires from <= |ks|
    decreases |ks| - from
  {
    var k := NextStart(ks, from);
    if k == |ks| then []
    else
      var q := Built(ks, k, n, now);
      if IsComplete(q) then [k] + DeclaredLines(ks, SegmentEnd(ks, k), n + 1, now)
      else DeclaredLines(ks, SegmentEnd(ks, k), n, now)
  }

  // ----- what a segment's question holds -----

  /** The last marker wins: `LastMarkerIn` is the letter of a marker with no marker after it. */
  lemma {:induction false} LastMarkerIsLast(ks: seq<Kind>, lo: nat, hi: nat)
    requires lo <= hi <= |ks|
    ensures LastMarkerIn(ks, lo, hi).None? <==> forall i :: lo <= i < hi ==> !ks[i].MarkerBlock?
    ensures LastMarkerIn(ks, lo, hi).Some? ==>
              exists i :: lo <= i < hi && ks[i].MarkerBlock? && LastMarkerIn(ks, lo, hi).value == ks[i].letter
                          && forall j :: i < j < hi ==> !ks[j].MarkerBlock?
    decreases hi - lo
  {
    if lo < hi && !ks[hi - 1].MarkerBlock? {
      LastMarkerIsLast(ks, lo, hi - 1);
    }
  }

  /** The first image wins: `FirstImageIn` is the source of an image with no image before it. */
  lemma {:induction false} FirstImageIsFirst(ks: seq<Kind>, lo: nat, hi: nat)
    requires lo <= hi <= |ks|
    ensures FirstImageIn(ks, lo, hi).None? <==> forall i :: lo <= i < hi ==> !ks[i].ImageBlock?
    ensures FirstImageIn(ks, lo, hi).Some? ==>
              exists i :: lo <= i < hi && ks[i].ImageBlock? && FirstImageIn(ks, lo, hi).value == ks[i].src
                          && forall j :: lo <= j < i ==> !ks[j].ImageBlock?
    decreases hi - lo
  {
    if lo < hi {
      FirstImageIsFirst(ks, lo, hi - 1);
    }
  }

  /** The options of a segment are the options of its option lines, each one. */
  lemma {:induction false} OptionsInLines(ks: seq<Kind>, lo: nat, hi: nat)
    requires lo <= hi <= |ks|
    ensures |OptionsIn(ks, lo, hi)| <= hi - lo
    ensures forall i :: lo <= i < hi && ks[i].OptionBlock? ==> ks[i].option in OptionsIn(ks, lo, hi)
    ensures forall o :: o in OptionsIn(ks, lo, hi) ==> exists i :: lo <= i < hi && ks[i] == OptionBlock(o)
    decreases hi - lo
  {
    if lo < hi {
      OptionsInLines(ks, lo, hi - 1);
    }
  }

  /**
   * The options of a segment in order: those of the blocks before `mid`
   * come before those of the blocks from `mid` on.
   */
  lemma {:induction false} OptionsInSplit(ks: seq<Kind>, lo: nat, mid: nat, hi: nat)
    requires lo <= mid <= hi <= |ks|
    ensures OptionsIn(ks, lo, hi) == OptionsIn(ks, lo, mid) + OptionsIn(ks, mid, hi)
    decreases hi - mid
  {
    if mid < hi {
      OptionsInSplit(ks, lo, mid, hi - 1);
      var last := if ks[hi - 1].OptionBlock? then [ks[hi - 1].option] else [];
      assert OptionsIn(ks, lo, mid) + OptionsIn(ks, mid, hi - 1) + last
          == OptionsIn(ks, lo, mid) + (OptionsIn(ks, mid, hi - 1) + last);
    }
  }

  // ----- the state machine, piece by piece -----

  function Finish(st: ParserState): seq<ParsedQuestion>
  {
    Finalize(st.questions, st.current)
  }

  /** Running over two pieces of input is running over the first and then the second. */
  lemma {:induction false} RunFromAppend(st: ParserState, a: seq<Kind>, b: seq<Kind>, now: nat)
    ensures RunFrom(st, a + b, now) == RunFrom(RunFrom(st, a, now), b, now)
    decreases |b|
  {
    if b == [] {
      assert a + b == a;
    } else {
      var ab := a + b;
      assert ab[..|ab| - 1] == a + b[..|b| - 1];
      assert ab[|ab| - 1] == b[|b| - 1];
      RunFromAppend(st, a, b[..|b| - 1], now);
    }
  }

  lemma RunFromOne(st: ParserState, k: Kind, now: nat)
    ensures RunFrom(st, [k], now) == Step(st, k, now)
  {
    assert [k][..0] == [];
  }

  /** Running over positions `lo` to `hi` is running to `hi - 1` and then one step. */
  lemma RunFromLast(st: ParserState, ks: seq<Kind>, lo: nat, hi: nat, now: nat)
    requires lo < hi <= |ks|
    ensures RunFrom(st, ks[lo..hi], now) == Step(RunFrom(st, ks[lo..hi - 1], now), ks[hi - 1], now)
  {
    assert ks[lo..hi][..hi - lo - 1] == ks[lo..hi - 1];
  }

  /** With no question open, blocks without a question line change nothing. */
  lemma {:induction false} IdleRun(qs: seq<ParsedQuestion>, ks: seq<Kind>, lo: nat, hi: nat, now: nat)
    requires lo <= hi <= |ks| && NoStartIn(ks, lo, hi)
    ensures RunFrom(ParserState(qs, None), ks[lo..hi], now) == ParserState(qs, None)
    decreases hi - lo
  {
    if lo < hi {
      RunFromLast(ParserState(qs, None), ks, lo, hi, now);
      IdleRun(qs, ks, lo, hi - 1, now);
    }
  }

  /** What the positions `lo` to `hi - 1` do to the open question `d`. */
  function Absorbed(d: ParsedQuestion, ks: seq<Kind>, lo: nat, hi: nat): ParsedQuestion
    requires lo <= hi <= |ks|
  {
    d.(options := d.options + OptionsIn(ks, lo, hi),
       correctAnswerId := LastMarkerIn(ks, lo, hi).GetOr(d.correctAnswerId),
       imageSrc := if d.imageSrc.Some? then d.imageSrc else FirstImageIn(ks, lo, hi))
  }

  /** With a question open, blocks without a question line only add to it. */
  lemma {:induction false} BodyRun(qs: seq<ParsedQuestion>, d: ParsedQuestion, ks: seq<Kind>, lo: nat, hi: nat, now: nat)
    requires lo <= hi <= |ks| && NoStartIn(ks, lo, hi)
    ensures RunFrom(ParserState(qs, Some(d)), ks[lo..hi], now) == ParserState(qs, Some(Absorbed(d, ks, lo, hi)))
    decreases hi - lo
  {
    if lo < hi {
      RunFromLast(ParserState(qs, Some(d)), ks, lo, hi, now);
      BodyRun(qs, d, ks, lo, hi - 1, now);
      var q := Absorbed(d, ks, lo, hi - 1);
      var prev := OptionsIn(ks, lo, hi - 1);
      match ks[hi - 1] {
        case OptionBlock(o) =>
          assert d.options + OptionsIn(ks, lo, hi) == q.options + [o];
        case ImageBlock(src) =>
          assert prev + [] == prev;
        case MarkerBlock(letter) =>
          assert prev + [] == prev;
        case Blank =>
          assert prev + [] == prev;
        case Unrecognised =>
          assert prev + [] == prev;
      }
    } else {
      assert d.options + [] == d.options;
    }
  }

  /** Once the next question line arrives (or the input ends), the open question is finalized. */
  lemma Handover(qs: seq<ParsedQuestion>, q: ParsedQuestion, rest: seq<Kind>, now: nat)
    requires rest == [] || rest[0].QuestionStart?
    ensures Finish(RunFrom(ParserState(qs, Some(q)), rest, now))
         == Finish(RunFrom(ParserState(Finalize(qs, Some(q)), None), rest, now))
  {
    if rest != [] {
      var a := ParserState(qs, Some(q));
      var b := ParserState(Finalize(qs, Some(q)), None);
      assert rest == [rest[0]] + rest[1..];
      RunFromAppend(a, [rest[0]], rest[1..], now);
      RunFromAppend(b, [rest[0]], rest[1..], now);
      RunFromOne(a, rest[0], now);
      RunFromOne(b, rest[0], now);
    }
  }

  /** Idle blocks, a question line and its body leave exactly the built question open. */
  lemma OpenSegment(qs: seq<ParsedQuestion>, ks: seq<Kind>, from: nat, k: nat, now: nat)
    requires from <= k < |ks| && NoStartIn(ks, from, k) && ks[k].QuestionStart?
    ensures RunFrom(ParserState(qs, None), ks[from..SegmentEnd(ks, k)], now)
         == ParserState(qs, Some(Built(ks, k, |qs|, now)))
  {
    var s0 := ParserState(qs, None);
    var j := SegmentEnd(ks, k);
    var started := ParsedQuestion(QuestionId(now, |qs|), ks[k].text, [], "", ks[k].imageSrc);
    var idle, head, body := ks[from..k], [ks[k]], ks[k + 1..j];
    assert ks[from..j] == (idle + head) + body;
    IdleRun(qs, ks, from, k, now);
    RunFromAppend(s0, idle, head, now);
    RunFromOne(s0, ks[k], now);
    var s1 := ParserState(qs, Some(started));
    assert RunFrom(s0, idle + head, now) == s1;
    RunFromAppend(s0, idle + head, body, now);
    BodyRun(qs, started, ks, k + 1, j, now);
    assert RunFrom(s1, body, now) == ParserState(qs, Some(Absorbed(started, ks, k + 1, j)));
    assert Absorbed(started, ks, k + 1, j) == Built(ks, k, |qs|, now);
  }

  /** Pushing the first segment's question, when complete, and declaring the rest is declaring all. */
  lemma DeclaredSegment(qs: seq<ParsedQuestion>, ks: seq<Kind>, from: nat, now: nat)
    requires from <= |ks| && NextStart(ks, from) < |ks|
    ensures var k := NextStart(ks, from);
            var qs' := Finalize(qs, Some(Built(ks, k, |qs|, now)));
            qs' + Declared(ks, SegmentEnd(ks, k), |qs'|, now) == qs + Declared(ks, from, |qs|, now)
  {
    var k := NextStart(ks, from);
    var q := Built(ks, k, |qs|, now);
    if IsComplete(q) {
      var rest := Declared(ks, SegmentEnd(ks, k), |qs| + 1, now);
      assert (qs + [q]) + rest == qs + ([q] + rest);
    }
  }

  /** The state machine, started with `qs` pushed and nothing open, keeps what `Declared` keeps. */
  lemma {:induction false} RunIsDeclared(qs: seq<ParsedQuestion>, ks: seq<Kind>, from: nat, now: nat)
    requires from <= |ks|
    ensures Finish(RunFrom(ParserState(qs, None), ks[from..], now)) == qs + Declared(ks, from, |qs|, now)
    decreases |ks| - from
  {
    var s0 := ParserState(qs, None);
    var k := NextStart(ks, from);
    if k == |ks| {
      IdleRun(qs, ks, from, k, now);
      assert ks[from..k] == ks[from..];
    } else {
      var j := SegmentEnd(ks, k);
      var q := Built(ks, k, |qs|, now);
      assert ks[from..] == ks[from..j] + ks[j..];
      RunFromAppend(s0, ks[from..j], ks[j..], now);
      OpenSegment(qs, ks, from, k, now);
      Handover(qs, q, ks[j..], now);
      RunIsDeclared(Finalize(qs, Some(q)), ks, j, now);
      DeclaredSegment(qs, ks, from, now);
    }
  }

  /** The one-pass assembler and the definition by segments agree on every input. */
  lemma AssembleIsDeclared(blocks: seq<Block>, now: nat)
    ensures Assemble(blocks, now) == Declared(Kinds(blocks), 0, 0, now)
  {
    var ks := Kinds(blocks);
    assert ks[0..] == ks;
    RunIsDeclared([], ks, 0, now);
  }

  // ----- properties of the output -----

  /** Every question `Declared` keeps is complete. */
  lemma {:induction false} DeclaredComplete(ks: seq<Kind>, from: nat, n: nat, now: nat)
    requires from <= |ks|
    ensures forall i :: 0 <= i < |Declared(ks, from, n, now)| ==> IsComplete(Declared(ks, from, n, now)[i])
    decreases |ks| - from
  {
    var k := NextStart(ks, from);
    if k < |ks| {
      if IsComplete(Built(ks, k, n, now)) {
        DeclaredComplete(ks, SegmentEnd(ks, k), n + 1, now);
      } else {
        DeclaredComplete(ks, SegmentEnd(ks, k), n, now);
      }
    }
  }

  /** The i-th question `Declared` keeps carries the id index `n + i`. */
  lemma {:induction false} DeclaredIds(ks: seq<Kind>, from: nat, n: nat, now: nat)
    requires from <= |ks|
    ensures forall i :: 0 <= i < |Declared(ks, from, n, now)| ==>
              Declared(ks, from, n, now)[i].id == QuestionId(now, n + i)
    decreases |ks| - from
  {
    var k := NextStart(ks, from);
    if k < |ks| {
      if IsComplete(Built(ks, k, n, now)) {
        DeclaredIds(ks, SegmentEnd(ks, k), n + 1, now);
      } else {
        DeclaredIds(ks, SegmentEnd(ks, k), n, now);
      }
    }
  }

  /**
   * Every question the assembler emits has text, at least one option and a
   * correct id, and the i-th one has the id `q-<now>-<i>`.
   */
  lemma AssembleComplete(blocks: seq<Block>, now: nat)
    ensures forall i :: 0 <= i < |Assemble(blocks, now)| ==> IsComplete(Assemble(blocks, now)[i])
    ensures forall i :: 0 <= i < |Assemble(blocks, now)| ==> Assemble(blocks, now)[i].id == QuestionId(now, i)
  {
    AssembleIsDeclared(blocks, now);
    DeclaredComplete(Kinds(blocks), 0, 0, now);
    DeclaredIds(Kinds(blocks), 0, 0, now);
  }

  /** The ids of the emitted questions end in "-<index>" and are pairwise distinct. */
  lemma AssembleIds(blocks: seq<Block>, now: nat, i: nat, j: nat)
    requires i < j < |Assemble(blocks, now)|
    ensures Assemble(blocks, now)[i].id == "q-" + Decimal(now) + "-" + Decimal(i)
    ensures Assemble(blocks, now)[i].id != Assemble(blocks, now)[j].id
  {
    AssembleComplete(blocks, now);
    var prefix := "q-" + Decimal(now) + "-";
    DecimalInjective(i, j);
    assert QuestionId(now, i)[|prefix|..] == Decimal(i);
    assert QuestionId(now, j)[|prefix|..] == Decimal(j);
  }

  /** The publish gate never finds a parsed question incomplete: with a title, parser output is published. */
  lemma ParsedTestPublishes(blocks: seq<Block>, now: nat, title: string, category: string,
                            scale: GradeScale, publishedAt: nat, createdAt: string)
    requires title != "" && Assemble(blocks, now) != []
    ensures HandlePublish(true, title, category, scale, Assemble(blocks, now), publishedAt, createdAt).Published?
  {
    AssembleComplete(blocks, now);
  }

  lemma {:induction false} KindsAppend(a: seq<Block>, b: seq<Block>)
    ensures Kinds(a + b) == Kinds(a) + Kinds(b)
    decreases |b|
  {
    if b == [] {
      assert a + b == a;
    } else {
      assert (a + b)[..|a + b| - 1] == a + b[..|b| - 1];
      KindsAppend(a, b[..|b| - 1]);
    }
  }

  /** A blank block (no text, no image) anywhere in the input has no effect. */
  lemma BlankBlockIgnored(a: seq<Block>, b: Block, c: seq<Block>, now: nat)
    requires Trim(b.text) == [] && b.img.None?
    ensures Assemble(a + [b] + c, now) == Assemble(a + c, now)
  {
    var ka, kc := Kinds(a), Kinds(c);
    KindsAppend(a + [b], c);
    KindsAppend(a, [b]);
    KindsAppend(a, c);
    assert Kinds([b]) == [Blank];
    RunFromAppend(Initial, ka + [Blank], kc, now);
    RunFromAppend(Initial, ka, [Blank], now);
    RunFromOne(RunFrom(Initial, ka, now), Blank, now);
    RunFromAppend(Initial, ka, kc, now);
  }

  /** Blocks before the first question-number line have no effect. */
  lemma LeadingBlocksIgnored(p: seq<Block>, r: seq<Block>, now: nat)
    requires forall j :: 0 <= j < |p| ==> !Classify(p[j]).QuestionStart?
    ensures Assemble(p + r, now) == Assemble(r, now)
  {
    var kp := Kinds(p);
    forall j | 0 <= j < |kp| ensures !kp[j].QuestionStart? {
      KindsAt(p, j);
    }
    KindsAppend(p, r);
    RunFromAppend(Initial, kp, Kinds(r), now);
    IdleRun([], kp, 0, |kp|, now);
    assert kp[0..|kp|] == kp;
  }

  /**
   * The questions kept come from question lines in order: the i-th is built
   * from the i-th kept question line and the blocks up to the next question
   * line, with id index `n + i`.
   */
  lemma {:induction false} DeclaredInOrder(ks: seq<Kind>, from: nat, n: nat, now: nat)
    requires from <= |ks|
    ensures |DeclaredLines(ks, from, n, now)| == |Declared(ks, from, n, now)|
    ensures forall i :: 0 <= i < |DeclaredLines(ks, from, n, now)| ==>
              from <= DeclaredLines(ks, from, n, now)[i] < |ks|
              && ks[DeclaredLines(ks, from, n, now)[i]].QuestionStart?
              && Declared(ks, from, n, now)[i] == Built(ks, DeclaredLines(ks, from, n, now)[i], n + i, now)
    decreases |ks| - from
  {
    DeclaredLength(ks, from, n, now);
    forall i | 0 <= i < |DeclaredLines(ks, from, n, now)|
      ensures from <= DeclaredLines(ks, from, n, now)[i] < |ks|
              && ks[DeclaredLines(ks, from, n, now)[i]].QuestionStart?
              && Declared(ks, from, n, now)[i] == Built(ks, DeclaredLines(ks, from, n, now)[i], n + i, now)
    {
      DeclaredAt(ks, from, n, now, i);
    }
  }

  lemma {:induction false} DeclaredLength(ks: seq<Kind>, from: nat, n: nat, now: nat)
    requires from <= |ks|
    ensures |DeclaredLines(ks, from, n, now)| == |Declared(ks, from, n, now)|
    decreases |ks| - from
  {
    var k := NextStart(ks, from);
    if k < |ks| {
      var j := SegmentEnd(ks, k);
      if IsComplete(Built(ks, k, n, now)) {
        DeclaredLength(ks, j, n + 1, now);
      } else {
        DeclaredLength(ks, j, n, now);
      }
    }
  }

  /** The `i`-th kept question is the one built from the `i`-th kept question line, with id index `n + i`. */
  lemma {:induction false} DeclaredAt(ks: seq<Kind>, from: nat, n: nat, now: nat, i: nat)
    requires from <= |ks| && i < |DeclaredLines(ks, from, n, now)| && i < |Declared(ks, from, n, now)|
    ensures from <= DeclaredLines(ks, from, n, now)[i] < |ks|
    ensures ks[DeclaredLines(ks, from, n, now)[i]].QuestionStart?
    ensures Declared(ks, from, n, now)[i] == Built(ks, DeclaredLines(ks, from, n, now)[i], n + i, now)
    decreases |ks| - from
  {
    var k := NextStart(ks, from);
    var j := SegmentEnd(ks, k);
    var q := Built(ks, k, n, now);
    if IsComplete(q) {
      var lines, qs := DeclaredLines(ks, j, n + 1, now), Declared(ks, j, n + 1, now);
      assert DeclaredLines(ks, from, n, now) == [k] + lines;
      assert Declared(ks, from, n, now) == [q] + qs;
      if i > 0 {
        DeclaredAt(ks, j, n + 1, now, i - 1);
        assert DeclaredLines(ks, from, n, now)[i] == lines[i - 1];
        assert Declared(ks, from, n, now)[i] == qs[i - 1];
        assert n + 1 + (i - 1) == n + i;
      } else {
        assert DeclaredLines(ks, from, n, now)[i] == k;
        assert Declared(ks, from, n, now)[i] == q;
      }
    } else {
      var lines, qs := DeclaredLines(ks, j, n, now), Declared(ks, j, n, now);
      assert DeclaredLines(ks, from, n, now) == lines;
      assert Declared(ks, from, n, now) == qs;
      DeclaredAt(ks, j, n, now, i);
    }
  }

  /** The kept question lines are strictly increasing: document order is preserved. */
  lemma {:induction false} DeclaredLinesIncreasing(ks: seq<Kind>, from: nat, n: nat, now: nat)
    requires from <= |ks|
    ensures forall i :: 0 <= i < |DeclaredLines(ks, from, n, now)| ==> from <= DeclaredLines(ks, from, n, now)[i]
    ensures forall i, i' :: 0 <= i < i' < |DeclaredLines(ks, from, n, now)| ==>
              DeclaredLines(ks, from, n, now)[i] < DeclaredLines(ks, from, n, now)[i']
    decreases |ks| - from
  {
    var k := NextStart(ks, from);
    if k < |ks| {
      if IsComplete(Built(ks, k, n, now)) {
        DeclaredLinesIncreasing(ks, SegmentEnd(ks, k), n + 1, now);
      } else {
        DeclaredLinesIncreasing(ks, SegmentEnd(ks, k), n, now);
      }
    }
  }

  /**
   * A question line from `from` on is kept exactly when the question it builds
   * is complete (completeness does not depend on the id).
   */
  lemma {:induction false} DeclaredLinesExact(ks: seq<Kind>, from: nat, n: nat, now: nat, p: nat)
    requires from <= p < |ks| && ks[p].QuestionStart?
    ensures p in DeclaredLines(ks, from, n, now) <==> IsComplete(Built(ks, p, 0, now))
    decreases |ks| - from
  {
    var k := NextStart(ks, from);
    assert k <= p;
    var j := SegmentEnd(ks, k);
    CompleteIgnoresId(ks, k, n, 0, now);
    var complete := IsComplete(Built(ks, k, n, now));
    var m := if complete then n + 1 else n;
    var rest := DeclaredLines(ks, j, m, now);
    assert DeclaredLines(ks, from, n, now) == if complete then [k] + rest else rest;
    DeclaredLinesIncreasing(ks, j, m, now);
    if k < p {
      assert j <= p;
      DeclaredLinesExact(ks, j, m, now, p);
    } else {
      assert p !in rest;
    }
  }

  /** Whether a segment's question is complete does not depend on its id. */
  lemma CompleteIgnoresId(ks: seq<Kind>, k: nat, n: nat, n': nat, now: nat)
    requires k < |ks| && ks[k].QuestionStart?
    ensures IsComplete(Built(ks, k, n, now)) == IsComplete(Built(ks, k, n', now))
  {
  }

  /**
   * The emitted questions in terms of the blocks: the i-th comes from the
   * i-th kept question-number line, built with id index i.
   */
  lemma AssembleInOrder(blocks: seq<Block>, now: nat)
    ensures |DeclaredLines(Kinds(blocks), 0, 0, now)| == |Assemble(blocks, now)|
    ensures forall i :: 0 <= i < |Assemble(blocks, now)| ==>
              DeclaredLines(Kinds(blocks), 0, 0, now)[i] < |blocks|
              && Kinds(blocks)[DeclaredLines(Kinds(blocks), 0, 0, now)[i]].QuestionStart?
              && Assemble(blocks, now)[i] == Built(Kinds(blocks), DeclaredLines(Kinds(blocks), 0, 0, now)[i], i, now)
  {
    AssembleIsDeclared(blocks, now);
    DeclaredInOrder(Kinds(blocks), 0, 0, now);
  }
}
