/**
 * The teacher's side of a submitted result in the legacy tool: receiving a
 * result into the per-test dictionary of result lists, and exporting one
 * test's list as CSV text.
 */
module TeacherResults {
  import opened Wrappers
  import opened Text

  /** The result record a student's page sends (all fields the teacher's page reads). */
  datatype StudentResult = StudentResult(
    resultId: string,
    testName: string,
    testId: string,
    firstName: string,
    lastName: string,
    className: string,
    correctCount: nat,
    totalQuestions: nat,
    percentage: nat,
    grade: nat,
    answers: seq<Option<nat>>,
    timestamp: string)

  /** `results[testId] || []`: the list stored for a test, or none. */
  function ListFor(results: map<string, seq<StudentResult>>, testId: string): seq<StudentResult>
  {
    if testId in results then results[testId] else []
  }

  /** The dictionary after a received result is pushed onto the list of its test. */
  function AppendResult(results: map<string, seq<StudentResult>>, r: StudentResult): (after: map<string, seq<StudentResult>>)
    ensures after.Keys == results.Keys + {r.testId}
    ensures after[r.testId] == ListFor(results, r.testId) + [r]
    ensures forall t :: t in results && t != r.testId ==> after[t] == results[t]
  {
    results[r.testId := ListFor(results, r.testId) + [r]]
  }

  /** The dictionary after the results are received one after another. */
  function ReceiveAll(results: map<string, seq<StudentResult>>, rs: seq<StudentResult>): map<string, seq<StudentResult>>
    decreases |rs|
  {
    if rs == [] then results else ReceiveAll(AppendResult(results, rs[0]), rs[1..])
  }

  /** The received results that belong to one test, in arrival order. */
  function OfTest(rs: seq<StudentResult>, testId: string): (sel: seq<StudentResult>)
    ensures |sel| <= |rs|
    ensures forall i :: 0 <= i < |sel| ==> sel[i].testId == testId
  {
    if rs == [] then []
    else (if rs[0].testId == testId then [rs[0]] else []) + OfTest(rs[1..], testId)
  }

  /**
   * Receiving results one by one leaves each test's list as it was, followed by
   * exactly the results for that test in the order they arrived: no result is
   * lost, duplicated or filed under another test.
   */
  lemma {:induction false} ReceiveAllFiles(results: map<string, seq<StudentResult>>, rs: seq<StudentResult>, testId: string)
    ensures ListFor(ReceiveAll(results, rs), testId) == ListFor(results, testId) + OfTest(rs, testId)
    decreases |rs|
  {
    if rs != [] {
      var next := AppendResult(results, rs[0]);
      ReceiveAllFiles(next, rs[1..], testId);
      if rs[0].testId == testId {
        assert ListFor(next, testId) == ListFor(results, testId) + [rs[0]];
      } else {
        assert ListFor(next, testId) == ListFor(results, testId);
      }
    }
  }

  /** The tests the results belong to. */
  function TestIds(rs: seq<StudentResult>): (ids: set<string>)
    ensures |ids| <= |rs|
  {
    if rs == [] then {} else {rs[0].testId} + TestIds(rs[1..])
  }

  /** A test is among them exactly when one of the results names it. */
  lemma {:induction false} TestIdsExact(rs: seq<StudentResult>, t: string)
    ensures t in TestIds(rs) <==> exists i :: 0 <= i < |rs| && rs[i].testId == t
  {
    if rs != [] {
      TestIdsExact(rs[1..], t);
      if t in TestIds(rs[1..]) {
        var j :| 0 <= j < |rs[1..]| && rs[1..][j].testId == t;
        assert rs[j + 1].testId == t;
      }
    }
  }

  /** A test receives a key in the dictionary only through a result of its own. */
  lemma {:induction false} ReceiveAllKeys(results: map<string, seq<StudentResult>>, rs: seq<StudentResult>)
    ensures ReceiveAll(results, rs).Keys == results.Keys + TestIds(rs)
    decreases |rs|
  {
    if rs != [] {
      ReceiveAllKeys(AppendResult(results, rs[0]), rs[1..]);
    }
  }

  /**
   * The header line of the exported file,
   * `Jméno,Příjmení,Třída,Body,Celkem,Úspěšnost (%),Známka,Datum`, written as the
   * concatenation of its column names and commas.
   */
  const Header: string :=
    "Jméno" + ("," + ("Příjmení" + ("," + ("Třída" + ("," + ("Body" + ("," + ("Celkem" + ("," +
    ("Úspěšnost (%)" + ("," + ("Známka" + ("," + "Datum")))))))))))))

  /** Its eight column names. */
  const HeaderFields: seq<string> := ["Jméno", "Příjmení", "Třída", "Body", "Celkem", "Úspěšnost (%)", "Známka", "Datum"]

  /** The eight cells of one result's row; the date (formatted by the caller) is wrapped in double quotes. */
  function RowFields(r: StudentResult, date: string): (cells: seq<string>)
    ensures |cells| == |HeaderFields|
  {
    [r.firstName, r.lastName, r.className,
     Decimal(r.correctCount), Decimal(r.totalQuestions), Decimal(r.percentage), Decimal(r.grade),
     "\"" + date + "\""]
  }

  /** One row of the file, without its line break. */
  function RowLine(r: StudentResult, formatDate: string -> string): string
  {
    Join(RowFields(r, formatDate(r.timestamp)), ',')
  }

  /** The rows of the results, each followed by a line break. */
  function Rows(rs: seq<StudentResult>, formatDate: string -> string): string
  {
    if rs == [] then "" else RowLine(rs[0], formatDate) + "\n" + Rows(rs[1..], formatDate)
  }

  /** The whole exported file: the header line, then one line per result. */
  function CsvDocument(rs: seq<StudentResult>, formatDate: string -> string): string
  {
    Header + "\n" + Rows(rs, formatDate)
  }

  /** The lines of the file, in order, as a list of strings. */
  function RowLines(rs: seq<StudentResult>, formatDate: string -> string): (lines: seq<string>)
    ensures |lines| == |rs|
    ensures forall i :: 0 <= i < |rs| ==> lines[i] == RowLine(rs[i], formatDate)
  {
    if rs == [] then [] else [RowLine(rs[0], formatDate)] + RowLines(rs[1..], formatDate)
  }

  class ResultStore {
    /** The `results` dictionary of the teacher's page: test id to the results received for it. */
    var results: map<string, seq<StudentResult>>

    /** An empty store, as when nothing has been saved yet (`'{}'`). */
    constructor()
      ensures results == map[]
    {
      results := map[];
    }

    /** A received result is pushed onto its test's list, which is created first if absent. */
    method Receive(r: StudentResult)
      modifies this
      ensures results == AppendResult(old(results), r)
    {
      if r.testId !in results {
        results := results[r.testId := []];
      }
      results := results[r.testId := results[r.testId] + [r]];
    }

    /**
     * The CSV text for one test, built by appending one row per result to the
     * header; no file at all when the test has no results.
     */
    method ExportToCsv(testId: string, formatDate: string -> string) returns (csv: Option<string>)
      ensures ListFor(results, testId) == [] <==> csv.None?
      ensures csv.Some? ==> csv.value == CsvDocument(ListFor(results, testId), formatDate)
    {
      var testResults := if testId in results then results[testId] else [];
      if |testResults| == 0 {
        return None;
      }
      var text := Header + "\n";
      for i := 0 to |testResults|
        invariant text + Rows(testResults[i..], formatDate) == Header + "\n" + Rows(testResults, formatDate)
      {
        RowsStep(testResults, i, formatDate);
        text := text + RowLine(testResults[i], formatDate) + "\n";
      }
      assert testResults[|testResults|..] == [];
      csv := Some(text);
    }
  }

  /** Peeling the first of the remaining rows off. */
  lemma RowsStep(rs: seq<StudentResult>, i: nat, formatDate: string -> string)
    requires i < |rs|
    ensures Rows(rs[i..], formatDate) == RowLine(rs[i], formatDate) + "\n" + Rows(rs[i + 1..], formatDate)
  {
    assert rs[i..][1..] == rs[i + 1..];
  }

  /** A text without a given character. */
  predicate Free(s: string, c: char)
  {
    c !in s
  }

  /** The rows, as the line-break-separated pieces they are joined from. */
  lemma {:induction false} RowsAsJoin(rs: seq<StudentResult>, formatDate: string -> string)
    ensures Rows(rs, formatDate) == Join(RowLines(rs, formatDate) + [""], '\n')
    decreases |rs|
  {
    if rs != [] {
      RowsAsJoin(rs[1..], formatDate);
      var lines := RowLines(rs, formatDate);
      assert lines + [""] == [lines[0]] + (RowLines(rs[1..], formatDate) + [""]);
    }
  }

  /** A decimal number holds neither a comma nor a line break. */
  lemma DecimalFree(n: nat)
    ensures Free(Decimal(n), ',') && Free(Decimal(n), '\n')
  {
    var s := Decimal(n);
    assert forall k :: 0 <= k < |s| ==> s[k] != ',' && s[k] != '\n';
  }

  /**
   * Splitting a row on commas gives back its eight cells, provided the names,
   * the class and the formatted date hold no comma. The code does not quote
   * or escape the names, so a comma in one of them shifts the columns.
   */
  lemma RowSplitsIntoCells(r: StudentResult, date: string)
    requires Free(r.firstName, ',') && Free(r.lastName, ',') && Free(r.className, ',') && Free(date, ',')
    ensures Split(Join(RowFields(r, date), ','), ',') == RowFields(r, date)
  {
    DecimalFree(r.correctCount);
    DecimalFree(r.totalQuestions);
    DecimalFree(r.percentage);
    DecimalFree(r.grade);
    var cells := RowFields(r, date);
    assert ',' !in cells[7];
    Text.SplitJoin(cells, ',');
  }

  /** The header splits into its eight column names. */
  lemma HeaderSplits()
    ensures Split(Header, ',') == HeaderFields
    ensures |Split(Header, ',')| == 8
  {
    HeaderIsJoin();
    ColumnNamesPlain();
    Text.SplitJoin(HeaderFields, ',');
  }

  /** No column name holds a comma or a line break. */
  lemma ColumnNamesPlain()
    ensures forall i :: 0 <= i < |HeaderFields| ==> ',' !in HeaderFields[i] && '\n' !in HeaderFields[i]
  {
  }

  /** The header is its column names joined with commas. */
  lemma HeaderIsJoin()
    ensures Join(HeaderFields, ',') == Header
  {
    JoinCons("Známka", ["Datum"]);
    JoinCons("Úspěšnost (%)", ["Známka", "Datum"]);
    JoinCons("Celkem", ["Úspěšnost (%)", "Známka", "Datum"]);
    JoinCons("Body", ["Celkem", "Úspěšnost (%)", "Známka", "Datum"]);
    JoinCons("Třída", ["Body", "Celkem", "Úspěšnost (%)", "Známka", "Datum"]);
    JoinCons("Příjmení", ["Třída", "Body", "Celkem", "Úspěšnost (%)", "Známka", "Datum"]);
    JoinCons("Jméno", ["Příjmení", "Třída", "Body", "Celkem", "Úspěšnost (%)", "Známka", "Datum"]);
  }

  /** Joining a list with one more name in front puts that name and a comma before the rest. */
  lemma JoinCons(x: string, rest: seq<string>)
    requires rest != []
    ensures Join([x] + rest, ',') == x + ("," + Join(rest, ','))
  {
    assert ([x] + rest)[1..] == rest;
  }

  /** The header holds no line break. */
  lemma HeaderFree()
    ensures '\n' !in Header
  {
    HeaderIsJoin();
    ColumnNamesPlain();
    JoinFree(HeaderFields, ',', '\n');
  }

  /**
   * Splitting the exported file on line breaks gives the header line, one line
   * per result in list order, and the empty text after the final line break,
   * provided no name, class or formatted date holds a line break.
   */
  lemma {:induction false} CsvLines(rs: seq<StudentResult>, formatDate: string -> string)
    requires forall i :: 0 <= i < |rs| ==>
      Free(rs[i].firstName, '\n') && Free(rs[i].lastName, '\n') && Free(rs[i].className, '\n') &&
      Free(formatDate(rs[i].timestamp), '\n')
    ensures Split(CsvDocument(rs, formatDate), '\n') == [Header] + RowLines(rs, formatDate) + [""]
  {
    var lines := [Header] + RowLines(rs, formatDate) + [""];
    RowsAsJoin(rs, formatDate);
    assert lines == [lines[0]] + (RowLines(rs, formatDate) + [""]);
    assert CsvDocument(rs, formatDate) == Join(lines, '\n');
    forall i | 0 <= i < |lines| ensures '\n' !in lines[i] {
      if 1 <= i < |lines| - 1 {
        assert lines[i] == RowLine(rs[i - 1], formatDate);
        RowLineFree(rs[i - 1], formatDate);
      } else if i == 0 {
        HeaderFree();
      }
    }
    Text.SplitJoin(lines, '\n');
  }

  /** A row holds no line break when neither the names, the class nor the formatted date do. */
  lemma RowLineFree(r: StudentResult, formatDate: string -> string)
    requires Free(r.firstName, '\n') && Free(r.lastName, '\n') && Free(r.className, '\n')
    requires Free(formatDate(r.timestamp), '\n')
    ensures '\n' !in RowLine(r, formatDate)
  {
    var cells := RowFields(r, formatDate(r.timestamp));
    DecimalFree(r.correctCount);
    DecimalFree(r.totalQuestions);
    DecimalFree(r.percentage);
    DecimalFree(r.grade);
    assert '\n' !in cells[7];
    JoinFree(cells, ',', '\n');
  }

  /** Joining pieces that lack a character, with a different separator, gives a text that lacks it too. */
  lemma {:induction false} JoinFree(pieces: seq<string>, sep: char, c: char)
    requires sep != c
    requires forall i :: 0 <= i < |pieces| ==> c !in pieces[i]
    ensures c !in Join(pieces, sep)
    decreases |pieces|
  {
    if |pieces| > 1 {
      JoinFree(pieces[1..], sep, c);
    }
  }
}
