/**
 * Hand-written matchers for the regular expressions the two parsers apply to
 * one trimmed line of text. Each matcher returns what the expression's capture
 * groups hold, or `None` when `String.prototype.match` returns `null`.
 *
 * The tail `\s*(.+)` is read as "skip the white space, then capture up to the
 * first line terminator". That is exactly the regular expression's capture on
 * every text that does not end in white space, which is all these matchers are
 * ever given: both parsers trim each line first.
 */
module Patterns {
  import opened Wrappers
  import opened Text

  /**
   * `c` is the run of characters other than line terminators that starts at
   * position `i` of `s` and goes as far as it can: what `(.+)` captures there.
   */
  predicate LineFrom(s: string, i: nat, c: string)
  {
    && c != []
    && i + |c| <= |s| && s[i..i + |c|] == c
    && (forall k :: 0 <= k < |c| ==> !IsLineTerminator(c[k]))
    && (i + |c| == |s| || IsLineTerminator(s[i + |c|]))
  }

  /** `c` is what `\s*(.+)` captures from `s`: the line that starts where the leading white space ends. */
  predicate IsRestCapture(s: string, c: string)
  {
    forall i :: 0 <= i < |s| && FirstNonSpaceAt(s, i) ==> LineFrom(s, i, c)
  }

  /** The tail `\s*(.+)` of a pattern, applied to what follows the fixed part. */
  function CaptureRest(s: string): (r: Option<string>)
    ensures r.None? <==> AllSpace(s)
    ensures r.Some? ==> r.value != [] && !IsSpace(r.value[0])
    ensures r.Some? ==> forall k :: 0 <= k < |r.value| ==> !IsLineTerminator(r.value[k])
    ensures r.Some? ==> IsRestCapture(s, r.value)
  {
    var t := TrimStart(s);
    if t == [] then
      None
    else
      assert !IsLineTerminator(t[0]);
      var c := TakeLine(t);
      assert IsRestCapture(s, c) by {
        forall i | 0 <= i < |s| && FirstNonSpaceAt(s, i) ensures LineFrom(s, i, c) {
          TrimStartAt(s, i);
          assert s[i..i + |c|] == c;
        }
      }
      Some(c)
  }

  /** The length of the run of digits that starts `s`: what a greedy `\d+` takes. */
  function LeadingDigits(s: string): (n: nat)
    ensures n <= |s|
    ensures forall k :: 0 <= k < n ==> IsDigit(s[k])
    ensures n == |s| || !IsDigit(s[n])
  {
    if s != [] && IsDigit(s[0]) then 1 + LeadingDigits(s[1..]) else 0
  }

  /** `^(\d+)\.\s*(.+)`, giving the question text (the second group); the number is not used. */
  function MatchQuestion(t: string): (r: Option<string>)
    ensures r.Some? <==> 0 < LeadingDigits(t) < |t| && t[LeadingDigits(t)] == '.' && !AllSpace(t[LeadingDigits(t) + 1..])
    ensures r.Some? ==> IsRestCapture(t[LeadingDigits(t) + 1..], r.value)
    ensures r.Some? ==> r.value != [] && !IsSpace(r.value[0])
    ensures r.Some? ==> forall k :: 0 <= k < |r.value| ==> !IsLineTerminator(r.value[k])
  {
    var n := LeadingDigits(t);
    if 0 < n < |t| && t[n] == '.' then
      var rest := t[n + 1..];
      var r := CaptureRest(rest);
      assert r.None? <==> AllSpace(rest);
      r
    else None
  }

  /** `^([a-zA-Z])\)\s*(.+)`, giving the letter upper-cased and the option text. */
  function MatchOption(t: string): (r: Option<(char, string)>)
    ensures r.Some? ==> |t| >= 2 && IsAsciiLetter(t[0]) && t[1] == ')'
    ensures r.Some? ==> IsUpperLetter(r.value.0) && r.value.0 == ToUpper(t[0])
    ensures r.Some? ==> r.value.1 != [] && !IsSpace(r.value.1[0])
    ensures r.Some? <==> |t| >= 2 && IsAsciiLetter(t[0]) && t[1] == ')' && !AllSpace(t[2..])
    ensures r.Some? ==> IsRestCapture(t[2..], r.value.1)
  {
    if |t| >= 2 && IsAsciiLetter(t[0]) && t[1] == ')' then
      match CaptureRest(t[2..])
      case Some(rest) => Some((ToUpper(t[0]), rest))
      case None => None
    else None
  }

  /** The two correct-answer markers of the block-based parser, in the order they are tried. */
  const Spravne: string := "Správně:"
  const SpravnaOdpoved: string := "Správná odpověď:"

  /**
   * The letter captured by `pattern\s*([a-zA-Z])` under `/i` when the match
   * starts at position `p` of `t`, upper-cased.
   */
  function MarkerAt(t: string, pattern: string, p: nat): (r: Option<char>)
    requires p <= |t|
    ensures r.Some? ==> IsUpperLetter(r.value)
    ensures r.Some? ==> StartsWithIgnoringCase(t[p..], pattern)
    ensures StartsWithIgnoringCase(t[p..], pattern) ==>
              var after := t[p + |pattern|..];
              (AllSpace(after) ==> r.None?) &&
              forall i :: 0 <= i < |after| && FirstNonSpaceAt(after, i) ==>
                (r.Some? <==> IsAsciiLetter(after[i])) && (r.Some? ==> r.value == ToUpper(after[i]))
  {
    var u := t[p..];
    if StartsWithIgnoringCase(u, pattern) then
      var after := u[|pattern|..];
      assert after == t[p + |pattern|..];
      var rest := TrimStart(after);
      assert forall i :: 0 <= i < |after| && FirstNonSpaceAt(after, i) ==> rest == after[i..] by {
        forall i | 0 <= i < |after| && FirstNonSpaceAt(after, i) ensures rest == after[i..] {
          TrimStartAt(after, i);
        }
      }
      if rest != [] && IsAsciiLetter(rest[0]) then Some(ToUpper(rest[0])) else None
    else None
  }

  /** The leftmost position from `i` on where `pattern\s*([a-zA-Z])` matches in `t`. */
  function FindMarkerFrom(t: string, pattern: string, i: nat): (r: Option<nat>)
    requires i <= |t|
    ensures r.Some? ==> i <= r.value <= |t| && MarkerAt(t, pattern, r.value).Some?
    ensures r.Some? ==> forall p :: i <= p < r.value ==> MarkerAt(t, pattern, p).None?
    ensures r.None? ==> forall p :: i <= p <= |t| ==> MarkerAt(t, pattern, p).None?
    decreases |t| - i
  {
    if MarkerAt(t, pattern, i).Some? then Some(i)
    else if i == |t| then None
    else FindMarkerFrom(t, pattern, i + 1)
  }

  /** The letter of the leftmost match of `pattern\s*([a-zA-Z])` in `t` (`String.prototype.match`). */
  function SearchMarker(t: string, pattern: string): (r: Option<char>)
    ensures r.Some? ==> IsUpperLetter(r.value)
    ensures r.Some? ==> exists p :: 0 <= p <= |t| && MarkerAt(t, pattern, p) == r
                                    && forall q :: 0 <= q < p ==> MarkerAt(t, pattern, q).None?
    ensures r.None? <==> forall p :: 0 <= p <= |t| ==> MarkerAt(t, pattern, p).None?
  {
    match FindMarkerFrom(t, pattern, 0)
    case Some(p) => MarkerAt(t, pattern, p)
    case None => None
  }

  /**
   * `t.match(/Správně:\s*([a-zA-Z])/i) || t.match(/Správná odpověď:\s*([a-zA-Z])/i)`:
   * the marker letter, found anywhere in the text, the first pattern tried first.
   */
  function FindMarker(t: string): (r: Option<char>)
    ensures r.Some? ==> IsUpperLetter(r.value)
    ensures SearchMarker(t, Spravne).Some? ==> r == SearchMarker(t, Spravne)
    ensures SearchMarker(t, Spravne).None? ==> r == SearchMarker(t, SpravnaOdpoved)
  {
    var first := SearchMarker(t, Spravne);
    if first.Some? then first else SearchMarker(t, SpravnaOdpoved)
  }

  /** The answer letters in index order: A is answer 0, D is answer 3. */
  const AnswerLetters: string := "ABCD"

  /** `[A-D]` under `/i`: one of the four answer letters, in either case. */
  predicate IsAnswerLetter(c: char)
  {
    'A' <= c <= 'D' || 'a' <= c <= 'd'
  }

  /** `correctLetter.charCodeAt(0) - 65` of the upper-cased letter: its position in "ABCD". */
  function AnswerIndex(c: char): (k: int)
    requires IsAnswerLetter(c)
    ensures 0 <= k <= 3 && AnswerLetters[k] == ToUpper(c)
  {
    ToUpper(c) as int - 'A' as int
  }

  /** `^([A-D])\)\s*(.+)` under `/i`, giving the answer text; the letter is dropped. */
  function MatchAnswer(t: string): (r: Option<string>)
    ensures r.Some? ==> |t| >= 2 && IsAnswerLetter(t[0]) && t[1] == ')'
    ensures r.Some? ==> r.value != [] && !IsSpace(r.value[0])
    ensures r.Some? <==> |t| >= 2 && IsAnswerLetter(t[0]) && t[1] == ')' && !AllSpace(t[2..])
    ensures r.Some? ==> IsRestCapture(t[2..], r.value)
  {
    if |t| >= 2 && IsAnswerLetter(t[0]) && t[1] == ')' then CaptureRest(t[2..]) else None
  }

  /**
   * `^Správně:\s*([A-D])` under `/i`, giving the index of the letter
   * (`charCodeAt(0) - 65` of the upper-cased letter: A is 0, D is 3).
   */
  function MatchAnswerKey(t: string): (r: Option<int>)
    ensures r.Some? ==> 0 <= r.value <= 3
    ensures r.Some? ==> StartsWithIgnoringCase(t, Spravne)
    ensures StartsWithIgnoringCase(t, Spravne) ==>
              var after := t[|Spravne|..];
              (AllSpace(after) ==> r.None?) &&
              forall i :: 0 <= i < |after| && FirstNonSpaceAt(after, i) ==>
                (r.Some? <==> IsAnswerLetter(after[i])) && (r.Some? ==> AnswerLetters[r.value] == ToUpper(after[i]))
  {
    if StartsWithIgnoringCase(t, Spravne) then
      var after := t[|Spravne|..];
      var rest := TrimStart(after);
      assert forall i :: 0 <= i < |after| && FirstNonSpaceAt(after, i) ==> rest == after[i..] by {
        forall i | 0 <= i < |after| && FirstNonSpaceAt(after, i) ensures rest == after[i..] {
          TrimStartAt(after, i);
        }
      }
      if rest != [] && IsAnswerLetter(rest[0]) then Some(AnswerIndex(rest[0])) else None
    else None
  }

  /** The prefix the legacy title line may carry. */
  const TitlePrefix: string := "Název testu"

  // `line.replace(/^Název testu:?\s*/i, '')`: when the line starts with the
  // prefix (ignoring case), the prefix, a colon right after it if there is one,
  // and the white space after them are removed; any other line is kept.
  function StripTitlePrefix(line: string): (r: string)
    ensures |r| <= |line| && r == line[|line| - |r|..]
    ensures !StartsWithIgnoringCase(line, TitlePrefix) ==> r == line
    ensures StartsWithIgnoringCase(line, TitlePrefix) ==>
              var q := if |line| > |TitlePrefix| && line[|TitlePrefix|] == ':' then |TitlePrefix| + 1 else |TitlePrefix|;
              q <= |line| - |r| && AllSpace(line[q..|line| - |r|]) && (r == [] || !IsSpace(r[0]))
  {
    if StartsWithIgnoringCase(line, TitlePrefix) then
      var q := if |line| > |TitlePrefix| && line[|TitlePrefix|] == ':' then |TitlePrefix| + 1 else |TitlePrefix|;
      var r := TrimStart(line[q..]);
      assert line[q..][..|line| - q - |r|] == line[q..|line| - |r|];
      r
    else line
  }

  /** A title written after the prefix, a colon and a space comes back unchanged. */
  lemma StripTitlePrefixRoundTrip(title: string)
    requires title == [] || !IsSpace(title[0])
    ensures StripTitlePrefix(TitlePrefix + ": " + title) == title
  {
    var line := TitlePrefix + ": " + title;
    StartsWithSelf(TitlePrefix, ": " + title);
    assert line == TitlePrefix + (": " + title);
    assert line[|TitlePrefix|] == ':';
    assert line[|TitlePrefix| + 1..] == [' '] + title;
    TrimStartOne(' ', title);
  }

  // ----- lines written in the formats the patterns read -----

  /** A text the tail `\s*(.+)` captures whole: not empty, no white space in front, one line. */
  predicate IsLineText(text: string)
  {
    text != [] && !IsSpace(text[0]) && forall k :: 0 <= k < |text| ==> !IsLineTerminator(text[k])
  }

  /** `\s*(.+)` applied to a space and a one-line text captures the text. */
  lemma CaptureRestRoundTrip(text: string)
    requires IsLineText(text)
    ensures CaptureRest([' '] + text) == Some(text)
  {
    TrimStartOne(' ', text);
    TakeLineWhole(text);
    assert TrimStart([' '] + text) == text;
  }

  /** On a text without line terminators `(.+)` runs to the end. */
  lemma TakeLineWhole(text: string)
    requires forall k :: 0 <= k < |text| ==> !IsLineTerminator(text[k])
    ensures TakeLine(text) == text
  {
    assert text[..|text|] == text;
  }

  /** A run of digits followed by a non-digit is what `\d+` takes. */
  lemma {:induction false} LeadingDigitsOf(d: string, rest: string)
    requires forall k :: 0 <= k < |d| ==> IsDigit(d[k])
    requires rest == [] || !IsDigit(rest[0])
    ensures LeadingDigits(d + rest) == |d|
  {
    if d != [] {
      assert (d + rest)[1..] == d[1..] + rest;
      LeadingDigitsOf(d[1..], rest);
    }
  }

  /** A question line `<digits>. <text>` is read back as its text. */
  lemma MatchQuestionOf(d: string, text: string)
    requires d != [] && forall k :: 0 <= k < |d| ==> IsDigit(d[k])
    requires IsLineText(text)
    ensures MatchQuestion(d + ". " + text) == Some(text)
  {
    var rest := [' '] + text;
    var t := d + ". " + text;
    assert t == d + (['.'] + rest);
    LeadingDigitsOf(d, ['.'] + rest);
    assert t[|d|] == '.';
    assert t[|d| + 1..] == rest;
    CaptureRestRoundTrip(text);
  }

  /** A question line `<n>. <text>` is read back as its text. */
  lemma MatchQuestionRoundTrip(n: nat, text: string)
    requires IsLineText(text)
    ensures MatchQuestion(Decimal(n) + ". " + text) == Some(text)
  {
    MatchQuestionOf(Decimal(n), text);
  }

  /** An option line `<letter>) <text>` is read back as the upper-cased letter and the text. */
  lemma MatchOptionRoundTrip(c: char, text: string)
    requires IsAsciiLetter(c) && IsLineText(text)
    ensures MatchOption([c] + ") " + text) == Some((ToUpper(c), text))
  {
    var t := [c] + ") " + text;
    assert t[0] == c && t[1] == ')';
    assert t[2..] == [' '] + text;
    CaptureRestRoundTrip(text);
  }

  /** A legacy answer line `<A-D>) <text>` is read back as the text. */
  lemma MatchAnswerRoundTrip(c: char, text: string)
    requires IsAnswerLetter(c) && IsLineText(text)
    ensures MatchAnswer([c] + ") " + text) == Some(text)
  {
    var t := [c] + ") " + text;
    assert t[0] == c && t[1] == ')';
    assert t[2..] == [' '] + text;
    CaptureRestRoundTrip(text);
  }

  /** A key line `Správně: <letter>` is read back as the letter's position in "ABCD". */
  lemma MatchAnswerKeyRoundTrip(k: nat)
    requires k < |AnswerLetters|
    ensures MatchAnswerKey(Spravne + " " + [AnswerLetters[k]]) == Some(k)
  {
    var t := Spravne + " " + [AnswerLetters[k]];
    StartsWithSelf(Spravne, " " + [AnswerLetters[k]]);
    assert t == Spravne + (" " + [AnswerLetters[k]]);
    assert t[|Spravne|..] == [' '] + [AnswerLetters[k]];
    TrimStartOne(' ', [AnswerLetters[k]]);
  }

  /** A text that starts with `Správně: <letter>` has that letter, upper-cased, as its marker. */
  lemma FindMarkerRoundTrip(c: char, rest: string)
    requires IsAsciiLetter(c)
    ensures FindMarker(Spravne + " " + [c] + rest) == Some(ToUpper(c))
  {
    var t := Spravne + " " + [c] + rest;
    StartsWithSelf(Spravne, " " + [c] + rest);
    assert t == Spravne + (" " + [c] + rest);
    assert t[0..] == t;
    var after := t[|Spravne|..];
    assert after == [' '] + ([c] + rest);
    TrimStartOne(' ', [c] + rest);
    assert MarkerAt(t, Spravne, 0) == Some(ToUpper(c));
  }
}
