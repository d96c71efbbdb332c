/**
 * The character classes and string operations of JavaScript that the parsers
 * rely on: the `\s` class and `String.prototype.trim`, `.` (anything but a line
 * terminator), `\d`, the ASCII letter classes, `toUpperCase` on ASCII letters,
 * the case folding of a non-unicode `/i` regular expression, `split('\n')`
 * and the decimal rendering of a non-negative integer.
 */
module Text {

  /** An ECMAScript LineTerminator: the characters `.` does not match. */
  predicate IsLineTerminator(c: char)
  {
    c == '\n' || c == '\r' || c == '\U{2028}' || c == '\U{2029}'
  }

  /** An ECMAScript WhiteSpace or LineTerminator: the class `\s`, and what `trim` removes. */
  predicate IsSpace(c: char)
  {
    || IsLineTerminator(c)
    || c == '\t' || c == '\U{000B}' || c == '\U{000C}' || c == ' '
    || c == '\U{00A0}' || c == '\U{1680}' || ('\U{2000}' <= c <= '\U{200A}')
    || c == '\U{202F}' || c == '\U{205F}' || c == '\U{3000}' || c == '\U{FEFF}'
  }

  /** The class `\d`. */
  predicate IsDigit(c: char)
  {
    '0' <= c <= '9'
  }

  /** The class `[a-zA-Z]` (also under `/i`: no other character folds onto an ASCII letter there). */
  predicate IsAsciiLetter(c: char)
  {
    'a' <= c <= 'z' || 'A' <= c <= 'Z'
  }

  predicate IsUpperLetter(c: char)
  {
    'A' <= c <= 'Z'
  }

  /** `toUpperCase` restricted to the characters it is applied to: ASCII letters. */
  function ToUpper(c: char): (u: char)
    ensures IsAsciiLetter(c) ==> IsUpperLetter(u) && FoldCase(u) == FoldCase(c)
    ensures !('a' <= c <= 'z') ==> u == c
  {
    if 'a' <= c <= 'z' then (c as int - 32) as char else c
  }

  /**
   * The canonical form under which a non-unicode `/i` regular expression
   * compares characters, for every letter that occurs in the patterns of
   * this model: the ASCII letters and the Czech letters á, ě and ď.
   */
  function FoldCase(c: char): char
  {
    if 'A' <= c <= 'Z' then (c as int + 32) as char
    else if c == 'Á' then 'á'
    else if c == 'Ě' then 'ě'
    else if c == 'Ď' then 'ď'
    else c
  }

  /** `s` begins with `p`, comparing characters as `/i` does. */
  predicate StartsWithIgnoringCase(s: string, p: string)
  {
    |p| <= |s| && forall i :: 0 <= i < |p| ==> FoldCase(s[i]) == FoldCase(p[i])
  }

  predicate AllSpace(s: string)
  {
    forall k :: 0 <= k < |s| ==> IsSpace(s[k])
  }

  /** Where the run of white space that starts at position `i` of `s` ends. */
  function SpaceEnd(s: string, i: nat): (n: nat)
    requires i <= |s|
    ensures i <= n <= |s|
    ensures forall k :: i <= k < n ==> IsSpace(s[k])
    ensures n == |s| || !IsSpace(s[n])
    decreases |s| - i
  {
    if i < |s| && IsSpace(s[i]) then SpaceEnd(s, i + 1) else i
  }

  /** Where the run of white space that ends just before position `j` of `s` starts. */
  function SpaceStart(s: string, j: nat): (n: nat)
    requires j <= |s|
    ensures n <= j
    ensures forall k :: n <= k < j ==> IsSpace(s[k])
    ensures n == 0 || !IsSpace(s[n - 1])
  {
    if j > 0 && IsSpace(s[j - 1]) then SpaceStart(s, j - 1) else j
  }

  /** `s` without its leading white space. */
  function TrimStart(s: string): (r: string)
    ensures |r| <= |s| && r == s[|s| - |r|..]
    ensures AllSpace(s[..|s| - |r|])
    ensures r == [] || !IsSpace(r[0])
  {
    var n := SpaceEnd(s, 0);
    assert forall k :: 0 <= k < n ==> s[..n][k] == s[k];
    s[n..]
  }

  /** `s` without its trailing white space. */
  function TrimEnd(s: string): (r: string)
    ensures |r| <= |s| && r == s[..|r|]
    ensures AllSpace(s[|r|..])
    ensures r == [] || !IsSpace(r[|r| - 1])
  {
    var n := SpaceStart(s, |s|);
    assert forall k :: 0 <= k < |s| - n ==> s[n..][k] == s[n + k];
    s[..n]
  }

  /** Text that starts with a given text starts with it ignoring case as well. */
  lemma StartsWithSelf(p: string, rest: string)
    ensures StartsWithIgnoringCase(p + rest, p)
  {
    var s := p + rest;
    assert forall i :: 0 <= i < |p| ==> s[i] == p[i];
  }

  /** One white-space character in front of a text that does not start with white space is all `TrimStart` removes. */
  lemma TrimStartOne(c: char, t: string)
    requires IsSpace(c) && (t == [] || !IsSpace(t[0]))
    ensures TrimStart([c] + t) == t
  {
    var s := [c] + t;
    assert s[0] == c;
    assert |t| > 0 ==> s[1] == t[0];
    assert SpaceEnd(s, 1) == 1;
    assert s[1..] == t;
  }

  /** `\s*` stops at position `i` of `s`: everything before it is white space, and `s[i]` is not. */
  predicate FirstNonSpaceAt(s: string, i: nat)
  {
    i < |s| && AllSpace(s[..i]) && !IsSpace(s[i])
  }

  /** White space from `j` up to `i`, and none at `i`: the run that starts at `j` ends at `i`. */
  lemma {:induction false} SpaceEndAt(s: string, j: nat, i: nat)
    requires j <= i < |s| && !IsSpace(s[i])
    requires forall k :: j <= k < i ==> IsSpace(s[k])
    ensures SpaceEnd(s, j) == i
    decreases i - j
  {
    if j < i {
      SpaceEndAt(s, j + 1, i);
    }
  }

  /** Where the leading white space ends, `TrimStart` cuts. */
  lemma TrimStartAt(s: string, i: nat)
    requires FirstNonSpaceAt(s, i)
    ensures TrimStart(s) == s[i..]
  {
    assert forall k :: 0 <= k < i ==> s[..i][k] == s[k];
    SpaceEndAt(s, 0, i);
  }

  /** `String.prototype.trim`: no white space is left at either end. */
  function Trim(s: string): (r: string)
    ensures r == [] || (!IsSpace(r[0]) && !IsSpace(r[|r| - 1]))
    ensures |r| <= |s|
  {
    TrimEnd(TrimStart(s))
  }

  /**
   * What `trim` keeps is the input with its ends cut off: the leading
   * white space, of length `|s| - |TrimStart(s)|`, and the trailing.
   */
  lemma TrimCuts(s: string)
    ensures |s| - |TrimStart(s)| + |Trim(s)| <= |s|
    ensures Trim(s) == s[|s| - |TrimStart(s)|..|s| - |TrimStart(s)| + |Trim(s)|]
    ensures AllSpace(s[..|s| - |TrimStart(s)|])
    ensures AllSpace(s[|s| - |TrimStart(s)| + |Trim(s)|..])
  {
    var t := TrimStart(s);
    var r := TrimEnd(t);
    var i := |s| - |t|;
    assert t == s[i..];
    assert r == t[..|r|];
    assert s[i..i + |r|] == t[..|r|];
    assert s[i + |r|..] == t[|r|..];
  }

  /** `trim` leaves nothing exactly when the text is all white space. */
  lemma TrimEmptyIff(s: string)
    ensures Trim(s) == [] <==> AllSpace(s)
  {
    var t := TrimStart(s);
    var r := TrimEnd(t);
    if r == [] {
      assert t == t[|r|..];
      assert t == [];
      assert s == s[..|s| - |t|];
    }
  }

  /** The longest prefix of `s` without a line terminator: what `(.+)` captures once it starts. */
  function TakeLine(s: string): (r: string)
    ensures |r| <= |s| && r == s[..|r|]
    ensures forall k :: 0 <= k < |r| ==> !IsLineTerminator(r[k])
    ensures |r| == |s| || IsLineTerminator(s[|r|])
  {
    if s == [] || IsLineTerminator(s[0]) then [] else [s[0]] + TakeLine(s[1..])
  }

  /** The position of the first `c` in `s`, or `|s|` when there is none. */
  function IndexOf(s: string, c: char): (i: nat)
    ensures i <= |s|
    ensures forall k :: 0 <= k < i ==> s[k] != c
    ensures i < |s| ==> s[i] == c
  {
    if s == [] then 0 else if s[0] == c then 0 else 1 + IndexOf(s[1..], c)
  }

  /** The pieces joined back together with `sep` between neighbours (`Array.prototype.join`). */
  function Join(pieces: seq<string>, sep: char): string
  {
    if pieces == [] then ""
    else if |pieces| == 1 then pieces[0]
    else pieces[0] + [sep] + Join(pieces[1..], sep)
  }

  /** `String.prototype.split` on a one-character separator. */
  function Split(s: string, sep: char): (pieces: seq<string>)
    ensures |pieces| >= 1
    ensures forall i :: 0 <= i < |pieces| ==> sep !in pieces[i]
    ensures Join(pieces, sep) == s
    decreases |s|
  {
    var i := IndexOf(s, sep);
    if i == |s| then [s]
    else
      var rest := Split(s[i + 1..], sep);
      assert s == s[..i] + [sep] + s[i + 1..];
      [s[..i]] + rest
  }

  /** Splitting undoes joining, as long as no piece holds the separator. */
  lemma {:induction false} SplitJoin(pieces: seq<string>, sep: char)
    requires |pieces| >= 1
    requires forall i :: 0 <= i < |pieces| ==> sep !in pieces[i]
    ensures Split(Join(pieces, sep), sep) == pieces
  {
    var s := Join(pieces, sep);
    if |pieces| == 1 {
      assert IndexOf(s, sep) == |s|;
    } else {
      var p := pieces[0];
      assert s == p + [sep] + Join(pieces[1..], sep);
      assert s[..|p|] == p;
      assert forall k :: 0 <= k < |p| ==> s[k] != sep by {
        forall k | 0 <= k < |p| ensures s[k] != sep {
          assert s[k] == p[k];
        }
      }
      assert s[|p|] == sep;
      assert IndexOf(s, sep) == |p|;
      assert s[|p| + 1..] == Join(pieces[1..], sep);
      SplitJoin(pieces[1..], sep);
    }
  }

  /** Joining with a white-space separator gives white space exactly when every piece is white space. */
  lemma {:induction false} JoinAllSpace(pieces: seq<string>, sep: char)
    requires IsSpace(sep)
    ensures AllSpace(Join(pieces, sep)) <==> forall i :: 0 <= i < |pieces| ==> AllSpace(pieces[i])
  {
    if |pieces| > 1 {
      var s := Join(pieces, sep);
      var rest := Join(pieces[1..], sep);
      JoinAllSpace(pieces[1..], sep);
      assert s == pieces[0] + [sep] + rest;
      if AllSpace(s) {
        assert forall k :: 0 <= k < |pieces[0]| ==> pieces[0][k] == s[k];
        assert forall k :: 0 <= k < |rest| ==> rest[k] == s[|pieces[0]| + 1 + k];
      }
      assert forall i :: 1 <= i < |pieces| ==> pieces[i] == pieces[1..][i - 1];
    }
  }

  function DigitChar(d: nat): (c: char)
    requires d < 10
    ensures IsDigit(c)
  {
    ('0' as int + d) as char
  }

  /** The value of a string of decimal digits. */
  function DigitsValue(s: string): nat
    requires forall k :: 0 <= k < |s| ==> IsDigit(s[k])
  {
    if s == [] then 0
    else
      assert IsDigit(s[|s| - 1]);
      DigitsValue(s[..|s| - 1]) * 10 + (s[|s| - 1] as int - '0' as int)
  }

  /** `String(n)` for a non-negative integer `n`. */
  function Decimal(n: nat): (s: string)
    ensures |s| >= 1
    ensures forall k :: 0 <= k < |s| ==> IsDigit(s[k])
  {
    if n < 10 then [DigitChar(n)] else Decimal(n / 10) + [DigitChar(n % 10)]
  }

  /** Reading the decimal rendering back gives the number. */
  lemma {:induction false} DecimalRoundTrip(n: nat)
    ensures DigitsValue(Decimal(n)) == n
  {
    if n >= 10 {
      DecimalRoundTrip(n / 10);
      assert Decimal(n)[..|Decimal(n)| - 1] == Decimal(n / 10);
    }
  }

  /** Different numbers have different renderings. */
  lemma DecimalInjective(m: nat, n: nat)
    requires m != n
    ensures Decimal(m) != Decimal(n)
  {
    DecimalRoundTrip(m);
    DecimalRoundTrip(n);
  }

  /** Trimming twice is trimming once. */
  lemma TrimIdempotent(s: string)
    ensures Trim(Trim(s)) == Trim(s)
  {
    var t := Trim(s);
    if t != [] {
      assert TrimStart(t) == t;
      assert TrimEnd(t) == t;
    }
  }
}
