/** The JavaScript string operations the interpreter relies on: `includes`,
    `split` with a one-group regular expression `<d>(.+)`, `split(' ')`, and the
    decimal text a template literal inserts for a non-negative integer. */
module Text {

  datatype Option<T> = None | Some(value: T)

  /** The characters that `.` in a JavaScript regular expression does not match. */
  predicate IsLineTerminator(c: char) {
    c == '\n' || c == '\r' || c == '\U{2028}' || c == '\U{2029}'
  }

  predicate NoLineTerminators(s: string) {
    forall i :: 0 <= i < |s| ==> !IsLineTerminator(s[i])
  }

  /** `d` occurs in `s` starting at index `i`. */
  predicate OccursAt(s: string, d: string, i: int) {
    0 <= i && i + |d| <= |s| && s[i..i + |d|] == d
  }

  /** `s.includes(d)` */
  predicate Contains(s: string, d: string)
    ensures Contains(s, d) ==> |d| <= |s|
    ensures d <= s ==> OccursAt(s, d, 0) && Contains(s, d)
  {
    exists i | 0 <= i <= |s| - |d| :: OccursAt(s, d, i)
  }

  /** Every character of a contained string is a character of the containing one. */
  lemma ContainsChar(s: string, d: string, j: nat)
    requires Contains(s, d) && j < |d|
    ensures d[j] in s
  {
    var i :| 0 <= i <= |s| - |d| && OccursAt(s, d, i);
    assert s[i + j] == s[i..i + |d|][j];
  }

  /** A string lacking, from index `j` on, the character at index `j` of `d` does not contain `d`. */
  lemma AbsentWithoutChar(s: string, d: string, j: nat)
    requires j < |d|
    requires forall k :: j <= k < |s| ==> s[k] != d[j]
    ensures !Contains(s, d)
  {
    forall i | 0 <= i <= |s| - |d|
      ensures !OccursAt(s, d, i)
    {
      assert s[i..i + |d|][j] == s[i + j];
    }
  }

  /** A delimiter `" x…"` does not occur in a string whose only space, at
      index `j`, is followed by a character other than `x`. */
  lemma SoleSpaceExcludes(s: string, j: nat, d: string)
    requires j + 1 < |s| && forall k :: 0 <= k < |s| && s[k] == ' ' ==> k == j
    requires |d| >= 2 && d[0] == ' ' && d[1] != s[j + 1]
    ensures !Contains(s, d)
  {
    forall i | 0 <= i <= |s| - |d|
      ensures !OccursAt(s, d, i)
    {
      assert s[i..i + |d|][0] == s[i];
      assert s[i..i + |d|][1] == s[i + 1];
    }
  }

  /** A delimiter that starts with a space cannot start inside a word free
      of spaces, so it occurs in `w + rest` exactly as it occurs in `rest`. */
  lemma {:induction false} ContainsAfterWord(w: string, rest: string, d: string)
    requires ' ' !in w && |d| > 0 && d[0] == ' '
    ensures Contains(w + rest, d) <==> Contains(rest, d)
  {
    var s := w + rest;
    if Contains(s, d) {
      var i :| 0 <= i <= |s| - |d| && OccursAt(s, d, i);
      assert s[i] == s[i..i + |d|][0] == ' ';
      assert i >= |w|;
      assert rest[i - |w|..i - |w| + |d|] == s[i..i + |d|];
      assert OccursAt(rest, d, i - |w|);
    }
    if Contains(rest, d) {
      var i :| 0 <= i <= |rest| - |d| && OccursAt(rest, d, i);
      assert s[|w| + i..|w| + i + |d|] == rest[i..i + |d|];
      assert OccursAt(s, d, |w| + i);
    }
  }

  /** `d` followed by at least one character that `.` matches: the regular
      expression `<d>(.+)` matches `s` at index `i`. */
  predicate CaptureAt(s: string, d: string, i: int) {
    OccursAt(s, d, i) && i + |d| < |s| && !IsLineTerminator(s[i + |d|])
  }

  /** The leftmost index at or after `from` where `<d>(.+)` matches, scanning as
      the regular-expression engine does. */
  function FirstCaptureFrom(s: string, d: string, from: nat): (r: Option<nat>)
    ensures r.Some? ==> from <= r.value && CaptureAt(s, d, r.value)
    ensures r.Some? ==> forall k :: from <= k < r.value ==> !CaptureAt(s, d, k)
    ensures r.None? ==> forall k :: from <= k ==> !CaptureAt(s, d, k)
    decreases |s| - from
  {
    if from >= |s| then None
    else if CaptureAt(s, d, from) then Some(from)
    else FirstCaptureFrom(s, d, from + 1)
  }

  /** Where the greedy group `(.+)` started at `j` stops: the first line
      terminator at or after `j`, or the end of `s`. */
  function RunEnd(s: string, j: nat): (r: nat)
    requires j <= |s|
    ensures j <= r <= |s|
    ensures forall k :: j <= k < r ==> !IsLineTerminator(s[k])
    ensures r < |s| ==> IsLineTerminator(s[r])
    decreases |s| - j
  {
    if j == |s| || IsLineTerminator(s[j]) then j else RunEnd(s, j + 1)
  }

  /** The first two elements of `s.split(/<d>(.+)/)`: the text before the
      leftmost match and the captured group, `None` where JavaScript gives
      `undefined` because nothing matched. */
  function SplitCapture(s: string, d: string): (r: (string, Option<string>))
    ensures r.1.None? <==> forall k :: !CaptureAt(s, d, k)
    ensures r.1.None? ==> r.0 == s
    ensures r.1.Some? ==> r.0 + d + r.1.value <= s
    ensures r.1.Some? ==> |r.1.value| > 0 && NoLineTerminators(r.1.value)
    ensures r.1.Some? ==> CaptureAt(s, d, |r.0|) && forall k :: 0 <= k < |r.0| ==> !CaptureAt(s, d, k)
    ensures r.1.Some? ==> var e := |r.0| + |d| + |r.1.value|; e == |s| || IsLineTerminator(s[e])
  {
    match FirstCaptureFrom(s, d, 0)
    case None => (s, None)
    case Some(i) =>
      var e := RunEnd(s, i + |d|);
      assert s[..i] + d + s[i + |d|..e] == s[..e];
      (s[..i], Some(s[i + |d|..e]))
  }

  /** On a single line, the split reassembles the whole line, and no
      occurrence of `d` starts before the one it split at. */
  lemma SplitRoundTrip(s: string, d: string)
    requires NoLineTerminators(s)
    requires SplitCapture(s, d).1.Some?
    ensures SplitCapture(s, d).0 + d + SplitCapture(s, d).1.value == s
    ensures forall k :: 0 <= k < |SplitCapture(s, d).0| ==> !OccursAt(s, d, k)
  {
    var (name, rest) := SplitCapture(s, d);
    var i := |name|;
    var e := RunEnd(s, i + |d|);
    assert e == |s|;
    forall k | 0 <= k < i
      ensures !OccursAt(s, d, k)
    {
      assert !CaptureAt(s, d, k);
    }
  }

  /** On a single line containing `d`, the split fails exactly when every
      occurrence of `d` sits at the very end of the line. */
  lemma SplitFailsIff(s: string, d: string)
    requires NoLineTerminators(s)
    ensures SplitCapture(s, d).1.None? <==> forall k :: OccursAt(s, d, k) ==> k + |d| == |s|
  {
    if SplitCapture(s, d).1.None? {
      forall k | OccursAt(s, d, k)
        ensures k + |d| == |s|
      {
        assert !CaptureAt(s, d, k);
      }
    } else {
      var i := |SplitCapture(s, d).0|;
      assert CaptureAt(s, d, i) && OccursAt(s, d, i) && i + |d| != |s|;
    }
  }

  /** Joining a word, the delimiter and a one-line remainder and splitting
      again gives back the word and the whole remainder, later occurrences of
      the delimiter included. */
  lemma SplitJoin(w: string, d: string, content: string)
    requires ' ' !in w && |d| > 0 && d[0] == ' '
    requires |content| > 0 && NoLineTerminators(content)
    ensures SplitCapture(w + d + content, d) == (w, Some(content))
  {
    var s := w + d + content;
    assert s[|w|..|w| + |d|] == d;
    assert s[|w| + |d|] == content[0];
    assert CaptureAt(s, d, |w|);
    forall k | 0 <= k < |w|
      ensures !CaptureAt(s, d, k)
    {
      assert s[k] == w[k] != ' ';
    }
    var r := SplitCapture(s, d);
    assert r.1.Some?;
    assert |r.0| == |w|;
    assert r.0 == s[..|w|] == w;
    var e := RunEnd(s, |w| + |d|);
    forall k | |w| + |d| <= k < |s|
      ensures !IsLineTerminator(s[k])
    {
      assert s[k] == content[k - |w| - |d|];
    }
    assert e == |s|;
    assert r.1.value == s[|w| + |d|..] == content;
  }

  /** The text a template literal inserts for a string that may be `undefined`. */
  function TemplateText(o: Option<string>): string {
    match o
    case Some(s) => s
    case None => "undefined"
  }

  /** `s.split(' ')[0]`: the text before the first space. */
  function FirstToken(s: string): (r: string)
    ensures ' ' !in r
    ensures r <= s
    ensures r == s || s[|r|] == ' '
  {
    if s == [] || s[0] == ' ' then [] else [s[0]] + FirstToken(s[1..])
  }

  /** The first token of a word followed by a space-led text is the word. */
  lemma {:induction false} FirstTokenOfWord(w: string, rest: string)
    requires ' ' !in w && |rest| > 0 && rest[0] == ' '
    ensures FirstToken(w + rest) == w
  {
    if w == [] {
      assert w + rest == rest;
    } else {
      assert (w + rest)[1..] == w[1..] + rest;
      FirstTokenOfWord(w[1..], rest);
    }
  }

  predicate IsDigit(c: char) {
    '0' <= c <= '9'
  }

  function DigitValue(c: char): nat
    requires IsDigit(c)
  {
    c as int - '0' as int
  }

  function DigitChar(d: nat): (c: char)
    requires d < 10
    ensures IsDigit(c) && DigitValue(c) == d
  {
    ('0' as int + d) as char
  }

  /** The number that a string of decimal digits denotes. */
  function DecimalValue(s: string): nat
    requires forall i :: 0 <= i < |s| ==> IsDigit(s[i])
  {
    if s == [] then 0 else 10 * DecimalValue(s[..|s| - 1]) + DigitValue(s[|s| - 1])
  }

  /** `${n}` for a non-negative integer: its decimal digits, without leading zeros. */
  function NatToString(n: nat): (r: string)
    ensures |r| > 0 && forall i :: 0 <= i < |r| ==> IsDigit(r[i])
    ensures DecimalValue(r) == n
    ensures r[0] == '0' <==> n == 0
    decreases n
  {
    if n < 10 then [DigitChar(n)]
    else
      var prefix := NatToString(n / 10);
      var r := prefix + [DigitChar(n % 10)];
      assert r[..|r| - 1] == prefix;
      r
  }
}
