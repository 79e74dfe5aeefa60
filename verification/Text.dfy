/** Small string operations of the Rust standard library. A string is the sequence of its UTF-8
    bytes, one `char` each; digits, letters and white space are those of ASCII. */
module Text {
  import opened Common

  predicate IsSpace(c: char) {
    c == ' ' || 9 as char <= c <= 13 as char
  }

  predicate IsDigit(c: char) {
    '0' <= c <= '9'
  }

  predicate IsAlpha(c: char) {
    'a' <= c <= 'z' || 'A' <= c <= 'Z'
  }

  predicate AllDigits(s: string) {
    forall i :: 0 <= i < |s| ==> IsDigit(s[i])
  }

  predicate NoSpace(s: string) {
    forall i :: 0 <= i < |s| ==> !IsSpace(s[i])
  }

  // ---- Numbers ----

  function Digit(c: char): nat
    requires IsDigit(c)
  {
    c as int - '0' as int
  }

  function DecValue(s: string): nat
    requires AllDigits(s)
  {
    if s == [] then 0 else 10 * DecValue(s[..|s| - 1]) + Digit(s[|s| - 1])
  }

  /** `str::parse` for an unsigned type with the given number of values: an optional plus sign,
      then at least one digit. */
  function ParseUnsigned(s: string, limit: nat): Option<nat> {
    var digits := if s != [] && s[0] == '+' then s[1..] else s;
    if digits != [] && AllDigits(digits) && DecValue(digits) < limit then Some(DecValue(digits)) else None
  }

  const USIZE: nat := 0x1_0000_0000_0000_0000

  function ParseUsize(s: string): Option<nat> {
    ParseUnsigned(s, USIZE)
  }

  function DigitChar(d: nat): char
    requires d < 10
  {
    ('0' as int + d) as char
  }

  /** `{}` of an unsigned number. */
  function ShowDec(n: nat): (s: string)
    ensures s != [] && AllDigits(s) && DecValue(s) == n
  {
    if n < 10 then [DigitChar(n)]
    else
      var s := ShowDec(n / 10) + [DigitChar(n % 10)];
      assert s[..|s| - 1] == ShowDec(n / 10);
      s
  }

  // ---- Searching and splitting ----

  /** Length of the longest prefix without a character of `stop`. */
  function Until(s: string, stop: set<char>): (n: nat)
    ensures n <= |s| && (forall i :: 0 <= i < n ==> s[i] !in stop) && (n < |s| ==> s[n] in stop)
  {
    if s == [] || s[0] in stop then 0 else 1 + Until(s[1..], stop)
  }

  /** Start of the longest suffix without `c`. */
  function AfterLast(s: string, c: char): (n: nat)
    ensures n <= |s| && (forall i :: n <= i < |s| ==> s[i] != c) && (n > 0 ==> s[n - 1] == c)
  {
    if s == [] || s[|s| - 1] == c then |s| else AfterLast(s[..|s| - 1], c)
  }

  /** The prefix length that stops at the first stop character is unique. */
  lemma UntilIs(s: string, stop: set<char>, n: nat)
    requires n <= |s| && (forall i :: 0 <= i < n ==> s[i] !in stop) && (n < |s| ==> s[n] in stop)
    ensures Until(s, stop) == n
  {
  }

  lemma AfterLastIs(s: string, c: char, n: nat)
    requires n <= |s| && (forall i :: n <= i < |s| ==> s[i] != c) && (n > 0 ==> s[n - 1] == c)
    ensures AfterLast(s, c) == n
  {
  }

  function TrimStart(s: string): (t: string)
    ensures |t| <= |s| && t == s[|s| - |t|..] && (t != [] ==> !IsSpace(t[0]))
  {
    if s != [] && IsSpace(s[0]) then TrimStart(s[1..]) else s
  }

  function TrimEnd(s: string): (t: string)
    ensures t <= s && (t != [] ==> !IsSpace(t[|t| - 1]))
  {
    if s != [] && IsSpace(s[|s| - 1]) then TrimEnd(s[..|s| - 1]) else s
  }

  function Trim(s: string): string {
    TrimStart(TrimEnd(s))
  }

  /** `split(c)`: at least one piece, one more than there are separators. */
  function SplitOn(s: string, c: char): (pieces: seq<string>)
    ensures |pieces| >= 1
    decreases |s|
  {
    var n := Until(s, {c});
    if n == |s| then [s] else [s[..n]] + SplitOn(s[n + 1..], c)
  }

  /** `lines()`: pieces between newlines, a carriage return before the newline dropped, and no empty
      last piece. */
  function Lines(text: string): seq<string> {
    var pieces := SplitOn(text, '\n');
    var last := pieces[|pieces| - 1];
    seq(|pieces| - 1, i requires 0 <= i < |pieces| - 1 => DropReturn(pieces[i])) + if last == [] then [] else [last]
  }

  function DropReturn(line: string): string {
    if line != [] && line[|line| - 1] == '\r' then line[..|line| - 1] else line
  }

  /** `trim_end_matches`, for a non-empty suffix. */
  function TrimSuffix(s: string, suffix: string): (t: string)
    requires suffix != []
    ensures t <= s && !EndsWith(t, suffix)
  {
    if EndsWith(s, suffix) then TrimSuffix(s[..|s| - |suffix|], suffix) else s
  }

  predicate EndsWith(s: string, suffix: string) {
    |s| >= |suffix| && s[|s| - |suffix|..] == suffix
  }

  /** `split_whitespace`. */
  function Fields(s: string): seq<string>
    decreases |s|
  {
    if s == [] then []
    else if IsSpace(s[0]) then Fields(s[1..])
    else
      var n := UntilSpace(s);
      [s[..n]] + Fields(s[n..])
  }

  /** Length of the longest prefix without whitespace. */
  function UntilSpace(s: string): (n: nat)
    ensures n <= |s| && (s != [] && !IsSpace(s[0]) ==> n > 0)
    ensures (forall i :: 0 <= i < n ==> !IsSpace(s[i])) && (n < |s| ==> IsSpace(s[n]))
  {
    if s == [] || IsSpace(s[0]) then 0 else 1 + UntilSpace(s[1..])
  }

  /** `join` with a separator. */
  function Join(words: seq<string>, sep: string): string {
    if words == [] then [] else if |words| == 1 then words[0] else words[0] + sep + Join(words[1..], sep)
  }

  // ---- What the operations mean ----

  predicate Blank(s: string) {
    forall i :: 0 <= i < |s| ==> IsSpace(s[i])
  }

  /** Text that starts and ends with something else than a blank. */
  predicate Tight(s: string) {
    s != [] && !IsSpace(s[0]) && !IsSpace(s[|s| - 1])
  }

  lemma {:induction false} TrimStartDrops(indent: string, line: string)
    requires Blank(indent) && Tight(line)
    ensures TrimStart(indent + line) == line
  {
    if indent == [] {
      assert indent + line == line;
    } else {
      assert (indent + line)[1..] == indent[1..] + line;
      TrimStartDrops(indent[1..], line);
    }
  }

  lemma TrimDropsIndent(indent: string, line: string)
    requires Blank(indent) && Tight(line)
    ensures Trim(indent + line) == line
  {
    var s := indent + line;
    assert s[|s| - 1] == line[|line| - 1];
    assert TrimEnd(s) == s;
    TrimStartDrops(indent, line);
  }

  /** Trimming takes blanks off both ends and nothing else. */
  lemma TrimMeans(s: string) returns (front: string, back: string)
    ensures Blank(front) && Blank(back) && s == front + Trim(s) + back
    ensures Trim(s) == [] || Tight(Trim(s))
  {
    var t := TrimEnd(s);
    TrimEndTakesBlanks(s);
    TrimStartTakesBlanks(t);
    back := s[|t|..];
    front := t[..|t| - |Trim(s)|];
    if Trim(s) != [] {
      assert Trim(s)[|Trim(s)| - 1] == t[|t| - 1];
    }
  }

  lemma {:induction false} TrimEndTakesBlanks(s: string)
    ensures Blank(s[|TrimEnd(s)|..])
  {
    if s != [] && IsSpace(s[|s| - 1]) {
      TrimEndTakesBlanks(s[..|s| - 1]);
      var n := |TrimEnd(s)|;
      assert s[n..] == s[..|s| - 1][n..] + [s[|s| - 1]];
    }
  }

  lemma {:induction false} TrimStartTakesBlanks(s: string)
    ensures Blank(s[..|s| - |TrimStart(s)|])
  {
    if s != [] && IsSpace(s[0]) {
      TrimStartTakesBlanks(s[1..]);
      var n := |s| - |TrimStart(s)|;
      assert s[..n] == [s[0]] + s[1..][..n - 1];
    }
  }

  predicate Word(w: string) {
    w != [] && NoSpace(w)
  }

  lemma {:induction false} UntilSpaceIs(w: string, rest: string)
    requires NoSpace(w) && (rest != [] ==> IsSpace(rest[0]))
    ensures UntilSpace(w + rest) == |w|
  {
    if w == [] {
      assert w + rest == rest;
    } else {
      assert (w + rest)[1..] == w[1..] + rest;
      UntilSpaceIs(w[1..], rest);
    }
  }

  /** Splitting at white space undoes joining words with a blank. */
  lemma {:induction false} FieldsUndoJoin(words: seq<string>)
    requires forall i :: 0 <= i < |words| ==> Word(words[i])
    ensures Fields(Join(words, " ")) == words
  {
    if words != [] {
      var w, rest := words[0], words[1..];
      if rest == [] {
        assert w + [] == w;
        UntilSpaceIs(w, []);
        assert w[..|w|] == w && w[|w|..] == [];
      } else {
        var tail := Join(rest, " ");
        var line := w + (" " + tail);
        assert Join(words, " ") == line;
        UntilSpaceIs(w, " " + tail);
        assert line[..|w|] == w && line[|w|..] == " " + tail && (" " + tail)[1..] == tail;
        FieldsUndoJoin(rest);
        assert words == [w] + rest;
      }
    }
  }

  /** Splitting at a character undoes joining with it. */
  lemma {:induction false} SplitUndoesJoin(pieces: seq<string>, c: char)
    requires pieces != [] && forall i :: 0 <= i < |pieces| ==> c !in pieces[i]
    ensures SplitOn(Join(pieces, [c]), c) == pieces
  {
    hide Until;
    var p := pieces[0];
    if |pieces| == 1 {
      UntilIs(p, {c}, |p|);
    } else {
      var tail := Join(pieces[1..], [c]);
      var line := Join(pieces, [c]);
      assert line == p + [c] + tail && c !in p;
      UntilIs(line, {c}, |p|);
      assert line[..|p|] == p && line[|p| + 1..] == tail;
      SplitUndoesJoin(pieces[1..], c);
    }
  }

  /** Reading a number undoes writing it, with or without a plus sign. */
  lemma UsizeRoundTrip(n: nat)
    requires n < USIZE
    ensures ParseUsize(ShowDec(n)) == Some(n) && ParseUsize("+" + ShowDec(n)) == Some(n)
  {
    hide ShowDec, DecValue;
    var s := ShowDec(n);
    assert ("+" + s)[1..] == s && IsDigit(s[0]);
  }

  lemma TakesOneSuffix(s: string, suffix: string)
    requires suffix != []
    ensures TrimSuffix(s + suffix, suffix) == TrimSuffix(s, suffix)
  {
    var all := s + suffix;
    assert all[..|s|] == s && all[|s|..] == suffix;
  }

  /** A suffix is taken off as often as it is there. */
  lemma {:induction false} TrimSuffixMeans(s: string, suffix: string, times: nat)
    requires suffix != [] && !EndsWith(s, suffix)
    ensures TrimSuffix(s + Repeated(suffix, times), suffix) == s
  {
    hide EndsWith;
    if times == 0 {
      assert s + [] == s;
    } else {
      var less := s + Repeated(suffix, times - 1);
      assert s + Repeated(suffix, times) == less + suffix;
      hide TrimSuffix;
      TakesOneSuffix(less, suffix);
      TrimSuffixMeans(s, suffix, times - 1);
    }
  }

  function Repeated(s: string, times: nat): string {
    if times == 0 then [] else Repeated(s, times - 1) + s
  }
}
