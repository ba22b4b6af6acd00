/**
 * The JavaScript string primitives the site's code relies on: the `\s`
 * character class (which is also what `String.prototype.trim` removes),
 * `trim`, ASCII `toLowerCase`, `startsWith`/`endsWith`/`includes`, and
 * `split(/\s+/)`.
 */
module JsText {

  /** ECMAScript WhiteSpace and LineTerminator code points: the `\s` class. */
  predicate IsWhitespace(c: char) {
    || c == '\t' || c == '\n' || c == '\U{000B}' || c == '\U{000C}' || c == '\r' || c == ' '
    || c == '\U{00A0}' || c == '\U{1680}' || ('\U{2000}' <= c <= '\U{200A}')
    || c == '\U{2028}' || c == '\U{2029}' || c == '\U{202F}' || c == '\U{205F}'
    || c == '\U{3000}' || c == '\U{FEFF}'
  }

  /** The `\w` class of a regular expression without the `u` flag. */
  predicate IsWordChar(c: char) {
    ('a' <= c <= 'z') || ('A' <= c <= 'Z') || ('0' <= c <= '9') || c == '_'
  }

  predicate NoWhitespace(s: string) {
    forall i :: 0 <= i < |s| ==> !IsWhitespace(s[i])
  }

  /** Number of whitespace characters at the front of `s`. */
  function LeadingWs(s: string): (n: nat)
    ensures n <= |s|
    ensures forall i :: 0 <= i < n ==> IsWhitespace(s[i])
    ensures n < |s| ==> !IsWhitespace(s[n])
  {
    if |s| > 0 && IsWhitespace(s[0]) then 1 + LeadingWs(s[1..]) else 0
  }

  /** The leading run of `a + b` stops inside `a` unless `a` is all whitespace. */
  lemma {:induction false} LeadingWsAppend(a: string, b: string)
    ensures LeadingWs(a + b) == if LeadingWs(a) < |a| then LeadingWs(a) else |a| + LeadingWs(b)
    decreases |a|
  {
    if a == [] {
      assert a + b == b;
    } else if IsWhitespace(a[0]) {
      assert (a + b)[0] == a[0] && (a + b)[1..] == a[1..] + b;
      LeadingWsAppend(a[1..], b);
    } else {
      assert (a + b)[0] == a[0];
    }
  }

  /** Number of whitespace characters at the end of `s`. */
  function TrailingWs(s: string): (n: nat)
    ensures n <= |s|
    ensures forall i :: |s| - n <= i < |s| ==> IsWhitespace(s[i])
    ensures n < |s| ==> !IsWhitespace(s[|s| - 1 - n])
  {
    if |s| > 0 && IsWhitespace(s[|s| - 1]) then 1 + TrailingWs(s[..|s| - 1]) else 0
  }

  /** `s.trim()`: `s` without its leading and trailing whitespace. */
  function Trim(s: string): (r: string)
    ensures |r| > 0 <==> exists i :: 0 <= i < |s| && !IsWhitespace(s[i])
    ensures |r| > 0 ==> !IsWhitespace(r[0]) && !IsWhitespace(r[|r| - 1])
    ensures |r| <= |s|
  {
    var a := LeadingWs(s);
    if a == |s| then []
    else
      var b := |s| - TrailingWs(s);
      assert !IsWhitespace(s[a]);
      assert a < b;
      s[a..b]
  }

  /** A non-empty trim is `s` with exactly its leading and trailing whitespace runs cut off. */
  lemma {:induction false} TrimCutsRuns(s: string)
    ensures Trim(s) == [] ||
      (LeadingWs(s) + |Trim(s)| + TrailingWs(s) == |s| && Trim(s) == s[LeadingWs(s)..|s| - TrailingWs(s)])
  {
    var a := LeadingWs(s);
    if a < |s| {
      var b := |s| - TrailingWs(s);
      assert !IsWhitespace(s[a]);
      assert a < b;
      assert Trim(s) == s[a..b];
    }
  }

  /** ASCII case mapping; every other character is left as it is. */
  function LowerChar(c: char): char {
    if 'A' <= c <= 'Z' then (c as int + 32) as char else c
  }

  /** `s.toLowerCase()` restricted to ASCII letters. */
  function Lower(s: string): (r: string)
    ensures |r| == |s|
    ensures forall i :: 0 <= i < |s| ==> r[i] == LowerChar(s[i])
  {
    seq(|s|, i requires 0 <= i < |s| => LowerChar(s[i]))
  }

  predicate StartsWith(s: string, prefix: string) {
    |prefix| <= |s| && s[..|prefix|] == prefix
  }

  predicate EndsWith(s: string, suffix: string) {
    |suffix| <= |s| && s[|s| - |suffix|..] == suffix
  }

  /** `s.includes(t)`. */
  predicate Contains(s: string, t: string)
    decreases |s|
  {
    StartsWith(s, t) || (|s| > 0 && Contains(s[1..], t))
  }

  /** Index of the first whitespace character of `s`, or `|s|` if there is none. */
  function FirstWs(s: string): (i: nat)
    ensures i <= |s|
    ensures forall k :: 0 <= k < i ==> !IsWhitespace(s[k])
    ensures i < |s| ==> IsWhitespace(s[i])
  {
    if |s| == 0 || IsWhitespace(s[0]) then 0 else 1 + FirstWs(s[1..])
  }

  /**
   * `s.split(/\s+/)`: the pieces between maximal runs of whitespace. A
   * leading (trailing) run yields an empty first (last) piece, and the empty
   * string yields `[""]`, as in JavaScript.
   */
  function SplitWs(s: string): (parts: seq<string>)
    ensures |parts| >= 1
    ensures forall p :: p in parts ==> NoWhitespace(p)
    ensures NoWhitespace(s) ==> parts == [s]
    ensures parts[0] == s[..FirstWs(s)]
    decreases |s|
  {
    var i := FirstWs(s);
    if i == |s| then [s]
    else
      var rest := s[i..];
      var n := LeadingWs(rest);
      [s[..i]] + SplitWs(rest[n..])
  }

  /**
   * One step of the split: a whitespace-free piece `a`, then a maximal
   * whitespace run `w`, then the rest. The piece comes first, and the split
   * goes on after the whole run. With `a` empty this is the empty first
   * piece of a string that starts with whitespace; with `b` empty, the empty
   * last piece of one that ends with it.
   */
  lemma SplitWsStep(a: string, w: string, b: string)
    requires NoWhitespace(a)
    requires |w| > 0 && forall i :: 0 <= i < |w| ==> IsWhitespace(w[i])
    requires b == [] || !IsWhitespace(b[0])
    ensures SplitWs(a + w + b) == [a] + SplitWs(b)
  {
    var s := a + w + b;
    assert s == a + (w + b);
    FirstWsAfterPiece(a, w + b);
    var rest := s[|a|..];
    assert rest == w + b;
    LeadingRun(w, b);
    assert rest[|w|..] == b;
    assert s[..|a|] == a;
  }

  /** The first whitespace of `a + r` is where `r` begins when `a` has none and `r` starts with some. */
  lemma FirstWsAfterPiece(a: string, r: string)
    requires NoWhitespace(a)
    requires |r| > 0 && IsWhitespace(r[0])
    ensures FirstWs(a + r) == |a|
  {
    var s := a + r;
    assert s[|a|] == r[0];
    assert forall k :: 0 <= k < |a| ==> s[k] == a[k];
  }

  /** The leading run of `w + b` is all of `w` when `w` is whitespace and `b` does not start with any. */
  lemma LeadingRun(w: string, b: string)
    requires forall i :: 0 <= i < |w| ==> IsWhitespace(w[i])
    requires b == [] || !IsWhitespace(b[0])
    ensures LeadingWs(w + b) == |w|
  {
    var s := w + b;
    assert forall k :: 0 <= k < |w| ==> s[k] == w[k];
    assert |b| > 0 ==> s[|w|] == b[0];
  }

  /** Every character is a `\w` character or whitespace. */
  predicate WordOrSpace(s: string) {
    forall i :: 0 <= i < |s| ==> IsWordChar(s[i]) || IsWhitespace(s[i])
  }

  predicate AllWordChars(s: string) {
    forall i :: 0 <= i < |s| ==> IsWordChar(s[i])
  }

  /** Splitting text made of word characters and whitespace yields pieces of word characters only. */
  lemma {:induction false} SplitWordPieces(s: string)
    requires WordOrSpace(s)
    ensures forall p :: p in SplitWs(s) ==> AllWordChars(p)
    decreases |s|
  {
    var i := FirstWs(s);
    if i < |s| {
      var rest := s[i..];
      var n := LeadingWs(rest);
      var t := rest[n..];
      assert forall k :: 0 <= k < |t| ==> t[k] == s[i + n + k];
      SplitWordPieces(t);
      assert SplitWs(s) == [s[..i]] + SplitWs(t);
    }
  }
}
