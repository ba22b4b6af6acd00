/**
 * The input-hygiene helpers at the top of javascript/script.js:
 * `sanitizeInput`, `validateEmail` and `validateTextInput`.
 */
module Security {
  import opened JsText

  /** A JavaScript value handed to a helper that tests `typeof x === 'string'`. */
  datatype Input = Str(value: string) | NotString

  /** `s.replace(/c/g, rep)` for a one-character pattern. */
  function ReplaceAll(s: string, c: char, rep: string): string
    decreases |s|
  {
    if s == [] then []
    else (if s[0] == c then rep else [s[0]]) + ReplaceAll(s[1..], c, rep)
  }

  /**
   * The chain of six global replacements, in the order the source applies
   * them. A string with none of the six special characters passes through.
   */
  function EscapeHtml(s: string): (r: string)
    ensures (forall i :: 0 <= i < |s| ==> !IsEscaped(s[i])) ==> r == s
  {
    var s1 := ReplaceAll(s, '&', "&amp;");
    var s2 := ReplaceAll(s1, '<', "&lt;");
    var s3 := ReplaceAll(s2, '>', "&gt;");
    var s4 := ReplaceAll(s3, '"', "&quot;");
    var s5 := ReplaceAll(s4, '\'', "&#x27;");
    var s6 := ReplaceAll(s5, '/', "&#x2F;");
    assert (forall i :: 0 <= i < |s| ==> !IsEscaped(s[i])) ==> s6 == s by {
      if forall i :: 0 <= i < |s| ==> !IsEscaped(s[i]) {
        assert forall c :: c in s ==> !IsEscaped(c);
        ReplaceAllAbsent(s, '&', "&amp;");
        ReplaceAllAbsent(s, '<', "&lt;");
        ReplaceAllAbsent(s, '>', "&gt;");
        ReplaceAllAbsent(s, '"', "&quot;");
        ReplaceAllAbsent(s, '\'', "&#x27;");
        ReplaceAllAbsent(s, '/', "&#x2F;");
      }
    }
    s6
  }

  /** `sanitizeInput`: escapes a string; any other value becomes the empty string. */
  function SanitizeInput(input: Input): (r: string)
    ensures input.NotString? ==> r == ""
    ensures input.Str? ==> NoMarkup(r)
  {
    match input
    case NotString => ""
    case Str(s) => EscapeAllNoMarkup(s); EscapeHtml(s)
  }

  /** The five characters that can open or close markup or an attribute value. */
  predicate IsMarkupChar(c: char) {
    c == '<' || c == '>' || c == '"' || c == '\'' || c == '/'
  }

  /** The six characters `sanitizeInput` rewrites. */
  predicate IsEscaped(c: char) {
    c == '&' || IsMarkupChar(c)
  }

  predicate NoMarkup(s: string) {
    forall i :: 0 <= i < |s| ==> !IsMarkupChar(s[i])
  }

  /** The entity each character is replaced by (itself, for ordinary characters). */
  function Entity(c: char): string {
    if c == '&' then "&amp;"
    else if c == '<' then "&lt;"
    else if c == '>' then "&gt;"
    else if c == '"' then "&quot;"
    else if c == '\'' then "&#x27;"
    else if c == '/' then "&#x2F;"
    else [c]
  }

  /** Reference definition: replace every character by its entity, left to right. */
  function EscapeEach(s: string): string
    decreases |s|
  {
    if s == [] then [] else Entity(s[0]) + EscapeEach(s[1..])
  }

  lemma {:induction false} ReplaceAllAppend(a: string, b: string, c: char, rep: string)
    ensures ReplaceAll(a + b, c, rep) == ReplaceAll(a, c, rep) + ReplaceAll(b, c, rep)
    decreases |a|
  {
    if a != [] {
      assert (a + b)[1..] == a[1..] + b;
      ReplaceAllAppend(a[1..], b, c, rep);
    } else {
      assert a + b == b;
    }
  }

  lemma {:induction false} ReplaceAllAbsent(s: string, c: char, rep: string)
    requires c !in s
    ensures ReplaceAll(s, c, rep) == s
    decreases |s|
  {
    if s != [] {
      ReplaceAllAbsent(s[1..], c, rep);
    }
  }

  /** The replacement chain distributes over concatenation. */
  lemma EscapeHtmlAppend(a: string, b: string)
    ensures EscapeHtml(a + b) == EscapeHtml(a) + EscapeHtml(b)
  {
    var a1, b1 := ReplaceAll(a, '&', "&amp;"), ReplaceAll(b, '&', "&amp;");
    ReplaceAllAppend(a, b, '&', "&amp;");
    var a2, b2 := ReplaceAll(a1, '<', "&lt;"), ReplaceAll(b1, '<', "&lt;");
    ReplaceAllAppend(a1, b1, '<', "&lt;");
    var a3, b3 := ReplaceAll(a2, '>', "&gt;"), ReplaceAll(b2, '>', "&gt;");
    ReplaceAllAppend(a2, b2, '>', "&gt;");
    var a4, b4 := ReplaceAll(a3, '"', "&quot;"), ReplaceAll(b3, '"', "&quot;");
    ReplaceAllAppend(a3, b3, '"', "&quot;");
    var a5, b5 := ReplaceAll(a4, '\'', "&#x27;"), ReplaceAll(b4, '\'', "&#x27;");
    ReplaceAllAppend(a4, b4, '\'', "&#x27;");
    ReplaceAllAppend(a5, b5, '/', "&#x2F;");
  }

  lemma ReplaceAllSingle(c: char, d: char, rep: string)
    ensures ReplaceAll([c], d, rep) == if c == d then rep else [c]
  {
    assert [c][1..] == [];
  }

  lemma EscapeHtmlAmp()
    ensures EscapeHtml(['&']) == "&amp;"
  {
    var s0: string := ['&'];
    var s1 := ReplaceAll(s0, '&', "&amp;");
    assert s1 == "&amp;" by { ReplaceAllSingle('&', '&', "&amp;"); }
    var s2 := ReplaceAll(s1, '<', "&lt;");
    assert s2 == s1 by { ReplaceAllAbsent(s1, '<', "&lt;"); }
    var s3 := ReplaceAll(s2, '>', "&gt;");
    assert s3 == s2 by { ReplaceAllAbsent(s2, '>', "&gt;"); }
    var s4 := ReplaceAll(s3, '"', "&quot;");
    assert s4 == s3 by { ReplaceAllAbsent(s3, '"', "&quot;"); }
    var s5 := ReplaceAll(s4, '\'', "&#x27;");
    assert s5 == s4 by { ReplaceAllAbsent(s4, '\'', "&#x27;"); }
    var s6 := ReplaceAll(s5, '/', "&#x2F;");
    assert s6 == s5 by { ReplaceAllAbsent(s5, '/', "&#x2F;"); }
  }

  lemma EscapeHtmlLt()
    ensures EscapeHtml(['<']) == "&lt;"
  {
    var s0: string := ['<'];
    var s1 := ReplaceAll(s0, '&', "&amp;");
    assert s1 == ['<'] by { ReplaceAllSingle('<', '&', "&amp;"); }
    var s2 := ReplaceAll(s1, '<', "&lt;");
    assert s2 == "&lt;" by { ReplaceAllSingle('<', '<', "&lt;"); }
    var s3 := ReplaceAll(s2, '>', "&gt;");
    assert s3 == s2 by { ReplaceAllAbsent(s2, '>', "&gt;"); }
    var s4 := ReplaceAll(s3, '"', "&quot;");
    assert s4 == s3 by { ReplaceAllAbsent(s3, '"', "&quot;"); }
    var s5 := ReplaceAll(s4, '\'', "&#x27;");
    assert s5 == s4 by { ReplaceAllAbsent(s4, '\'', "&#x27;"); }
    var s6 := ReplaceAll(s5, '/', "&#x2F;");
    assert s6 == s5 by { ReplaceAllAbsent(s5, '/', "&#x2F;"); }
  }

  lemma EscapeHtmlGt()
    ensures EscapeHtml(['>']) == "&gt;"
  {
    var s0: string := ['>'];
    var s1 := ReplaceAll(s0, '&', "&amp;");
    assert s1 == ['>'] by { ReplaceAllSingle('>', '&', "&amp;"); }
    var s2 := ReplaceAll(s1, '<', "&lt;");
    assert s2 == ['>'] by { ReplaceAllSingle('>', '<', "&lt;"); }
    var s3 := ReplaceAll(s2, '>', "&gt;");
    assert s3 == "&gt;" by { ReplaceAllSingle('>', '>', "&gt;"); }
    var s4 := ReplaceAll(s3, '"', "&quot;");
    assert s4 == s3 by { ReplaceAllAbsent(s3, '"', "&quot;"); }
    var s5 := ReplaceAll(s4, '\'', "&#x27;");
    assert s5 == s4 by { ReplaceAllAbsent(s4, '\'', "&#x27;"); }
    var s6 := ReplaceAll(s5, '/', "&#x2F;");
    assert s6 == s5 by { ReplaceAllAbsent(s5, '/', "&#x2F;"); }
  }

  lemma EscapeHtmlQuot()
    ensures EscapeHtml(['"']) == "&quot;"
  {
    var s0: string := ['"'];
    var s1 := ReplaceAll(s0, '&', "&amp;");
    assert s1 == ['"'] by { ReplaceAllSingle('"', '&', "&amp;"); }
    var s2 := ReplaceAll(s1, '<', "&lt;");
    assert s2 == ['"'] by { ReplaceAllSingle('"', '<', "&lt;"); }
    var s3 := ReplaceAll(s2, '>', "&gt;");
    assert s3 == ['"'] by { ReplaceAllSingle('"', '>', "&gt;"); }
    var s4 := ReplaceAll(s3, '"', "&quot;");
    assert s4 == "&quot;" by { ReplaceAllSingle('"', '"', "&quot;"); }
    var s5 := ReplaceAll(s4, '\'', "&#x27;");
    assert s5 == s4 by { ReplaceAllAbsent(s4, '\'', "&#x27;"); }
    var s6 := ReplaceAll(s5, '/', "&#x2F;");
    assert s6 == s5 by { ReplaceAllAbsent(s5, '/', "&#x2F;"); }
  }

  lemma EscapeHtmlApos()
    ensures EscapeHtml(['\'']) == "&#x27;"
  {
    var s0: string := ['\''];
    var s1 := ReplaceAll(s0, '&', "&amp;");
    assert s1 == ['\''] by { ReplaceAllSingle('\'', '&', "&amp;"); }
    var s2 := ReplaceAll(s1, '<', "&lt;");
    assert s2 == ['\''] by { ReplaceAllSingle('\'', '<', "&lt;"); }
    var s3 := ReplaceAll(s2, '>', "&gt;");
    assert s3 == ['\''] by { ReplaceAllSingle('\'', '>', "&gt;"); }
    var s4 := ReplaceAll(s3, '"', "&quot;");
    assert s4 == ['\''] by { ReplaceAllSingle('\'', '"', "&quot;"); }
    var s5 := ReplaceAll(s4, '\'', "&#x27;");
    assert s5 == "&#x27;" by { ReplaceAllSingle('\'', '\'', "&#x27;"); }
    var s6 := ReplaceAll(s5, '/', "&#x2F;");
    assert s6 == s5 by { ReplaceAllAbsent(s5, '/', "&#x2F;"); }
  }

  lemma EscapeHtmlSlash()
    ensures EscapeHtml(['/']) == "&#x2F;"
  {
    var s0: string := ['/'];
    var s1 := ReplaceAll(s0, '&', "&amp;");
    assert s1 == ['/'] by { ReplaceAllSingle('/', '&', "&amp;"); }
    var s2 := ReplaceAll(s1, '<', "&lt;");
    assert s2 == ['/'] by { ReplaceAllSingle('/', '<', "&lt;"); }
    var s3 := ReplaceAll(s2, '>', "&gt;");
    assert s3 == ['/'] by { ReplaceAllSingle('/', '>', "&gt;"); }
    var s4 := ReplaceAll(s3, '"', "&quot;");
    assert s4 == ['/'] by { ReplaceAllSingle('/', '"', "&quot;"); }
    var s5 := ReplaceAll(s4, '\'', "&#x27;");
    assert s5 == ['/'] by { ReplaceAllSingle('/', '\'', "&#x27;"); }
    var s6 := ReplaceAll(s5, '/', "&#x2F;");
    assert s6 == "&#x2F;" by { ReplaceAllSingle('/', '/', "&#x2F;"); }
  }

  /** On one character the chain produces exactly that character's entity. */
  lemma EscapeHtmlChar(c: char)
    ensures EscapeHtml([c]) == Entity(c)
  {
    // Each entity is built from '&', '#', 'x', letters, digits and ';' only,
    // so no later replacement of the chain touches it.
    if c == '&' { EscapeHtmlAmp(); }
    else if c == '<' { EscapeHtmlLt(); }
    else if c == '>' { EscapeHtmlGt(); }
    else if c == '"' { EscapeHtmlQuot(); }
    else if c == '\'' { EscapeHtmlApos(); }
    else if c == '/' { EscapeHtmlSlash(); }
    else { assert !IsEscaped([c][0]); }
  }

  /**
   * The six sequential global replacements act as one left-to-right,
   * character-by-character escape: no replacement rewrites the output of an
   * earlier one ('&' is replaced first).
   */
  lemma {:induction false} EscapeHtmlIsPerChar(s: string)
    ensures EscapeHtml(s) == EscapeEach(s)
    decreases |s|
  {
    if s == [] {
      assert EscapeHtml(s) == [];
    } else {
      assert s == [s[0]] + s[1..];
      EscapeHtmlAppend([s[0]], s[1..]);
      EscapeHtmlChar(s[0]);
      EscapeHtmlIsPerChar(s[1..]);
    }
  }

  lemma {:induction false} EscapeEachNoMarkup(s: string)
    ensures NoMarkup(EscapeEach(s))
    decreases |s|
  {
    if s != [] {
      EscapeEachNoMarkup(s[1..]);
      var e := Entity(s[0]);
      assert NoMarkup(e);
      assert EscapeEach(s) == e + EscapeEach(s[1..]);
    }
  }

  /** No output of the escape chain contains `<`, `>`, `"`, `'` or `/`. */
  lemma EscapeAllNoMarkup(s: string)
    ensures NoMarkup(EscapeHtml(s))
  {
    EscapeHtmlIsPerChar(s);
    EscapeEachNoMarkup(s);
  }

  /**
   * Characters outside the six escaped ones are kept, in order: the escape
   * distributes over concatenation and fixes every ordinary character.
   */
  lemma SanitizeKeepsOrdinary(a: string, b: string, c: char)
    requires !IsEscaped(c)
    ensures SanitizeInput(Str(a + [c] + b)) == SanitizeInput(Str(a)) + [c] + SanitizeInput(Str(b))
  {
    EscapeHtmlAppend(a + [c], b);
    EscapeHtmlAppend(a, [c]);
    EscapeHtmlChar(c);
  }

  /**
   * The regular expression `^[^\s@]+@[^\s@]+\.[^\s@]+$`: one '@' with
   * something before it, and a '.' after it with something on either side;
   * no other '@' and no whitespace anywhere.
   */
  predicate MatchesEmailPattern(s: string) {
    exists at, dot ::
      0 < at && at + 1 < dot && dot + 1 < |s| && s[at] == '@' && s[dot] == '.'
      && forall k :: 0 <= k < |s| && k != at ==> !IsWhitespace(s[k]) && s[k] != '@'
  }

  /** Index of the first '@' in `s`, or `|s|`. */
  function FirstAt(s: string): (i: nat)
    ensures i <= |s|
    ensures forall k :: 0 <= k < i ==> s[k] != '@'
    ensures i < |s| ==> s[i] == '@'
  {
    if |s| == 0 || s[0] == '@' then 0 else 1 + FirstAt(s[1..])
  }

  /**
   * The shape of an address: exactly one '@', no whitespace, a non-empty part
   * before the '@', and a '.' in the domain that is neither its first nor its
   * last character.
   */
  predicate EmailShape(s: string) {
    var at := FirstAt(s);
    && 0 < at < |s|
    && NoWhitespace(s)
    && (forall k :: at < k < |s| ==> s[k] != '@')
    && (exists dot :: at + 1 < dot < |s| - 1 && s[dot] == '.')
  }

  /** The shape check accepts exactly the strings the regular expression matches. */
  lemma EmailShapeIsPattern(s: string)
    ensures EmailShape(s) <==> MatchesEmailPattern(s)
  {
    if EmailShape(s) {
      var at := FirstAt(s);
      var dot :| at + 1 < dot < |s| - 1 && s[dot] == '.';
      assert forall k :: 0 <= k < |s| && k != at ==> !IsWhitespace(s[k]) && s[k] != '@';
      assert MatchesEmailPattern(s);
    }
    if MatchesEmailPattern(s) {
      var at, dot :| 0 < at && at + 1 < dot && dot + 1 < |s| && s[at] == '@' && s[dot] == '.'
        && forall k :: 0 <= k < |s| && k != at ==> !IsWhitespace(s[k]) && s[k] != '@';
      assert FirstAt(s) == at;
      assert EmailShape(s);
    }
  }

  /** `validateEmail`: the pattern and at most 254 characters. */
  function ValidateEmail(email: string): (ok: bool)
    ensures ok <==> MatchesEmailPattern(email) && |email| <= 254
  {
    EmailShapeIsPattern(email);
    EmailShape(email) && |email| <= 254
  }

  /** `validateTextInput`: a string with some non-whitespace character and at most `maxLength` characters. */
  function ValidateTextInput(text: Input, maxLength: int): (ok: bool)
    ensures ok <==> text.Str? && |text.value| <= maxLength
                    && exists i :: 0 <= i < |text.value| && !IsWhitespace(text.value[i])
  {
    text.Str? && |Trim(text.value)| > 0 && |text.value| <= maxLength
  }
}
