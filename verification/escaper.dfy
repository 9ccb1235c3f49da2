/**
 * The plain-text path: a message with no rich prompt is escaped into markup
 * whose only tags are the line breaks standing for its newlines.
 */
module TextEscaper {
  import opened JsStrings

  /** `escapeHtml`: five global replacements, the ampersand first so that
      the entities introduced by the later ones are not escaped again. */
  function EscapeHtml(message: string): (r: string)
    ensures '<' !in r && '>' !in r && '"' !in r && '\'' !in r
  {
    var amp := ReplaceAll(message, '&', "&amp;");
    var lt := ReplaceAll(amp, '<', "&lt;");
    assert '<' !in lt;
    var gt := ReplaceAll(lt, '>', "&gt;");
    assert '<' !in gt && '>' !in gt;
    var quot := ReplaceAll(gt, '"', "&quot;");
    assert '<' !in quot && '>' !in quot && '"' !in quot;
    ReplaceAll(quot, '\'', "&#39;")
  }

  /** `convertPlainTextToHtml`: the escaped message with every line feed
      turned into a `<br>` tag. */
  function ConvertPlainTextToHtml(message: string): (r: string)
    ensures '\n' !in r && '"' !in r && '\'' !in r
  {
    ReplaceAll(EscapeHtml(message), '\n', "<br>")
  }

  /** The entity one character escapes to, or the character itself. */
  function EscapeChar(c: char): string {
    if c == '&' then "&amp;"
    else if c == '<' then "&lt;"
    else if c == '>' then "&gt;"
    else if c == '"' then "&quot;"
    else if c == '\'' then "&#39;"
    else [c]
  }

  /** Reference escaper: each character escaped on its own, left to right. */
  function EscapeEach(message: string): string {
    if message == [] then [] else EscapeChar(message[0]) + EscapeEach(message[1..])
  }

  /** Decoder for the five entities, read left to right; any other
      character stands for itself. */
  function Unescape(s: string): string
    decreases |s|
  {
    if s == [] then []
    else if HasPrefix(s, "&amp;") then "&" + Unescape(s[5..])
    else if HasPrefix(s, "&lt;") then "<" + Unescape(s[4..])
    else if HasPrefix(s, "&gt;") then ">" + Unescape(s[4..])
    else if HasPrefix(s, "&quot;") then "\"" + Unescape(s[6..])
    else if HasPrefix(s, "&#39;") then "'" + Unescape(s[5..])
    else [s[0]] + Unescape(s[1..])
  }

  /** Decoder for the line-break tags: each `<br>` stands for a line feed. */
  function BreaksToNewlines(s: string): string
    decreases |s|
  {
    if s == [] then []
    else if HasPrefix(s, "<br>") then "\n" + BreaksToNewlines(s[4..])
    else [s[0]] + BreaksToNewlines(s[1..])
  }

  /** Every `<` in `s` opens a `<br>` tag and every `>` closes one. */
  ghost predicate OnlyLineBreakTags(s: string) {
    && (forall i :: 0 <= i < |s| && s[i] == '<' ==> HasPrefix(s[i..], "<br>"))
    && (forall i :: 0 <= i < |s| && s[i] == '>' ==> 3 <= i && s[i - 3..i + 1] == "<br>")
  }

  lemma ReplaceAllSingle(c: char, x: char, rep: string)
    ensures ReplaceAll([c], x, rep) == if c == x then rep else [c]
  {
    assert [c][1..] == [];
  }

  /** Escaping is done character by character. */
  lemma EscapeHtmlAppend(a: string, b: string)
    ensures EscapeHtml(a + b) == EscapeHtml(a) + EscapeHtml(b)
  {
    var amp := ReplaceAll(a + b, '&', "&amp;");
    ReplaceAllAppend(a, b, '&', "&amp;");
    var a1, b1 := ReplaceAll(a, '&', "&amp;"), ReplaceAll(b, '&', "&amp;");
    ReplaceAllAppend(a1, b1, '<', "&lt;");
    var a2, b2 := ReplaceAll(a1, '<', "&lt;"), ReplaceAll(b1, '<', "&lt;");
    ReplaceAllAppend(a2, b2, '>', "&gt;");
    var a3, b3 := ReplaceAll(a2, '>', "&gt;"), ReplaceAll(b2, '>', "&gt;");
    ReplaceAllAppend(a3, b3, '"', "&quot;");
    var a4, b4 := ReplaceAll(a3, '"', "&quot;"), ReplaceAll(b3, '"', "&quot;");
    ReplaceAllAppend(a4, b4, '\'', "&#39;");
  }

  /** The replacements after the ampersand's leave its entity alone, and
      likewise for each later entity. */
  lemma LaterStagesKeepEntities()
    ensures ReplaceAll(ReplaceAll(ReplaceAll(ReplaceAll("&amp;", '<', "&lt;"), '>', "&gt;"), '"', "&quot;"), '\'', "&#39;") == "&amp;"
    ensures ReplaceAll(ReplaceAll(ReplaceAll("&lt;", '>', "&gt;"), '"', "&quot;"), '\'', "&#39;") == "&lt;"
    ensures ReplaceAll(ReplaceAll("&gt;", '"', "&quot;"), '\'', "&#39;") == "&gt;"
    ensures ReplaceAll("&quot;", '\'', "&#39;") == "&quot;"
  {
    assert '<' !in "&amp;" && '>' !in "&amp;" && '"' !in "&amp;" && '\'' !in "&amp;";
    assert '>' !in "&lt;" && '"' !in "&lt;" && '\'' !in "&lt;";
    assert '"' !in "&gt;" && '\'' !in "&gt;";
    assert '\'' !in "&quot;";
  }

  /** One character escapes to its entity: later replacements never touch
      what earlier ones inserted. */
  lemma EscapeHtmlChar(c: char)
    ensures EscapeHtml([c]) == EscapeChar(c)
  {
    LaterStagesKeepEntities();
    ReplaceAllSingle(c, '&', "&amp;");
    if c != '&' {
      ReplaceAllSingle(c, '<', "&lt;");
      if c != '<' {
        ReplaceAllSingle(c, '>', "&gt;");
        if c != '>' {
          ReplaceAllSingle(c, '"', "&quot;");
          if c != '"' {
            ReplaceAllSingle(c, '\'', "&#39;");
          }
        }
      }
    }
  }

  /** The chain of five replacements equals the per-character reference
      escaper. */
  lemma {:induction false} EscapeHtmlIsPerCharacter(message: string)
    ensures EscapeHtml(message) == EscapeEach(message)
    decreases |message|
  {
    if message != [] {
      assert message == [message[0]] + message[1..];
      EscapeHtmlAppend([message[0]], message[1..]);
      EscapeHtmlChar(message[0]);
      EscapeHtmlIsPerCharacter(message[1..]);
    }
  }

  /** `s` differs from `p` at position `k`, so it does not begin with `p`. */
  lemma NotPrefixAt(s: string, p: string, k: nat)
    requires k < |s| && k < |p| && s[k] != p[k]
    ensures !HasPrefix(s, p)
  {
    if |p| <= |s| {
      assert s[..|p|][k] == s[k];
    }
  }

  /** Decoding an escaped character gives the character back and resumes
      right after its entity. */
  lemma UnescapeEscapedChar(c: char, rest: string)
    ensures Unescape(EscapeChar(c) + rest) == [c] + Unescape(rest)
  {
    var s := EscapeChar(c) + rest;
    if c == '&' {
      assert HasPrefix(s, "&amp;");
      assert s[5..] == rest;
    } else if c == '<' {
      NotPrefixAt(s, "&amp;", 1);
      assert HasPrefix(s, "&lt;");
      assert s[4..] == rest;
    } else if c == '>' {
      NotPrefixAt(s, "&amp;", 1);
      NotPrefixAt(s, "&lt;", 1);
      assert HasPrefix(s, "&gt;");
      assert s[4..] == rest;
    } else if c == '"' {
      NotPrefixAt(s, "&amp;", 1);
      NotPrefixAt(s, "&lt;", 1);
      NotPrefixAt(s, "&gt;", 1);
      assert HasPrefix(s, "&quot;");
      assert s[6..] == rest;
    } else if c == '\'' {
      NotPrefixAt(s, "&amp;", 1);
      NotPrefixAt(s, "&lt;", 1);
      NotPrefixAt(s, "&gt;", 1);
      NotPrefixAt(s, "&quot;", 1);
      assert HasPrefix(s, "&#39;");
      assert s[5..] == rest;
    } else {
      NotPrefixAt(s, "&amp;", 0);
      NotPrefixAt(s, "&lt;", 0);
      NotPrefixAt(s, "&gt;", 0);
      NotPrefixAt(s, "&quot;", 0);
      NotPrefixAt(s, "&#39;", 0);
      assert s[1..] == rest;
    }
  }

  lemma {:induction false} UnescapeEscapeEach(message: string)
    ensures Unescape(EscapeEach(message)) == message
    decreases |message|
  {
    if message != [] {
      UnescapeEscapedChar(message[0], EscapeEach(message[1..]));
      UnescapeEscapeEach(message[1..]);
      assert message == [message[0]] + message[1..];
    }
  }

  /** Round trip: decoding the five entities recovers the message. This is
      where escaping the ampersand first matters. */
  lemma EscapeRoundTrip(message: string)
    ensures Unescape(EscapeHtml(message)) == message
  {
    EscapeHtmlIsPerCharacter(message);
    UnescapeEscapeEach(message);
  }

  /** Turning line feeds into `<br>` is undone by reading `<br>` back as a
      line feed, as long as the text had no `<` of its own. */
  lemma {:induction false} BreaksRoundTrip(e: string)
    requires '<' !in e
    ensures BreaksToNewlines(ReplaceAll(e, '\n', "<br>")) == e
    decreases |e|
  {
    if e != [] {
      var rest := ReplaceAll(e[1..], '\n', "<br>");
      BreaksRoundTrip(e[1..]);
      if e[0] == '\n' {
        var s := "<br>" + rest;
        assert HasPrefix(s, "<br>");
        assert s[4..] == rest;
      } else {
        var s := [e[0]] + rest;
        NotPrefixAt(s, "<br>", 0);
        assert s[1..] == rest;
      }
      assert e == [e[0]] + e[1..];
    }
  }

  /** Round trip of the plain-text path: reading the line-break tags back
      as line feeds and decoding the entities recovers the message. */
  lemma PlainTextRoundTrip(message: string)
    ensures Unescape(BreaksToNewlines(ConvertPlainTextToHtml(message))) == message
  {
    BreaksRoundTrip(EscapeHtml(message));
    EscapeRoundTrip(message);
  }

  lemma OnlyLineBreakTagsAppend(a: string, b: string)
    requires OnlyLineBreakTags(a) && OnlyLineBreakTags(b)
    ensures OnlyLineBreakTags(a + b)
  {
    var s := a + b;
    forall i | 0 <= i < |s| && s[i] == '<'
      ensures HasPrefix(s[i..], "<br>")
    {
      if i < |a| {
        assert a[i] == '<';
        assert s[i..i + 4] == a[i..i + 4];
      } else {
        assert b[i - |a|] == '<';
        assert s[i..] == b[i - |a|..];
      }
    }
    forall i | 0 <= i < |s| && s[i] == '>'
      ensures 3 <= i && s[i - 3..i + 1] == "<br>"
    {
      if i < |a| {
        assert a[i] == '>';
        assert s[i - 3..i + 1] == a[i - 3..i + 1];
      } else {
        assert b[i - |a|] == '>';
        assert s[i - 3..i + 1] == b[i - |a| - 3..i - |a| + 1];
      }
    }
  }

  lemma SingleTokensHaveOnlyLineBreakTags(c: char)
    requires c != '<' && c != '>'
    ensures OnlyLineBreakTags("<br>")
    ensures OnlyLineBreakTags([c])
  {
    var br := "<br>";
    assert br[0] == '<' && br[1] == 'b' && br[2] == 'r' && br[3] == '>';
    assert br[0..] == br && br[0..4] == br;
  }

  lemma {:induction false} LineBreaksAreTheOnlyTags(e: string)
    requires '<' !in e && '>' !in e
    ensures OnlyLineBreakTags(ReplaceAll(e, '\n', "<br>"))
    decreases |e|
  {
    if e != [] {
      assert e[0] in e;
      assert forall x :: x in e[1..] ==> x in e;
      LineBreaksAreTheOnlyTags(e[1..]);
      SingleTokensHaveOnlyLineBreakTags(e[0]);
      var head := if e[0] == '\n' then "<br>" else [e[0]];
      OnlyLineBreakTagsAppend(head, ReplaceAll(e[1..], '\n', "<br>"));
    }
  }

  /** The plain-text path emits no markup but line breaks: every `<` in
      its output opens a `<br>` tag and every `>` closes one. */
  lemma PlainTextMarkupIsLineBreaks(message: string)
    ensures OnlyLineBreakTags(ConvertPlainTextToHtml(message))
  {
    LineBreaksAreTheOnlyTags(EscapeHtml(message));
  }
}
