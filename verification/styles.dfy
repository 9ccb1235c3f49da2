/**
 * The inline-style filter: a `style` attribute is cut into `;`-separated
 * declarations, and only those naming an allowed property with a value free
 * of the dangerous patterns survive, re-rendered as `property: value` and
 * joined with `; `.
 *
 * Reading a style text is written for any property allowlist `allowed`, so
 * the facts about splitting, trimming and re-rendering are proved once for
 * every allowlist; `FilterInlineStyles` uses `AllowedStyles`.
 */
module InlineStyles {
  import opened JsStrings
  import opened Optional
  import opened PromptPolicy

  /** One `property: value` declaration. */
  datatype Declaration = Declaration(property: string, value: string)

  /** `isSafeStyleValue`: the lower-cased value contains none of the
      dangerous patterns. */
  function IsSafeStyleValue(value: string): bool {
    var lowered := Lower(value);
    !Contains(lowered, "url(") && !Contains(lowered, "expression(") && !Contains(lowered, "javascript:")
  }

  /** `p` matches the lower-cased `v` at index `i`, character by character. */
  ghost predicate MatchesLowered(v: string, p: string, i: int) {
    0 <= i && i + |p| <= |v| && forall j :: 0 <= j < |p| ==> LowerChar(v[i + j]) == p[j]
  }

  /** A value is safe exactly when none of the dangerous patterns occurs
      in its lower-cased form; spelled out, when no pattern matches the
      lower-cased characters of the value at any index. */
  lemma SafeIffNoDangerousPattern(value: string)
    ensures IsSafeStyleValue(value) <==>
      forall k :: 0 <= k < |DangerousPatterns| ==> !Contains(Lower(value), DangerousPatterns[k])
    ensures IsSafeStyleValue(value) <==>
      forall k, i :: 0 <= k < |DangerousPatterns| ==> !MatchesLowered(value, DangerousPatterns[k], i)
  {
    assert |DangerousPatterns| == 3;
    assert DangerousPatterns[0] == "url(";
    assert DangerousPatterns[1] == "expression(";
    assert DangerousPatterns[2] == "javascript:";
    forall k, i | 0 <= k < |DangerousPatterns|
      ensures OccursAt(Lower(value), DangerousPatterns[k], i) <==> MatchesLowered(value, DangerousPatterns[k], i)
    {
      OccursIffMatchesLowered(value, DangerousPatterns[k], i);
    }
  }

  /** An occurrence in the lower-cased value is a character-wise match. */
  lemma OccursIffMatchesLowered(v: string, p: string, i: int)
    ensures OccursAt(Lower(v), p, i) <==> MatchesLowered(v, p, i)
  {
    if 0 <= i && i + |p| <= |v| {
      var window := Lower(v)[i..i + |p|];
      assert forall j :: 0 <= j < |p| ==> window[j] == LowerChar(v[i + j]);
    }
  }

  /** A declaration the filter may emit: an allowed property, trimmed and
      lower-cased, with a trimmed safe value; neither part holds a `;`. */
  predicate IsAllowedDeclaration(allowed: set<string>, d: Declaration) {
    && d.property in allowed
    && d.property == Lower(d.property) && IsTrimmed(d.property)
    && ':' !in d.property && ';' !in d.property
    && IsSafeStyleValue(d.value) && IsTrimmed(d.value) && ';' !in d.value
  }

  predicate AllAllowed(allowed: set<string>, ds: seq<Declaration>) {
    forall i :: 0 <= i < |ds| ==> IsAllowedDeclaration(allowed, ds[i])
  }

  /** The verdict on a property and value already cut apart: kept only when
      the property is on the allowlist and the value is safe. */
  function Classify(allowed: set<string>, property: string, value: string): Option<Declaration>
  {
    if property !in allowed then None
    else if !IsSafeStyleValue(value) then None
    else Some(Declaration(property, value))
  }

  /** One chunk between semicolons read as a declaration, or `None` when
      the filter drops it: blank, no colon, a property off the allowlist or
      an unsafe value. The value is everything after the first colon. */
  function ParseDeclaration(allowed: set<string>, chunk: string): Option<Declaration>
  {
    var trimmed := Trim(chunk);
    if trimmed == [] then None
    else
      var parts := Split(trimmed, ':');
      if |parts| < 2 then None
      else Classify(allowed, Lower(Trim(parts[0])), Trim(Join(parts[1..], ":")))
  }

  /** Reference reading of a trimmed chunk: cut it at its first colon. */
  function CutAtFirstColon(allowed: set<string>, t: string): Option<Declaration> {
    if ':' !in t then None
    else
      var k := IndexOf(t, ':');
      Classify(allowed, Lower(Trim(t[..k])), Trim(t[k + 1..]))
  }

  /** The declaration a chunk contributes: itself when kept, nothing when
      dropped. */
  function Kept(allowed: set<string>, chunk: string): seq<Declaration> {
    match ParseDeclaration(allowed, chunk)
    case Some(d) => [d]
    case None => []
  }

  /** The declarations the filter keeps from a list of chunks. */
  function SafeDeclarations(allowed: set<string>, chunks: seq<string>): seq<Declaration> {
    if chunks == [] then [] else Kept(allowed, chunks[0]) + SafeDeclarations(allowed, chunks[1..])
  }

  /** The template `${property}: ${value}`. */
  function RenderDeclaration(d: Declaration): string {
    d.property + ": " + d.value
  }

  function RenderEach(ds: seq<Declaration>): (r: seq<string>)
    ensures |r| == |ds|
  {
    if ds == [] then [] else [RenderDeclaration(ds[0])] + RenderEach(ds[1..])
  }

  /** `safePairs.join('; ')`. */
  function Render(ds: seq<Declaration>): string {
    Join(RenderEach(ds), "; ")
  }

  /** The declarations a style text keeps. */
  function DeclarationsOf(allowed: set<string>, styleText: string): seq<Declaration> {
    SafeDeclarations(allowed, Split(styleText, ';'))
  }

  /** `s` is exactly the rendering of a list of allowed declarations. */
  ghost predicate IsRenderingOfAllowed(allowed: set<string>, s: string) {
    exists ds :: AllAllowed(allowed, ds) && s == Render(ds)
  }

  /** `filterInlineStyles`: null or empty gives the empty string; otherwise
      the rendering of the declarations that pass the filter. */
  function FilterInlineStyles(styleText: Option<string>): (r: string)
    ensures styleText == None || styleText == Some([]) ==> r == []
    ensures IsRenderingOfAllowed(AllowedStyles, r)
    ensures styleText.Some? ==> (r == [] <==> DeclarationsOf(AllowedStyles, styleText.value) == [])
  {
    if styleText.None? || styleText.value == [] then
      assert AllAllowed(AllowedStyles, []) && [] == Render([]);
      []
    else
      var ds := DeclarationsOf(AllowedStyles, styleText.value);
      SafeDeclarationsAllowed(AllowedStyles, Split(styleText.value, ';'));
      RenderEmpty(ds);
      Render(ds)
  }

  /** The rendering is empty exactly when there is nothing to render. */
  lemma RenderEmpty(ds: seq<Declaration>)
    ensures Render(ds) == [] <==> ds == []
  {
    if ds != [] {
      var r := RenderEach(ds);
      assert r[0] == RenderDeclaration(ds[0]);
      assert |RenderDeclaration(ds[0])| >= 2;
      if |r| > 1 {
        assert Render(ds) == r[0] + "; " + Join(r[1..], "; ");
      }
    }
  }

  /** Cutting at the first colon is what `split(':')` followed by
      `slice(1).join(':')` does: the two readings agree on every chunk. */
  lemma ParseDeclarationAtFirstColon(allowed: set<string>, chunk: string)
    ensures ParseDeclaration(allowed, chunk) == CutAtFirstColon(allowed, Trim(chunk))
  {
    var t := Trim(chunk);
    if ':' in t {
      SplitAtFirst(t, ':');
      assert [':'] == ":";
    }
  }

  /** A chunk with no colon, or nothing but whitespace, is dropped. */
  lemma ParseDeclarationNeedsColon(allowed: set<string>, chunk: string)
    requires ':' !in chunk || Trim(chunk) == []
    ensures ParseDeclaration(allowed, chunk) == None
  {
    TrimKeepsChars(chunk);
    ParseDeclarationAtFirstColon(allowed, chunk);
  }

  /** What the cut at the first colon keeps may be emitted, provided the
      text holds no `;`. */
  lemma CutIsAllowed(allowed: set<string>, t: string)
    requires ';' !in t
    requires CutAtFirstColon(allowed, t).Some?
    ensures IsAllowedDeclaration(allowed, CutAtFirstColon(allowed, t).value)
  {
    var k := IndexOf(t, ':');
    var raw := Trim(t[..k]);
    TrimKeepsChars(t[..k]);
    TrimKeepsChars(t[k + 1..]);
    LowerKeepsNonLetters(raw);
    LowerIdempotent(raw);
  }

  /** Every declaration kept from a chunk without `;` may be emitted. */
  lemma ParsedDeclarationIsAllowed(allowed: set<string>, chunk: string)
    requires ';' !in chunk
    requires ParseDeclaration(allowed, chunk).Some?
    ensures IsAllowedDeclaration(allowed, ParseDeclaration(allowed, chunk).value)
  {
    ParseDeclarationAtFirstColon(allowed, chunk);
    TrimKeepsChars(chunk);
    CutIsAllowed(allowed, Trim(chunk));
  }

  lemma {:induction false} SafeDeclarationsAllowed(allowed: set<string>, chunks: seq<string>)
    requires forall i :: 0 <= i < |chunks| ==> ';' !in chunks[i]
    ensures AllAllowed(allowed, SafeDeclarations(allowed, chunks))
    decreases |chunks|
  {
    if chunks != [] {
      if ParseDeclaration(allowed, chunks[0]).Some? {
        ParsedDeclarationIsAllowed(allowed, chunks[0]);
      }
      SafeDeclarationsAllowed(allowed, chunks[1..]);
    }
  }

  /** The filter keeps chunks in place: filtering a concatenation is the
      concatenation of the filtered parts, so survivors keep their relative
      order and the output is a subsequence of the input. */
  lemma {:induction false} SafeDeclarationsAppend(allowed: set<string>, a: seq<string>, b: seq<string>)
    ensures SafeDeclarations(allowed, a + b) == SafeDeclarations(allowed, a) + SafeDeclarations(allowed, b)
    decreases |a|
  {
    if a == [] {
      assert a + b == b;
    } else {
      assert (a + b)[0] == a[0];
      assert (a + b)[1..] == a[1..] + b;
      SafeDeclarationsAppend(allowed, a[1..], b);
    }
  }

  /** The text of a rendered declaration once trimmed: the trailing space
      goes when the value is empty. */
  function TrimmedRendering(p: string, v: string): string {
    if v == [] then p + ":" else p + ": " + v
  }

  lemma TrimRenderedEmptyValue(p: string)
    requires IsTrimmed(p)
    ensures Trim(p + ": ") == p + ":"
  {
    var t := p + ":";
    assert p + ": " == t + " " by {
      assert ": " == ":" + " ";
    }
    assert IsTrimmed(t) by {
      if p != [] {
        assert t[0] == p[0];
      }
    }
    TrimDropsTrailingSpace(t);
  }

  lemma TrimRenderedValue(p: string, v: string)
    requires IsTrimmed(p) && IsTrimmed(v) && v != []
    ensures Trim(p + ": " + v) == p + ": " + v
  {
    var u := p + ": " + v;
    assert IsTrimmed(u) by {
      if p != [] {
        assert u[0] == p[0];
      } else {
        assert u[0] == ':';
      }
      assert u[|u| - 1] == v[|v| - 1];
    }
  }

  lemma TrimRenderedDeclaration(w: string, p: string, v: string)
    requires AllWhitespace(w)
    requires IsTrimmed(p) && IsTrimmed(v)
    ensures Trim(w + (p + ": " + v)) == TrimmedRendering(p, v)
  {
    TrimIgnoresLeadingWhitespace(w, p + ": " + v);
    if v == [] {
      assert p + ": " + v == p + ": ";
      TrimRenderedEmptyValue(p);
    } else {
      TrimRenderedValue(p, v);
    }
  }

  /** The rendered text, trimmed, cuts back into its property and value. */
  lemma CutRenderedDeclaration(allowed: set<string>, p: string, v: string)
    requires ':' !in p && IsTrimmed(p) && IsTrimmed(v)
    ensures CutAtFirstColon(allowed, TrimmedRendering(p, v)) == Classify(allowed, Lower(p), v)
  {
    var t := TrimmedRendering(p, v);
    assert t[|p|] == ':';
    var k := IndexOf(t, ':');
    assert k == |p|;
    assert t[..k] == p;
    if v == [] {
      assert t[k + 1..] == [];
    } else {
      assert t[k + 1..] == " " + v;
      TrimIgnoresLeadingWhitespace(" ", v);
    }
  }

  /** A chunk `property:value` whose property has no colon reads as that
      property, trimmed and lower-cased, and the whole value: later colons
      stay in the value. */
  lemma ParseAtColon(allowed: set<string>, p: string, v: string)
    requires ':' !in p && p != [] && !IsWhitespace(p[0])
    requires IsTrimmed(v) && v != []
    ensures ParseDeclaration(allowed, p + ":" + v) == Classify(allowed, Lower(Trim(p)), v)
  {
    var t := p + ":" + v;
    assert IsTrimmed(t) by {
      assert t[0] == p[0];
      assert t[|t| - 1] == v[|v| - 1];
    }
    assert t[|p|] == ':';
    var k := IndexOf(t, ':');
    assert k == |p|;
    assert t[..k] == p;
    assert t[k + 1..] == v;
    ParseDeclarationAtFirstColon(allowed, t);
  }

  /** One allowed `property:value;` reads as that single declaration, the
      property trimmed and lower-cased. */
  lemma ReadOneDeclaration(allowed: set<string>, p: string, v: string)
    requires ':' !in p && ';' !in p && p != [] && !IsWhitespace(p[0])
    requires IsTrimmed(v) && v != [] && ';' !in v
    requires Lower(Trim(p)) in allowed && IsSafeStyleValue(v)
    ensures DeclarationsOf(allowed, p + ":" + v + ";") == [Declaration(Lower(Trim(p)), v)]
  {
    var chunk := p + ":" + v;
    assert p + ":" + v + ";" == chunk + [';'] + [];
    assert ';' !in chunk;
    ParseAtColon(allowed, p, v);
    DeclarationsOfCut(allowed, chunk, []);
    ParseBlank(allowed, []);
  }

  /** A rendered declaration, behind any whitespace, reads back as itself. */
  lemma ParseRenderedDeclaration(allowed: set<string>, w: string, d: Declaration)
    requires AllWhitespace(w)
    requires IsAllowedDeclaration(allowed, d)
    ensures ParseDeclaration(allowed, w + RenderDeclaration(d)) == Some(d)
  {
    var chunk := w + RenderDeclaration(d);
    TrimRenderedDeclaration(w, d.property, d.value);
    CutRenderedDeclaration(allowed, d.property, d.value);
    ParseDeclarationAtFirstColon(allowed, chunk);
  }

  /** A text without `;` is one chunk. */
  lemma DeclarationsOfChunk(allowed: set<string>, c: string)
    requires ';' !in c
    ensures DeclarationsOf(allowed, c) == Kept(allowed, c)
  {
    assert Split(c, ';') == [c];
    assert [c][1..] == [];
    assert SafeDeclarations(allowed, [c]) == Kept(allowed, c) + SafeDeclarations(allowed, []);
  }

  /** A rendering of two or more declarations is the first, the separator
      and the rendering of the rest. */
  lemma RenderCons(w: string, ds: seq<Declaration>)
    requires |ds| >= 2
    ensures w + Render(ds) == (w + RenderDeclaration(ds[0])) + [';'] + (" " + Render(ds[1..]))
  {
    assert RenderEach(ds)[1..] == RenderEach(ds[1..]);
    assert "; " == [';'] + " ";
  }

  /** A chunk cut off by the first `;` contributes on its own, ahead of
      what the rest keeps. */
  lemma DeclarationsOfCut(allowed: set<string>, x: string, y: string)
    requires ';' !in x
    ensures DeclarationsOf(allowed, x + [';'] + y) == Kept(allowed, x) + DeclarationsOf(allowed, y)
  {
    SplitAtSeparator(x, ';', y);
    SafeDeclarationsAppend(allowed, [x], Split(y, ';'));
    assert [x][1..] == [];
    assert SafeDeclarations(allowed, [x]) == Kept(allowed, x) + SafeDeclarations(allowed, []);
  }

  /** Whitespace alone keeps no declaration. */
  lemma ParseBlank(allowed: set<string>, w: string)
    requires AllWhitespace(w) && ';' !in w
    ensures DeclarationsOf(allowed, w) == []
  {
    TrimWhitespace(w);
    ParseDeclarationNeedsColon(allowed, w);
    DeclarationsOfChunk(allowed, w);
  }

  /** A single rendered declaration reads back as itself. */
  lemma ParseRenderedSingle(allowed: set<string>, w: string, d: Declaration)
    requires AllWhitespace(w) && ';' !in w
    requires IsAllowedDeclaration(allowed, d)
    ensures DeclarationsOf(allowed, w + Render([d])) == [d]
  {
    var chunk := w + RenderDeclaration(d);
    assert w + Render([d]) == chunk;
    assert ';' !in chunk;
    ParseRenderedDeclaration(allowed, w, d);
    DeclarationsOfChunk(allowed, chunk);
  }

  /** One step of the round trip: the first declaration, then the rest
      behind the `; ` separator. */
  lemma ParseRenderedStep(allowed: set<string>, w: string, ds: seq<Declaration>)
    requires AllWhitespace(w) && ';' !in w
    requires |ds| >= 2 && IsAllowedDeclaration(allowed, ds[0])
    requires DeclarationsOf(allowed, " " + Render(ds[1..])) == ds[1..]
    ensures DeclarationsOf(allowed, w + Render(ds)) == ds
  {
    var rest := ds[1..];
    var head := w + RenderDeclaration(ds[0]);
    var tail := " " + Render(rest);
    RenderCons(w, ds);
    assert ';' !in head;
    DeclarationsOfCut(allowed, head, tail);
    ParseRenderedDeclaration(allowed, w, ds[0]);
    assert ds == [ds[0]] + rest;
  }

  /** Round trip: a rendering of allowed declarations, behind any
      whitespace, splits and filters back into the same declarations. */
  lemma {:induction false} ParseRendered(allowed: set<string>, w: string, ds: seq<Declaration>)
    requires AllWhitespace(w) && ';' !in w
    requires AllAllowed(allowed, ds)
    ensures DeclarationsOf(allowed, w + Render(ds)) == ds
    decreases |ds|
  {
    if ds == [] {
      assert w + Render(ds) == w;
      ParseBlank(allowed, w);
    } else if |ds| == 1 {
      assert ds == [ds[0]];
      ParseRenderedSingle(allowed, w, ds[0]);
    } else {
      assert AllWhitespace(" ");
      ParseRendered(allowed, " ", ds[1..]);
      ParseRenderedStep(allowed, w, ds);
    }
  }

  /** One allowed `property:value;` comes out as `property: value`, the
      property trimmed and lower-cased. */
  lemma FilterOneDeclaration(p: string, v: string)
    requires ':' !in p && ';' !in p && p != [] && !IsWhitespace(p[0])
    requires IsTrimmed(v) && v != [] && ';' !in v
    requires Lower(Trim(p)) in AllowedStyles && IsSafeStyleValue(v)
    ensures FilterInlineStyles(Some(p + ":" + v + ";")) == Lower(Trim(p)) + ": " + v
  {
    var d := Declaration(Lower(Trim(p)), v);
    ReadOneDeclaration(AllowedStyles, p, v);
    assert Render([d]) == RenderDeclaration(d);
  }

  /** A rendering of allowed declarations is left as it is by the filter. */
  lemma FilterKeepsRendering(s: string)
    requires IsRenderingOfAllowed(AllowedStyles, s)
    ensures FilterInlineStyles(Some(s)) == s
  {
    var ds :| AllAllowed(AllowedStyles, ds) && s == Render(ds);
    if s != [] {
      ParseRendered(AllowedStyles, [], ds);
      assert [] + Render(ds) == s;
    }
  }

  /** Reading the filter's output again yields exactly the declarations the
      filter kept from its input, in the same order. */
  lemma FilterOutputReadsBack(styleText: string)
    ensures DeclarationsOf(AllowedStyles, FilterInlineStyles(Some(styleText))) == DeclarationsOf(AllowedStyles, styleText)
  {
    if styleText == [] {
      ParseBlank(AllowedStyles, []);
    } else {
      var ds := DeclarationsOf(AllowedStyles, styleText);
      SafeDeclarationsAllowed(AllowedStyles, Split(styleText, ';'));
      ParseRendered(AllowedStyles, [], ds);
      assert [] + Render(ds) == Render(ds);
    }
  }

  /** Filtering twice is filtering once. */
  lemma FilterInlineStylesIdempotent(styleText: Option<string>)
    ensures FilterInlineStyles(Some(FilterInlineStyles(styleText))) == FilterInlineStyles(styleText)
  {
    FilterKeepsRendering(FilterInlineStyles(styleText));
  }
}
