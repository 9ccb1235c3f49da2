/**
 * The attribute filter applied to every element the tree walk keeps: only
 * `class` and `style` survive, the class list is cut down to the allowed
 * class names, the style to the allowed declarations, and an attribute left
 * empty is removed rather than kept blank.
 */
module PromptAttributes {
  import opened JsStrings
  import opened Optional
  import opened PromptPolicy
  import opened InlineStyles

  /** An element's attributes, by name. */
  type Attributes = map<string, string>

  /** The allowed class names among `tokens`, in their original order. */
  function FilterClasses(tokens: seq<string>): (r: seq<string>)
    ensures |r| <= |tokens|
    ensures forall i :: 0 <= i < |r| ==> r[i] in AllowedClasses
  {
    if tokens == [] then []
    else (if tokens[0] in AllowedClasses then [tokens[0]] else []) + FilterClasses(tokens[1..])
  }

  /** The value the class attribute is rewritten to, or `None` when no
      allowed class is left and the attribute goes. */
  function SafeClassValue(className: string): Option<string> {
    var safe := FilterClasses(SplitOnWhitespace(className));
    if safe == [] then None else Some(Join(safe, " "))
  }

  /** A class attribute the filter may emit: allowed class names, at least
      one, joined by single spaces. */
  ghost predicate IsCleanClass(v: string) {
    exists tokens :: |tokens| >= 1 && (forall i :: 0 <= i < |tokens| ==> tokens[i] in AllowedClasses)
      && v == Join(tokens, " ")
  }

  /** Attributes the filter may emit. */
  ghost predicate IsClean(a: Attributes) {
    && (forall k :: k in a ==> k == "class" || k == "style")
    && ("class" in a ==> IsCleanClass(a["class"]))
    && ("style" in a ==> a["style"] != [] && IsRenderingOfAllowed(AllowedStyles, a["style"]))
  }

  /** Only `class` and `style` stay. */
  function KeepClassAndStyle(a: Attributes): (r: Attributes)
    ensures forall k :: k in r <==> k in a && (k == "class" || k == "style")
    ensures forall k :: k in r ==> r[k] == a[k]
  {
    map k | k in a && (k == "class" || k == "style") :: a[k]
  }

  /** The class step: rewritten to its allowed tokens, or removed. */
  function SanitizeClass(a: Attributes): Attributes {
    if "class" !in a then a
    else match SafeClassValue(a["class"])
      case Some(v) => a["class" := v]
      case None => a - {"class"}
  }

  /** The style step: rewritten to its filtered declarations, or removed. */
  function SanitizeStyle(a: Attributes): Attributes {
    if "style" !in a then a
    else
      var safe := FilterInlineStyles(Some(a["style"]));
      if safe == [] then a - {"style"} else a["style" := safe]
  }

  /** `sanitizeAttributes`: drop every other attribute, then the class
      step, then the style step. */
  function SanitizeAttributes(a: Attributes): (r: Attributes)
    ensures forall k :: k in r ==> k == "class" || k == "style"
    ensures "class" in r <==> "class" in a && FilterClasses(SplitOnWhitespace(a["class"])) != []
    ensures "class" in r ==> SplitOnWhitespace(r["class"]) == FilterClasses(SplitOnWhitespace(a["class"]))
    ensures "style" in r <==> "style" in a && DeclarationsOf(AllowedStyles, a["style"]) != []
    ensures "style" in r ==> r["style"] == FilterInlineStyles(Some(a["style"]))
    ensures IsClean(r)
  {
    var kept := KeepClassAndStyle(a);
    var withClass := SanitizeClass(kept);
    var r := SanitizeStyle(withClass);
    SanitizeClassFacts(kept);
    SanitizeStyleFacts(withClass);
    r
  }

  /** The class step touches only `class`: kept while an allowed token is
      left, and then made of exactly the filtered tokens. */
  lemma SanitizeClassFacts(a: Attributes)
    ensures var r := SanitizeClass(a);
      && (forall k :: k in r <==> k in a && (k != "class" || FilterClasses(SplitOnWhitespace(a["class"])) != []))
      && (forall k :: k in r && k != "class" ==> r[k] == a[k])
      && ("class" in r ==> SplitOnWhitespace(r["class"]) == FilterClasses(SplitOnWhitespace(a["class"])))
      && ("class" in r ==> IsCleanClass(r["class"]))
  {
    if "class" in a {
      var safe := FilterClasses(SplitOnWhitespace(a["class"]));
      if safe != [] {
        ClassTokensSplitBack(safe);
      }
    }
  }

  /** The style step touches only `style`: kept while a declaration is
      left, and then the filtered style. */
  lemma SanitizeStyleFacts(a: Attributes)
    ensures var r := SanitizeStyle(a);
      && (forall k :: k in r <==> k in a && (k != "style" || DeclarationsOf(AllowedStyles, a["style"]) != []))
      && (forall k :: k in r && k != "style" ==> r[k] == a[k])
      && ("style" in r ==> r["style"] == FilterInlineStyles(Some(a["style"])))
      && ("style" in r ==> r["style"] != [] && IsRenderingOfAllowed(AllowedStyles, r["style"]))
  {
  }

  /** Allowed class names joined by single spaces split back into
      themselves, and the class step leaves them as they are. */
  lemma ClassTokensSplitBack(tokens: seq<string>)
    requires |tokens| >= 1
    requires forall i :: 0 <= i < |tokens| ==> tokens[i] in AllowedClasses
    ensures SplitOnWhitespace(Join(tokens, " ")) == tokens
    ensures FilterClasses(tokens) == tokens
    ensures IsCleanClass(Join(tokens, " "))
  {
    forall i | 0 <= i < |tokens|
      ensures tokens[i] != [] && NoWhitespace(tokens[i])
    {
      AllowedClassesAreTokens(tokens[i]);
    }
    SplitOnWhitespaceJoin(tokens);
    FilterKeepsAllowed(tokens);
  }

  /** The class filter keeps a list made only of allowed names. */
  lemma {:induction false} FilterKeepsAllowed(tokens: seq<string>)
    requires forall i :: 0 <= i < |tokens| ==> tokens[i] in AllowedClasses
    ensures FilterClasses(tokens) == tokens
    decreases |tokens|
  {
    if tokens != [] {
      FilterKeepsAllowed(tokens[1..]);
    }
  }

  /** A class name survives exactly when it is allowed and was there. */
  lemma {:induction false} FilterClassesMembers(tokens: seq<string>, c: string)
    ensures c in FilterClasses(tokens) <==> c in tokens && c in AllowedClasses
    decreases |tokens|
  {
    if tokens != [] {
      FilterClassesMembers(tokens[1..], c);
      assert c in tokens <==> c == tokens[0] || c in tokens[1..];
    }
  }

  /** The class filter keeps names in place: filtering a concatenation is
      the concatenation of the filtered parts. */
  lemma {:induction false} FilterClassesAppend(a: seq<string>, b: seq<string>)
    ensures FilterClasses(a + b) == FilterClasses(a) + FilterClasses(b)
    decreases |a|
  {
    if a == [] {
      assert a + b == b;
    } else {
      assert (a + b)[0] == a[0];
      assert (a + b)[1..] == a[1..] + b;
      FilterClassesAppend(a[1..], b);
    }
  }

  /** A clean class attribute is rewritten to itself. */
  lemma CleanClassFixed(v: string)
    requires IsCleanClass(v)
    ensures SafeClassValue(v) == Some(v)
  {
    var tokens :| |tokens| >= 1 && (forall i :: 0 <= i < |tokens| ==> tokens[i] in AllowedClasses)
      && v == Join(tokens, " ");
    ClassTokensSplitBack(tokens);
  }

  /** Clean attributes are left exactly as they are. */
  lemma CleanIsFixed(a: Attributes)
    requires IsClean(a)
    ensures SanitizeAttributes(a) == a
  {
    assert KeepClassAndStyle(a) == a;
    if "class" in a {
      CleanClassFixed(a["class"]);
      assert a["class" := a["class"]] == a;
    }
    assert SanitizeClass(a) == a;
    if "style" in a {
      FilterKeepsRendering(a["style"]);
      assert a["style" := a["style"]] == a;
    }
    assert SanitizeStyle(a) == a;
  }

  /** Sanitising leaves the attributes alone exactly when they are clean. */
  lemma FixedIffClean(a: Attributes)
    ensures SanitizeAttributes(a) == a <==> IsClean(a)
  {
    if IsClean(a) {
      CleanIsFixed(a);
    }
  }

  /** Sanitising twice is sanitising once. */
  lemma SanitizeAttributesIdempotent(a: Attributes)
    ensures SanitizeAttributes(SanitizeAttributes(a)) == SanitizeAttributes(a)
  {
    CleanIsFixed(SanitizeAttributes(a));
  }
}
