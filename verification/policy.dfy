/**
 * The fixed vocabulary a prompt may use: allowed tags, class names and
 * inline-style properties, and the value fragments that are never allowed.
 * None of them is configurable at run time.
 */
module PromptPolicy {
  import opened JsStrings

  /** Lower-cased names of the elements a prompt may contain. */
  const AllowedTags: set<string> := {
    "div", "span", "p", "br", "strong", "em", "b", "i", "u",
    "ul", "ol", "li", "h1", "h2", "h3", "h4"
  }

  /** Class names a prompt element may carry. */
  const AllowedClasses: set<string> := {"prompt-pass", "prompt-fail", "prompt-large"}

  /** Lower-cased CSS properties an inline style may set. */
  const AllowedStyles: set<string> := {"font-size", "font-weight", "color", "text-align"}

  /** Substrings that disqualify a style value once it is lower-cased: the
      three literals `isSafeStyleValue` tests, gathered into one list so the
      test can be stated over them. */
  const DangerousPatterns: seq<string> := ["url(", "expression(", "javascript:"]

  /** Every allowed class name is a non-empty single token. */
  lemma AllowedClassesAreTokens(c: string)
    requires c in AllowedClasses
    ensures c != [] && NoWhitespace(c)
  {
  }
}
