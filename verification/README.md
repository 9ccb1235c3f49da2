# Prompt sanitiser of the UserInput plug, in Dafny

The OpenHTF web GUI shows operator prompts whose text comes from the test
backend, which the GUI does not trust. A prompt that carries rich HTML passes through a sanitiser
before it is injected into the page. A prompt without HTML is escaped as
plain text. This project models both paths of
`openhtf/output/web_gui/src/app/plugs/user-input-plug.component.ts` and
proves what they promise.

- **Plain-text path** (`TextEscaper`, `escaper.dfy`). `escapeHtml` replaces
  `&`, `<`, `>`, `"` and `'` by their entities, ampersand first.
  `convertPlainTextToHtml` then turns each line feed into `<br>`.
- **Style filter** (`InlineStyles`, `styles.dfy`). `filterInlineStyles`
  cuts a `style` value at `;`. It reads each chunk as `property: value` at
  the first colon and keeps those with an allowed property and a value that
  `isSafeStyleValue` accepts. The survivors are re-rendered and joined with `; `.
  Reading and round-trip lemmas take the property allowlist as a parameter,
  so they hold for any allowlist. `FilterInlineStyles` fixes it to the
  component's `ALLOWED_PROMPT_STYLES`.
- **Attribute filter** (`PromptAttributes`, `attributes.dfy`).
  `sanitizeAttributes` keeps only `class` and `style`. It cuts the class list
  down to the allowed class names and the style down to the allowed
  declarations. An attribute left empty is removed.
- **Tree walk** (`PromptTree`, `tree.dfy`). `sanitizeNode` deletes comments.
  It replaces an element off the tag allowlist by one text node holding the
  element's `textContent`. It filters the attributes of an allowed element and
  walks its children.
- **Policy** (`PromptPolicy`, `policy.dfy`). These are the three allowlists and the
  dangerous value patterns.
- **String operations** (`JsStrings`, `jsstrings.dfy`). These are the ECMAScript
  string operations the component uses: `trim`, `toLowerCase`,
  `split(';')`, `split(/\s+/)`, `join`, `includes` and a global
  single-character `replace`. `Optional` (`optional.dfy`) stands for a
  nullable argument.

Each operation has a partner and a lemma that ties the two together:
- the escaper has its decoder and a round trip;
- the style filter has a reference reading, a re-parse round trip and idempotence;
- the attribute filter and the walk each have a cleanliness invariant, proved equivalent to being left unchanged, and from it idempotence;
- the walk also has a one-to-one correspondence with the non-comment children, and preserves the text.

## Model

All source cells refer to `openhtf/output/web_gui/src/app/plugs/user-input-plug.component.ts`, written in full in each row.

| member | source | states |
|---|---|---|
| PromptPolicy.AllowedClassesAreTokens | openhtf/output/web_gui/src/app/plugs/user-input-plug.component.ts:52-56 | Every allowed class name is a non-empty token with no whitespace, so a class list built from them survives a split on whitespace |
| JsStrings.Trim | openhtf/output/web_gui/src/app/plugs/user-input-plug.component.ts:287 | `trim` gives a string with no whitespace at either end, no longer than the input, and leaves an already trimmed string alone |
| JsStrings.TrimKeepsChars | openhtf/output/web_gui/src/app/plugs/user-input-plug.component.ts:287 | Trimming introduces no character that was not in the input |
| JsStrings.Lower | openhtf/output/web_gui/src/app/plugs/user-input-plug.component.ts:295 | `toLowerCase` keeps the length and lower-cases each character independently |
| JsStrings.Split | openhtf/output/web_gui/src/app/plugs/user-input-plug.component.ts:286 | `split` on one character gives at least one piece; no piece holds the separator; it gives exactly one piece iff the separator is absent; joining the pieces with the separator gives the input back |
| JsStrings.SplitAtFirst | openhtf/output/web_gui/src/app/plugs/user-input-plug.component.ts:291-296 | The first piece of a split is the text before the first separator, and the other pieces re-joined are the text after it |
| JsStrings.SplitOnWhitespace | openhtf/output/web_gui/src/app/plugs/user-input-plug.component.ts:261 | `split(/\s+/)` gives pieces without whitespace; only the first and the last piece can be empty, and the first is non-empty when the text does not start with whitespace. Which pieces they are, in terms of the input, is stated by JsStrings.SplitOnWhitespaceRuns |
| JsStrings.SplitOnWhitespaceRuns | openhtf/output/web_gui/src/app/plugs/user-input-plug.component.ts:261 | The input of `split(/\s+/)` is its pieces with the whitespace runs put back between them: one run fewer than pieces, each run non-empty and all whitespace |
| JsStrings.SplitOnWhitespaceWeaves | openhtf/output/web_gui/src/app/plugs/user-input-plug.component.ts:261 | For every input there are non-empty whitespace runs that, woven between the pieces, give the input back; together with the pieces having no whitespace, this determines the pieces |
| JsStrings.SplitOnWhitespaceJoin | openhtf/output/web_gui/src/app/plugs/user-input-plug.component.ts:261-264 | Non-empty tokens without whitespace, joined with single spaces, split on whitespace back into the same tokens |
| JsStrings.Contains | openhtf/output/web_gui/src/app/plugs/user-input-plug.component.ts:310-312 | `includes` is true iff the pattern occurs at some index |
| JsStrings.ReplaceAll | openhtf/output/web_gui/src/app/plugs/user-input-plug.component.ts:207 | A global replacement of a character is the identity when the character is absent; every character of the result comes from the replacement text or is a different character of the input |
| JsStrings.ReplaceAllAppend | openhtf/output/web_gui/src/app/plugs/user-input-plug.component.ts:212-216 | A global replacement distributes over concatenation |
| TextEscaper.EscapeHtml | openhtf/output/web_gui/src/app/plugs/user-input-plug.component.ts:210-216 | The escaped text holds no `<`, `>`, `"` or `'` |
| TextEscaper.EscapeHtmlAppend | openhtf/output/web_gui/src/app/plugs/user-input-plug.component.ts:210-216 | Escaping distributes over concatenation |
| TextEscaper.EscapeHtmlChar | openhtf/output/web_gui/src/app/plugs/user-input-plug.component.ts:211-216 | A single character escapes to its own entity, because later replacements never touch an entity an earlier one inserted |
| TextEscaper.EscapeHtmlIsPerCharacter | openhtf/output/web_gui/src/app/plugs/user-input-plug.component.ts:210-216 | The chain of five replacements, ampersand first, equals the reference escaper that maps each character to its entity |
| TextEscaper.UnescapeEscapeEach | openhtf/output/web_gui/src/app/plugs/user-input-plug.component.ts:210-216 | Decoding the per-character escaping gives the message back |
| TextEscaper.EscapeRoundTrip | openhtf/output/web_gui/src/app/plugs/user-input-plug.component.ts:210-216 | Decoding the five entities of `escapeHtml`'s output recovers the message exactly |
| TextEscaper.ConvertPlainTextToHtml | openhtf/output/web_gui/src/app/plugs/user-input-plug.component.ts:205-208 | The plain-text markup holds no line feed, `"` or `'` |
| TextEscaper.BreaksRoundTrip | openhtf/output/web_gui/src/app/plugs/user-input-plug.component.ts:207 | In a text without `<`, turning line feeds into `<br>` is undone by reading each `<br>` back as a line feed |
| TextEscaper.PlainTextRoundTrip | openhtf/output/web_gui/src/app/plugs/user-input-plug.component.ts:205-216 | Reading `<br>` back as line feeds and then decoding the entities recovers the original message |
| TextEscaper.LineBreaksAreTheOnlyTags | openhtf/output/web_gui/src/app/plugs/user-input-plug.component.ts:207 | In a text without `<` or `>`, once line feeds become `<br>`, every `<` opens a `<br>` and every `>` closes one |
| TextEscaper.PlainTextMarkupIsLineBreaks | openhtf/output/web_gui/src/app/plugs/user-input-plug.component.ts:205-208 | In the plain-text markup every `<` begins a `<br>` token and every `>` ends one |
| InlineStyles.SafeIffNoDangerousPattern | openhtf/output/web_gui/src/app/plugs/user-input-plug.component.ts:308-313 | A value is safe iff none of `url(`, `expression(`, `javascript:` occurs in its lower-cased form; equivalently, iff no pattern matches the lower-cased characters of the value at any index |
| InlineStyles.OccursIffMatchesLowered | openhtf/output/web_gui/src/app/plugs/user-input-plug.component.ts:309-312 | A pattern occurs in the lower-cased value at an index iff it matches the value there character by character after lower-casing |
| InlineStyles.ParseDeclarationAtFirstColon | openhtf/output/web_gui/src/app/plugs/user-input-plug.component.ts:287-302 | Splitting the trimmed chunk on every `:` and re-joining all but the first part is the same as cutting at the first colon: the property is the trimmed, lower-cased text before it, and the value is the trimmed text after it, later colons included |
| InlineStyles.ParseDeclarationNeedsColon | openhtf/output/web_gui/src/app/plugs/user-input-plug.component.ts:287-294 | A chunk that is blank after trimming, or has no colon, is dropped |
| InlineStyles.ParseAtColon | openhtf/output/web_gui/src/app/plugs/user-input-plug.component.ts:291-302 | A chunk `property:value` reads as the trimmed, lower-cased property and the whole value, later colons included. It is kept iff the property is allowed and the value safe. This holds when the property has no colon and is non-empty without leading whitespace, and the value is non-empty and trimmed; for an untrimmed value the value read is its trimmed form |
| InlineStyles.ParsedDeclarationIsAllowed | openhtf/output/web_gui/src/app/plugs/user-input-plug.component.ts:295-303 | A declaration kept from a chunk has an allowed property that is trimmed, lower-cased and free of `:` and `;`, and a trimmed, safe value free of `;` |
| InlineStyles.SafeDeclarationsAllowed | openhtf/output/web_gui/src/app/plugs/user-input-plug.component.ts:286-303 | Every declaration kept from the `;`-separated chunks is one the filter may emit |
| InlineStyles.SafeDeclarationsAppend | openhtf/output/web_gui/src/app/plugs/user-input-plug.component.ts:286-304 | Filtering a concatenation of chunk lists is the concatenation of the filtered lists, so kept declarations keep their relative order and form a subsequence of the input |
| InlineStyles.RenderEmpty | openhtf/output/web_gui/src/app/plugs/user-input-plug.component.ts:303-305 | The rendering `property: value` joined with `; ` is empty iff there is nothing to render |
| InlineStyles.FilterInlineStyles | openhtf/output/web_gui/src/app/plugs/user-input-plug.component.ts:281-306 | Null or empty input gives `''`; every output is the `; `-joined rendering of a list of allowed declarations; for a string input the output is empty iff no declaration is kept |
| InlineStyles.ReadOneDeclaration | openhtf/output/web_gui/src/app/plugs/user-input-plug.component.ts:286-303 | For any allowlist, one `property:value;` with an allowed property and a safe value reads as exactly one declaration, with the property trimmed and lower-cased and the empty chunk after the `;` dropped |
| InlineStyles.FilterOneDeclaration | openhtf/output/web_gui/src/app/plugs/user-input-plug.component.ts:286-305 | One allowed `property:value;` comes out as `property: value`, with the property trimmed and lower-cased and the empty chunk after the `;` dropped |
| InlineStyles.ParseRenderedDeclaration | openhtf/output/web_gui/src/app/plugs/user-input-plug.component.ts:295-303 | A rendered allowed declaration, behind any whitespace, reads back as the same declaration |
| InlineStyles.DeclarationsOfCut | openhtf/output/web_gui/src/app/plugs/user-input-plug.component.ts:286-304 | The chunk before the first `;` contributes its declaration ahead of everything the rest of the text keeps |
| InlineStyles.ParseRendered | openhtf/output/web_gui/src/app/plugs/user-input-plug.component.ts:286-305 | The `; `-joined rendering of allowed declarations, behind any whitespace, splits and filters back into exactly those declarations |
| InlineStyles.FilterKeepsRendering | openhtf/output/web_gui/src/app/plugs/user-input-plug.component.ts:281-306 | The filter leaves the rendering of allowed declarations unchanged |
| InlineStyles.FilterOutputReadsBack | openhtf/output/web_gui/src/app/plugs/user-input-plug.component.ts:281-306 | Reading the filter's output again yields exactly the declarations it kept from its input, in order |
| InlineStyles.FilterInlineStylesIdempotent | openhtf/output/web_gui/src/app/plugs/user-input-plug.component.ts:281-306 | Filtering the filtered style again changes nothing |
| PromptAttributes.FilterClasses | openhtf/output/web_gui/src/app/plugs/user-input-plug.component.ts:262 | The class filter keeps only allowed names and never lengthens the list |
| PromptAttributes.FilterClassesMembers | openhtf/output/web_gui/src/app/plugs/user-input-plug.component.ts:262 | A name survives the class filter iff it was in the list and is allowed |
| PromptAttributes.FilterClassesAppend | openhtf/output/web_gui/src/app/plugs/user-input-plug.component.ts:262 | The class filter distributes over concatenation, so surviving names keep their order |
| PromptAttributes.KeepClassAndStyle | openhtf/output/web_gui/src/app/plugs/user-input-plug.component.ts:253-257 | Exactly the `class` and `style` attributes stay, with their values unchanged |
| PromptAttributes.SanitizeClassFacts | openhtf/output/web_gui/src/app/plugs/user-input-plug.component.ts:259-267 | The class step touches only `class`: it is kept iff some allowed token is left, and then it splits back into exactly the filtered tokens |
| PromptAttributes.SanitizeStyleFacts | openhtf/output/web_gui/src/app/plugs/user-input-plug.component.ts:270-277 | The style step touches only `style`: it is kept iff the filter keeps a declaration, and then it is the non-empty filtered style |
| PromptAttributes.SanitizeAttributes | openhtf/output/web_gui/src/app/plugs/user-input-plug.component.ts:252-278 | Only `class` and `style` can remain. `class` remains iff some allowed token was there, and then it splits into exactly the allowed tokens in order. `style` remains iff the filter keeps a declaration, and then it equals the filtered style. The result is clean |
| PromptAttributes.ClassTokensSplitBack | openhtf/output/web_gui/src/app/plugs/user-input-plug.component.ts:259-264 | Allowed class names joined by single spaces split back into themselves and pass the class filter unchanged |
| PromptAttributes.CleanClassFixed | openhtf/output/web_gui/src/app/plugs/user-input-plug.component.ts:259-267 | A single-space-joined list of allowed class names is rewritten to itself |
| PromptAttributes.CleanIsFixed | openhtf/output/web_gui/src/app/plugs/user-input-plug.component.ts:252-278 | Clean attributes are left exactly as they are |
| PromptAttributes.FixedIffClean | openhtf/output/web_gui/src/app/plugs/user-input-plug.component.ts:252-278 | The attribute filter leaves a map unchanged iff it is clean |
| PromptAttributes.SanitizeAttributesIdempotent | openhtf/output/web_gui/src/app/plugs/user-input-plug.component.ts:252-278 | Filtering attributes twice is filtering once |
| PromptTree.SanitizeNode | openhtf/output/web_gui/src/app/plugs/user-input-plug.component.ts:226-250 | The root keeps its kind, tag and attributes, and what is under it is clean |
| PromptTree.SanitizeChildrenIsClean | openhtf/output/web_gui/src/app/plugs/user-input-plug.component.ts:226-250 | The walked forest holds no comment, and every element has an allowed tag and clean attributes |
| PromptTree.WalkRemovesCommentsAndTags | openhtf/output/web_gui/src/app/plugs/user-input-plug.component.ts:229-247 | After the walk no comment remains at any depth, and every element's lower-cased tag is allowed |
| PromptTree.WalkAppend | openhtf/output/web_gui/src/app/plugs/user-input-plug.component.ts:227-249 | Walking a concatenation of siblings is concatenating the walks, so sibling order is preserved |
| PromptTree.WalkShape | openhtf/output/web_gui/src/app/plugs/user-input-plug.component.ts:226-250 | The output lines up one to one with the children that are not comments, in order. A text node is unchanged. A disallowed element becomes exactly one text node with its `textContent`. An allowed element keeps its tag and gets filtered attributes and walked children |
| PromptTree.ChildKeepsText | openhtf/output/web_gui/src/app/plugs/user-input-plug.component.ts:229-247 | Each child's replacement carries the same text as the child |
| PromptTree.WalkKeepsText | openhtf/output/web_gui/src/app/plugs/user-input-plug.component.ts:226-250 | The walk never changes the text content of the forest |
| PromptTree.CleanForestFixed | openhtf/output/web_gui/src/app/plugs/user-input-plug.component.ts:226-250 | A clean forest is left exactly as it is |
| PromptTree.FixedIffCleanForest | openhtf/output/web_gui/src/app/plugs/user-input-plug.component.ts:226-250 | The walk leaves a forest unchanged iff the forest is clean |
| PromptTree.WalkIdempotent | openhtf/output/web_gui/src/app/plugs/user-input-plug.component.ts:226-250 | Walking twice is walking once |
| PromptTree.SanitizeNodeIdempotent | openhtf/output/web_gui/src/app/plugs/user-input-plug.component.ts:219-223 | Sanitising an already sanitised root changes nothing, which is idempotence of the whole sanitiser at tree level |

## Left out

- HTML parsing and serialisation (`DOMParser.parseFromString` and `innerHTML`, lines 219-223) are browser code. The model takes the parsed tree as input. Idempotence is stated on trees, not on strings.
- The Angular component plumbing (lines 97-203) is left out. That covers the constructor, prompt caching, focus handling, setting the response and sending it. It is UI and HTTP.
- The `image-url` and button-text getters (lines 133-161) pass their values through without sanitising. This gap is left as the component has it.
- Strings are sequences of Unicode scalar values, while JavaScript strings are UTF-16 code units. So a lone surrogate cannot be represented, and a character outside the Basic Multilingual Plane is one `char` rather than two code units. No allow or deny decision changes: every separator, whitespace character, allowlist entry and dangerous pattern is a Basic Multilingual Plane character that is not a surrogate.
- JsStrings.Lower: covers ASCII letters only, while `toLowerCase` covers all of Unicode. The allow and deny decisions do not change. Every allowlist entry and dangerous pattern is ASCII without a `k`. The only non-ASCII characters that lower-case to an ASCII letter are U+212A, which becomes `k`, and U+0130, which becomes `i` followed by U+0307. So no such character can complete an allowed name or a pattern.
- JsStrings.IsWhitespace: this is ECMAScript's WhiteSpace and LineTerminator set, which both `trim` and `\s` use. The space separators (Unicode category Zs) are listed one by one as Unicode currently assigns them, not by looking up the category.
- The DOM is an immutable tree: `Element(tag, attrs, children) | Text | Comment`. The walk returns a new child list and does not mutate in place. The source iterates over a snapshot of the child list, so a text node it inserts is never visited again; this makes the two forms agree. Other node kinds (processing instructions, CDATA) are not modelled; the walk skips them just as it skips text.
- Attribute order and duplicate attribute names are not modelled: attributes are a map from name to value.
- `textContent || ''` is modelled as `TextContent`, which is never null for an element.
- InlineStyles.FilterInlineStyles: its contract says the output renders some allowed list and is empty iff nothing is kept. Which list is pinned down by InlineStyles.FilterOutputReadsBack, not by the function's own `ensures`.
- TextEscaper.EscapeRoundTrip: the decoder reads the five entities in one left-to-right pass. It does not chain five replacements in reverse order.
