/**
 * The tree walk over a parsed prompt: comments are deleted, an element off
 * the tag allowlist is replaced in place by one text node holding its text,
 * and an allowed element keeps its tag, has its attributes filtered and its
 * children walked in turn.
 */
module PromptTree {
  import opened JsStrings
  import opened PromptPolicy
  import opened PromptAttributes

  /** The parsed document: elements with attributes and children, text
      nodes and comments. */
  datatype Node =
    | Element(tag: string, attrs: Attributes, children: seq<Node>)
    | Text(data: string)
    | Comment(data: string)

  /** `textContent` of a list of siblings: the text of every descendant
      text node, in document order; comments contribute nothing. */
  function TextContent(nodes: seq<Node>): string
    decreases nodes
  {
    if nodes == [] then [] else NodeText(nodes[0]) + TextContent(nodes[1..])
  }

  function NodeText(n: Node): string
    decreases n
  {
    match n
    case Element(_, _, children) => TextContent(children)
    case Text(data) => data
    case Comment(_) => []
  }

  /** Whether an element's tag, lower-cased, is on the allowlist. */
  predicate IsAllowedTag(tag: string) {
    Lower(tag) in AllowedTags
  }

  /** What one child becomes: nothing for a comment, itself for a text
      node, a text node with its text for an element off the allowlist, and
      the element with filtered attributes and walked children otherwise. */
  function SanitizeChild(n: Node): seq<Node>
    decreases n
  {
    match n
    case Comment(_) => []
    case Text(_) => [n]
    case Element(tag, attrs, children) =>
      if IsAllowedTag(tag) then [Element(tag, SanitizeAttributes(attrs), SanitizeChildren(children))]
      else [Text(TextContent(children))]
  }

  /** The loop of `sanitizeNode` over a snapshot of the child list. */
  function SanitizeChildren(nodes: seq<Node>): seq<Node>
    decreases nodes
  {
    if nodes == [] then [] else SanitizeChild(nodes[0]) + SanitizeChildren(nodes[1..])
  }

  /** `sanitizeNode`: the node itself is kept, only what is under it is
      walked. */
  function SanitizeNode(root: Node): (r: Node)
    ensures r.Element? <==> root.Element?
    ensures r.Element? ==> r.tag == root.tag && r.attrs == root.attrs && IsCleanForest(r.children)
    ensures !root.Element? ==> r == root
  {
    match root
    case Element(tag, attrs, children) =>
      SanitizeChildrenIsClean(children);
      Element(tag, attrs, SanitizeChildren(children))
    case _ => root
  }

  /** A forest the walk may produce: no comment anywhere, and every element
      has an allowed tag and clean attributes. */
  ghost predicate IsCleanForest(nodes: seq<Node>)
    decreases nodes
  {
    forall i :: 0 <= i < |nodes| ==> IsCleanNode(nodes[i])
  }

  ghost predicate IsCleanNode(n: Node)
    decreases n
  {
    match n
    case Comment(_) => false
    case Text(_) => true
    case Element(tag, attrs, children) => IsAllowedTag(tag) && IsClean(attrs) && IsCleanForest(children)
  }

  /** No comment node anywhere in the forest. */
  predicate HasNoComment(nodes: seq<Node>)
    decreases nodes
  {
    forall i :: 0 <= i < |nodes| ==> match nodes[i]
      case Comment(_) => false
      case Text(_) => true
      case Element(_, _, children) => HasNoComment(children)
  }

  /** Every element in the forest has an allowed tag. */
  predicate OnlyAllowedTags(nodes: seq<Node>)
    decreases nodes
  {
    forall i :: 0 <= i < |nodes| ==> match nodes[i]
      case Comment(_) => true
      case Text(_) => true
      case Element(tag, _, children) => IsAllowedTag(tag) && OnlyAllowedTags(children)
  }

  lemma CleanForestAppend(a: seq<Node>, b: seq<Node>)
    requires IsCleanForest(a) && IsCleanForest(b)
    ensures IsCleanForest(a + b)
  {
    assert forall i :: 0 <= i < |a + b| ==> (a + b)[i] == if i < |a| then a[i] else b[i - |a|];
  }

  /** Whatever the walk produces is clean. */
  lemma {:induction false} SanitizeChildrenIsClean(nodes: seq<Node>)
    ensures IsCleanForest(SanitizeChildren(nodes))
    decreases nodes
  {
    if nodes != [] {
      SanitizeChildIsClean(nodes[0]);
      SanitizeChildrenIsClean(nodes[1..]);
      CleanForestAppend(SanitizeChild(nodes[0]), SanitizeChildren(nodes[1..]));
    }
  }

  lemma {:induction false} SanitizeChildIsClean(n: Node)
    ensures IsCleanForest(SanitizeChild(n))
    decreases n
  {
    match n
    case Comment(_) =>
    case Text(_) =>
    case Element(tag, attrs, children) =>
      if IsAllowedTag(tag) {
        SanitizeChildrenIsClean(children);
      }
  }

  /** A clean forest holds no comment and only allowed tags. */
  lemma {:induction false} CleanForestFacts(nodes: seq<Node>)
    requires IsCleanForest(nodes)
    ensures HasNoComment(nodes) && OnlyAllowedTags(nodes)
    decreases nodes
  {
    forall i | 0 <= i < |nodes| && nodes[i].Element?
      ensures HasNoComment(nodes[i].children) && OnlyAllowedTags(nodes[i].children)
    {
      CleanForestFacts(nodes[i].children);
    }
  }

  /** After the walk no comment remains anywhere, and every element left
      has an allowed tag. */
  lemma WalkRemovesCommentsAndTags(nodes: seq<Node>)
    ensures HasNoComment(SanitizeChildren(nodes))
    ensures OnlyAllowedTags(SanitizeChildren(nodes))
  {
    SanitizeChildrenIsClean(nodes);
    CleanForestFacts(SanitizeChildren(nodes));
  }

  /** The walk treats siblings one at a time: walking a concatenation is
      concatenating the walks, so siblings keep their order. */
  lemma {:induction false} WalkAppend(a: seq<Node>, b: seq<Node>)
    ensures SanitizeChildren(a + b) == SanitizeChildren(a) + SanitizeChildren(b)
    decreases |a|
  {
    if a == [] {
      assert a + b == b;
    } else {
      assert (a + b)[0] == a[0];
      assert (a + b)[1..] == a[1..] + b;
      WalkAppend(a[1..], b);
    }
  }

  lemma {:induction false} TextContentAppend(a: seq<Node>, b: seq<Node>)
    ensures TextContent(a + b) == TextContent(a) + TextContent(b)
    decreases |a|
  {
    if a == [] {
      assert a + b == b;
    } else {
      assert (a + b)[0] == a[0];
      assert (a + b)[1..] == a[1..] + b;
      TextContentAppend(a[1..], b);
    }
  }

  /** The walk never changes the text a reader sees: dropped comments
      carried none, and a replaced element leaves its text behind. */
  lemma {:induction false} WalkKeepsText(nodes: seq<Node>)
    ensures TextContent(SanitizeChildren(nodes)) == TextContent(nodes)
    decreases nodes
  {
    if nodes != [] {
      ChildKeepsText(nodes[0]);
      WalkKeepsText(nodes[1..]);
      TextContentAppend(SanitizeChild(nodes[0]), SanitizeChildren(nodes[1..]));
    }
  }

  lemma {:induction false} ChildKeepsText(n: Node)
    ensures TextContent(SanitizeChild(n)) == NodeText(n)
    decreases n
  {
    match n
    case Comment(_) =>
    case Text(data) =>
      assert TextContent([n]) == data + TextContent([]);
    case Element(tag, attrs, children) =>
      var out := SanitizeChild(n);
      assert TextContent(out) == NodeText(out[0]) + TextContent([]);
      if IsAllowedTag(tag) {
        WalkKeepsText(children);
      }
  }

  /** The children that are not comments, in order. */
  function NonComments(nodes: seq<Node>): (r: seq<Node>)
    ensures |r| <= |nodes|
    ensures forall i :: 0 <= i < |r| ==> !r[i].Comment? && r[i] in nodes
  {
    if nodes == [] then []
    else (if nodes[0].Comment? then [] else [nodes[0]]) + NonComments(nodes[1..])
  }

  /** How one surviving child appears after the walk: a text node as it
      was, an element off the allowlist as exactly one text node with its
      `textContent`, an allowed element with the same tag, filtered
      attributes and walked children. */
  predicate Replaces(out: Node, n: Node) {
    match n
    case Comment(_) => false
    case Text(_) => out == n
    case Element(tag, attrs, children) =>
      if IsAllowedTag(tag) then
        out.Element? && out.tag == tag && out.attrs == SanitizeAttributes(attrs)
        && out.children == SanitizeChildren(children)
      else out == Text(TextContent(children))
  }

  /** The walk's output lines up one to one with the children that are not
      comments: same number, same order, each replaced as `Replaces` says. */
  lemma {:induction false} WalkShape(nodes: seq<Node>)
    ensures |SanitizeChildren(nodes)| == |NonComments(nodes)|
    ensures forall i :: 0 <= i < |NonComments(nodes)| ==> Replaces(SanitizeChildren(nodes)[i], NonComments(nodes)[i])
    decreases |nodes|
  {
    if nodes != [] {
      WalkShape(nodes[1..]);
      var head := SanitizeChild(nodes[0]);
      var rest := SanitizeChildren(nodes[1..]);
      var kept := (if nodes[0].Comment? then [] else [nodes[0]]);
      assert |head| == |kept|;
      assert forall i :: 0 <= i < |head| ==> Replaces(head[i], kept[i]);
      assert SanitizeChildren(nodes) == head + rest;
      assert NonComments(nodes) == kept + NonComments(nodes[1..]);
    }
  }

  /** A clean forest is left exactly as it is. */
  lemma {:induction false} CleanForestFixed(nodes: seq<Node>)
    requires IsCleanForest(nodes)
    ensures SanitizeChildren(nodes) == nodes
    decreases nodes
  {
    if nodes != [] {
      var n := nodes[0];
      assert IsCleanNode(n);
      match n {
        case Text(_) =>
        case Element(tag, attrs, children) =>
          CleanForestFixed(children);
          CleanIsFixed(attrs);
      }
      CleanForestFixed(nodes[1..]);
      assert nodes == [n] + nodes[1..];
    }
  }

  /** The walk leaves a forest alone exactly when it is clean. */
  lemma FixedIffCleanForest(nodes: seq<Node>)
    ensures SanitizeChildren(nodes) == nodes <==> IsCleanForest(nodes)
  {
    SanitizeChildrenIsClean(nodes);
    if IsCleanForest(nodes) {
      CleanForestFixed(nodes);
    }
  }

  /** Walking twice is walking once. */
  lemma WalkIdempotent(nodes: seq<Node>)
    ensures SanitizeChildren(SanitizeChildren(nodes)) == SanitizeChildren(nodes)
  {
    SanitizeChildrenIsClean(nodes);
    CleanForestFixed(SanitizeChildren(nodes));
  }

  /** `sanitizeNode` applied twice changes nothing more. */
  lemma SanitizeNodeIdempotent(root: Node)
    ensures SanitizeNode(SanitizeNode(root)) == SanitizeNode(root)
  {
    if root.Element? {
      WalkIdempotent(root.children);
    }
  }
}
