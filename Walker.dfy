/**
 * Rewriting one text node in place (`replaceTextInNode`, aitoslop.js:63-134) and the pass
 * over the text nodes under a root (`acceptNode` and `replaceTextInAllNodes`,
 * aitoslop.js:137-184).
 */
module Walker {
  import opened Wrappers
  import opened CharClass
  import opened Substitution
  import opened Patterns
  import opened Editable

  /** A DOM text node: its mutable text and its (fixed) parent element with that element's ancestors. */
  class TextNode {
    var textContent: string
    const parentElement: Option<ElementPath>

    constructor (text: string, parent: Option<ElementPath>)
      ensures textContent == text && parentElement == parent
    {
      textContent := text;
      parentElement := parent;
    }
  }

  /** Some pattern of the cascade matches in `text`. */
  predicate Changes(text: string) {
    Cascade(text).count > 0
  }

  /** The text a node ends up with: the cascade's output when some pattern matched, else the old text. */
  function Rewritten(text: string): string {
    if Changes(text) then Cascade(text).text else text
  }

  /** Some pattern matched exactly when the rewrite gives a different text: every match removes a letter i. */
  lemma ChangesIffNewText(text: string)
    ensures Changes(text) <==> Rewritten(text) != text
  {
    CascadeDropsI(text);
  }

  /**
   * `replaceTextInNode`: leaves a node under an editable element alone; otherwise runs the
   * six replacements, and writes the text back and reports a change exactly when at least
   * one pattern matched.
   */
  method ReplaceTextInNode(node: TextNode) returns (changed: bool)
    modifies node
    ensures changed == (!IsEditable(node.parentElement) && Changes(old(node.textContent)))
    ensures node.textContent == if IsEditable(node.parentElement) then old(node.textContent) else Rewritten(old(node.textContent))
  {
    var editable := IsEditableElement(node.parentElement);
    if editable {
      return false;
    }
    var originalText := node.textContent;
    CascadeInSteps(originalText);
    var newText := originalText;
    var replacements := 0;
    var r := Step(AppleIntelligence, newText);
    newText, replacements := r.text, replacements + r.count;
    r := Step(ArtificialIntelligence, newText);
    newText, replacements := r.text, replacements + r.count;
    r := Step(AiSlop, newText);
    newText, replacements := r.text, replacements + r.count;
    r := Step(AiCamelPrefix, newText);
    newText, replacements := r.text, replacements + r.count;
    r := Step(AiDotted, newText);
    newText, replacements := r.text, replacements + r.count;
    r := Step(BareAi, newText);
    newText, replacements := r.text, replacements + r.count;
    if replacements > 0 {
      node.textContent := newText;
      return true;
    }
    return false;
  }

  const SkipTags: seq<string> := ["script", "style", "noscript", "code", "pre"]

  /** The tree walker's `acceptNode`: true for FILTER_ACCEPT, false for FILTER_REJECT. */
  predicate AcceptNode(node: TextNode)
    ensures AcceptNode(node) ==> node.parentElement.Some? && !IsEditable(node.parentElement)
  {
    match node.parentElement
    case None => false
    case Some(parent) =>
      LowerStr(parent.element.tagName) !in SkipTags && !IsEditable(node.parentElement)
  }

  /**
   * A text node is accepted exactly when it has a parent whose tag is not skipped, no
   * element from the parent up is content-editable or has an editable tag, and the parent
   * has no editable role; of the skipped tags only the direct parent's counts.
   */
  lemma AcceptNodeIff(node: TextNode)
    ensures AcceptNode(node) <==>
            && node.parentElement.Some?
            && LowerStr(node.parentElement.value.element.tagName) !in SkipTags
            && (forall a :: a in [node.parentElement.value.element] + node.parentElement.value.ancestors ==> !LocksDescendants(a))
            && !HasEditableRole(node.parentElement.value.element)
  {
    EditableIff(node.parentElement);
  }

  /** The nodes the walker hands out, in document order. */
  function Eligible(nodes: seq<TextNode>): (r: seq<TextNode>)
    ensures forall i :: 0 <= i < |r| ==> r[i] in nodes && AcceptNode(r[i])
    ensures forall i :: 0 <= i < |nodes| && AcceptNode(nodes[i]) ==> nodes[i] in r
    ensures |r| <= |nodes|
    ensures Distinct(nodes) ==> Distinct(r)
  {
    if nodes == [] then []
    else
      var last := nodes[|nodes| - 1];
      var init := nodes[..|nodes| - 1];
      assert forall i :: 0 <= i < |nodes| - 1 ==> nodes[i] == init[i];
      Eligible(init) + (if AcceptNode(last) then [last] else [])
  }

  predicate Distinct(nodes: seq<TextNode>) {
    forall i, j :: 0 <= i < j < |nodes| ==> nodes[i] != nodes[j]
  }

  function Texts(nodes: seq<TextNode>): (r: seq<string>)
    reads set n | n in nodes
    ensures |r| == |nodes| && forall i :: 0 <= i < |nodes| ==> r[i] == nodes[i].textContent
  {
    if nodes == [] then [] else Texts(nodes[..|nodes| - 1]) + [nodes[|nodes| - 1].textContent]
  }

  /** How many of the texts the cascade matches in: the nodes whose rewrite reports a change. */
  function CountChanged(texts: seq<string>): (c: nat)
    ensures c <= |texts|
  {
    if texts == [] then 0
    else CountChanged(texts[..|texts| - 1]) + (if Changes(texts[|texts| - 1]) then 1 else 0)
  }

  lemma CountChangedSnoc(texts: seq<string>, j: nat)
    requires j < |texts|
    ensures CountChanged(texts[..j + 1]) == CountChanged(texts[..j]) + (if Changes(texts[j]) then 1 else 0)
  {
    assert texts[..j + 1][..j] == texts[..j];
  }

  function Under(root: Option<seq<TextNode>>): set<TextNode> {
    if root.None? then {} else set n | n in root.value
  }

  /**
   * The collecting loop of `replaceTextInAllNodes`: every node the tree walker yields
   * (those `acceptNode` accepts) is pushed onto `textNodes`, in order.
   */
  method CollectTextNodes(nodes: seq<TextNode>) returns (textNodes: seq<TextNode>)
    ensures textNodes == Eligible(nodes)
  {
    textNodes := [];
    var k := 0;
    while k < |nodes|
      invariant 0 <= k <= |nodes|
      invariant textNodes == Eligible(nodes[..k])
    {
      if AcceptNode(nodes[k]) {
        textNodes := textNodes + [nodes[k]];
      }
      assert nodes[..k + 1][..k] == nodes[..k];
      k := k + 1;
    }
    assert nodes[..k] == nodes;
  }

  /**
   * The `forEach` loop of `replaceTextInAllNodes`: rewrites each collected node and counts
   * those whose rewrite reports a change.
   */
  method RewriteCollected(textNodes: seq<TextNode>) returns (replacementsMade: nat)
    requires Distinct(textNodes)
    requires forall i :: 0 <= i < |textNodes| ==> !IsEditable(textNodes[i].parentElement)
    modifies set n | n in textNodes
    ensures replacementsMade == CountChanged(old(Texts(textNodes)))
    ensures forall i {:trigger Rewritten(old(textNodes[i].textContent))} :: 0 <= i < |textNodes| ==> textNodes[i].textContent == Rewritten(old(textNodes[i].textContent))
  {
    ghost var before := Texts(textNodes);
    replacementsMade := 0;
    var j := 0;
    while j < |textNodes|
      invariant 0 <= j <= |textNodes|
      invariant replacementsMade == CountChanged(before[..j])
      invariant forall i {:trigger Rewritten(before[i])} :: 0 <= i < j ==> textNodes[i].textContent == Rewritten(before[i])
      invariant forall i :: j <= i < |textNodes| ==> textNodes[i].textContent == before[i]
    {
      var node := textNodes[j];
      label pre:
      var changed := ReplaceTextInNode(node);
      if changed {
        replacementsMade := replacementsMade + 1;
      }
      CountChangedSnoc(before, j);
      forall i | 0 <= i < |textNodes| && i != j
        ensures textNodes[i].textContent == old@pre(textNodes[i].textContent)
      {
        assert textNodes[i] != node;
      }
      j := j + 1;
    }
    assert before[..j] == before;
  }

  /**
   * `replaceTextInAllNodes`: `root` is the text nodes under the root element in document
   * order, or None for a null root. Collects the accepted nodes first, then rewrites each,
   * and returns how many reported a change.
   */
  method ReplaceTextInAllNodes(root: Option<seq<TextNode>>) returns (replacementsMade: nat)
    requires root.Some? ==> Distinct(root.value)
    modifies Under(root)
    ensures root.None? ==> replacementsMade == 0
    ensures root.Some? ==> replacementsMade == CountChanged(old(Texts(Eligible(root.value))))
    ensures root.Some? ==> replacementsMade <= |Eligible(root.value)|
    ensures forall n :: n in Under(root) ==>
              n.textContent == if AcceptNode(n) then Rewritten(old(n.textContent)) else old(n.textContent)
  {
    if root.None? {
      return 0;
    }
    var textNodes := CollectTextNodes(root.value);
    replacementsMade := RewriteCollected(textNodes);
    forall n | n in Under(root)
      ensures n.textContent == if AcceptNode(n) then Rewritten(old(n.textContent)) else old(n.textContent)
    {
      if AcceptNode(n) {
        var i :| 0 <= i < |root.value| && root.value[i] == n;
        var k :| 0 <= k < |textNodes| && textNodes[k] == n;
      }
    }
  }
}
