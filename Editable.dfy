/**
 * `isEditableElement` (aitoslop.js:11-60): whether an element, or the chain of elements
 * above it, is a place where the user types, so that its text must be left alone.
 */
module Editable {
  import opened Wrappers
  import opened CharClass

  /** What the classifier reads of one element. */
  datatype Element = Element(
    tagName: string,                      // `element.tagName`
    contentEditable: string,              // the `contentEditable` property
    contentEditableAttr: Option<string>,  // `getAttribute('contenteditable')`
    role: Option<string>)                 // `getAttribute('role')`

  /** An element together with its `parentElement` chain: `ancestors[0]` is its parent, the last one the root. */
  datatype ElementPath = ElementPath(element: Element, ancestors: seq<Element>)

  const EditableTags: seq<string> := ["input", "textarea", "select", "option", "button", "label"]
  const EditableRoles: seq<string> := ["textbox", "searchbox", "combobox", "spinbutton"]
  /** The type selectors of `form input, form textarea, form select`, and the one they must sit under. */
  const FormControlTags: seq<string> := ["input", "textarea", "select"]

  predicate HasEditableTag(e: Element) {
    LowerStr(e.tagName) in EditableTags
  }

  predicate IsContentEditable(e: Element) {
    e.contentEditable == "true" || e.contentEditableAttr == Some("true")
  }

  /** A role is checked only when present and non-empty (`role && …`). */
  predicate HasEditableRole(e: Element) {
    e.role.Some? && e.role.value != "" && e.role.value in EditableRoles
  }

  /**
   * `element.closest('form input, form textarea, form select')` is non-null: the element or
   * one of its ancestors is an input, textarea or select with a form above it.
   */
  predicate InFormControl(p: ElementPath)
    ensures InFormControl(p) ==> |p.ancestors| > 0  // a form control inside a form is never the root
  {
    var chain := [p.element] + p.ancestors;
    exists k, j :: 0 <= k < j < |chain| &&
      LowerStr(chain[k].tagName) in FormControlTags && LowerStr(chain[j].tagName) == "form"
  }

  /** The `while (parent)` walk: some ancestor is content-editable or has an editable tag. */
  predicate AncestorEditable(ancestors: seq<Element>)
    decreases |ancestors|
  {
    |ancestors| > 0 &&
    (IsContentEditable(ancestors[0]) || HasEditableTag(ancestors[0]) || AncestorEditable(ancestors[1..]))
  }

  /** The classifier's rule, check by check in the order the script makes them. */
  predicate IsEditable(el: Option<ElementPath>)
    ensures IsEditable(el) ==> el.Some?
  {
    match el
    case None => false
    case Some(p) =>
      HasEditableTag(p.element) || IsContentEditable(p.element) || InFormControl(p) ||
      HasEditableRole(p.element) || AncestorEditable(p.ancestors)
  }

  /** `isEditableElement`, walking the ancestor chain with a loop. */
  method IsEditableElement(el: Option<ElementPath>) returns (editable: bool)
    ensures editable == IsEditable(el)
  {
    if el.None? {
      return false;
    }
    var p := el.value;
    if HasEditableTag(p.element) || IsContentEditable(p.element) || InFormControl(p) || HasEditableRole(p.element) {
      return true;
    }
    var k := 0;
    while k < |p.ancestors|
      invariant 0 <= k <= |p.ancestors|
      invariant AncestorEditable(p.ancestors) == AncestorEditable(p.ancestors[k..])
    {
      var parent := p.ancestors[k];
      if IsContentEditable(parent) || HasEditableTag(parent) {
        return true;
      }
      assert p.ancestors[k..][1..] == p.ancestors[k + 1..];
      k := k + 1;
    }
    return false;
  }

  /** An element that makes its descendants' text editable: an editable tag or `contenteditable="true"`. */
  predicate LocksDescendants(e: Element) {
    HasEditableTag(e) || IsContentEditable(e)
  }

  lemma {:induction false} AncestorEditableIff(ancestors: seq<Element>)
    ensures AncestorEditable(ancestors) <==> exists a :: a in ancestors && LocksDescendants(a)
    decreases |ancestors|
  {
    if |ancestors| > 0 {
      AncestorEditableIff(ancestors[1..]);
      assert forall a :: a in ancestors <==> a == ancestors[0] || a in ancestors[1..];
      assert LocksDescendants(ancestors[0]) ==> ancestors[0] in ancestors;
    }
  }

  /** The `closest` check never decides anything: a form control it finds has an editable tag. */
  lemma InFormControlRedundant(p: ElementPath)
    ensures InFormControl(p) ==> exists a :: a in [p.element] + p.ancestors && HasEditableTag(a)
  {
    if InFormControl(p) {
      var chain := [p.element] + p.ancestors;
      var k, j :| 0 <= k < j < |chain| &&
        LowerStr(chain[k].tagName) in FormControlTags && LowerStr(chain[j].tagName) == "form";
      assert HasEditableTag(chain[k]);
    }
  }

  /**
   * A null element is not editable. An element is editable exactly when it or one of its
   * ancestors has an editable tag or is content-editable, or it itself has an editable
   * role; the role of an ancestor never counts.
   */
  lemma EditableIff(el: Option<ElementPath>)
    ensures el.None? ==> !IsEditable(el)
    ensures el.Some? ==>
            (IsEditable(el) <==>
              (exists a :: a in [el.value.element] + el.value.ancestors && LocksDescendants(a))
              || HasEditableRole(el.value.element))
  {
    if el.Some? {
      var p := el.value;
      AncestorEditableIff(p.ancestors);
      InFormControlRedundant(p);
      var chain := [p.element] + p.ancestors;
      assert forall a :: a in chain <==> a == p.element || a in p.ancestors;
      assert LocksDescendants(p.element) ==> p.element in chain;
    }
  }
}
