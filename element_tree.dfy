/**
  The part of Python's xml.etree.ElementTree that the converter relies on: an
  already-parsed element tree, and the ElementPath lookups `findall`/`find` for
  paths built from child steps (`tcx:Lap`) and descendant steps (`.//tcx:Lap`).
  Tags are qualified names, which is what the `ns` prefix map of the converter
  resolves `tcx:` and `ext:` to.
*/
module ElementTree {
  import opened Options

  /** A tag `{ns}local`; `ns` is "" for a tag outside any namespace. */
  datatype QName = QName(ns: string, local: string)

  /** One element: its tag, its attributes, its text (None when the element has no
      text before its first child) and its child elements in document order. */
  datatype Element = Element(
    tag: QName,
    attrs: map<string, string>,
    text: Option<string>,
    children: seq<Element>)

  /** What `ET.fromstring` gives back: a root element, or a syntax error for input
      that is not well-formed XML. The byte-level parser itself is not modelled. */
  datatype ParseOutcome = Parsed(root: Element) | SyntaxError

  /** `Element.__bool__`: an element is true exactly when it has child elements;
      its text and attributes play no part. */
  predicate Truthy(e: Element) {
    |e.children| != 0
  }

  /** `Element.get(name, default)`. */
  function Get(e: Element, name: string, default: string): string {
    if name in e.attrs then e.attrs[name] else default
  }

  /** Number of elements in the subtree rooted at `e`, `e` included. */
  function Size(e: Element): nat
    decreases e, 1, 0
  {
    1 + SizeFrom(e, 0)
  }

  function SizeFrom(e: Element, k: nat): nat
    requires k <= |e.children|
    decreases e, 0, |e.children| - k
  {
    if k == |e.children| then 0 else Size(e.children[k]) + SizeFrom(e, k + 1)
  }

  /** The elements strictly below `e` in document order (pre-order): `e.iter()`
      with `e` itself left out, which is what a `.//tag` step walks. */
  function Descendants(e: Element): seq<Element>
    decreases e, 1, 0
  {
    DescendantsFrom(e, 0)
  }

  /** Pre-order of the subtrees of `e.children[k..]`. */
  function DescendantsFrom(e: Element, k: nat): seq<Element>
    requires k <= |e.children|
    decreases e, 0, |e.children| - k
  {
    if k == |e.children| then []
    else [e.children[k]] + Descendants(e.children[k]) + DescendantsFrom(e, k + 1)
  }

  /** One step of an ElementPath expression: `q` selects the children tagged `q`,
      `.//q` the descendants tagged `q`. */
  datatype Step = Child(tag: QName) | Descendant(tag: QName)

  /** The elements of `xs` tagged `q`, in their order. */
  function Tagged(xs: seq<Element>, q: QName): seq<Element> {
    if xs == [] then []
    else (if xs[0].tag == q then [xs[0]] else []) + Tagged(xs[1..], q)
  }

  /** What one step selects from one context element. */
  function Apply(x: Element, step: Step): seq<Element> {
    match step
    case Child(q) => Tagged(x.children, q)
    case Descendant(q) => Tagged(Descendants(x), q)
  }

  /** What one step selects from a whole context, element by element; ElementPath
      chains its selectors this way and does not remove repeats. */
  function ApplyAll(ctx: seq<Element>, step: Step): seq<Element> {
    if ctx == [] then [] else Apply(ctx[0], step) + ApplyAll(ctx[1..], step)
  }

  function Select(ctx: seq<Element>, path: seq<Step>): seq<Element>
    decreases |path|
  {
    if path == [] then ctx else Select(ApplyAll(ctx, path[0]), path[1..])
  }

  /** `e.findall(path)`: every match, in document order. */
  function FindAll(e: Element, path: seq<Step>): seq<Element> {
    Select([e], path)
  }

  /** `e.find(path)`: the first match, or None. */
  function Find(e: Element, path: seq<Step>): Option<Element> {
    var all := FindAll(e, path);
    if all == [] then None else Some(all[0])
  }

  // ---------------------------------------------------------------------------
  // Properties of the tree walk and of the path lookups

  lemma {:induction false} TaggedMembers(xs: seq<Element>, q: QName, x: Element)
    ensures x in Tagged(xs, q) <==> x in xs && x.tag == q
  {
    if xs != [] {
      TaggedMembers(xs[1..], q, x);
      assert xs == [xs[0]] + xs[1..];
    }
  }

  lemma {:induction false} DescendantsFromMembers(e: Element, k: nat, d: Element)
    requires k <= |e.children|
    ensures d in DescendantsFrom(e, k) <==>
      exists m :: k <= m < |e.children| && (d == e.children[m] || d in Descendants(e.children[m]))
    decreases |e.children| - k
  {
    if k < |e.children| {
      DescendantsFromMembers(e, k + 1, d);
      if d == e.children[k] || d in Descendants(e.children[k]) {
        assert d in DescendantsFrom(e, k);
      }
    }
  }

  /** An element lies strictly below `e` exactly when it is a child of `e` or lies
      below one: the `.//` step reaches every depth and nothing else. */
  lemma DescendantsMembers(e: Element, d: Element)
    ensures d in Descendants(e) <==>
      exists m :: 0 <= m < |e.children| && (d == e.children[m] || d in Descendants(e.children[m]))
  {
    DescendantsFromMembers(e, 0, d);
  }

  lemma {:induction false} DescendantsFromSmaller(e: Element, k: nat)
    requires k <= |e.children|
    ensures forall d :: d in DescendantsFrom(e, k) ==> Size(d) <= SizeFrom(e, k)
    decreases e, 0, |e.children| - k
  {
    if k < |e.children| {
      DescendantsSmaller(e.children[k]);
      DescendantsFromSmaller(e, k + 1);
    }
  }

  /** Every element strictly below `e` roots a smaller subtree than `e` does. */
  lemma {:induction false} DescendantsSmaller(e: Element)
    ensures forall d :: d in Descendants(e) ==> Size(d) < Size(e)
    decreases e, 1, 0
  {
    DescendantsFromSmaller(e, 0);
  }

  /** A `.//q` search never returns the element it starts from. */
  lemma SelfNotDescendant(e: Element)
    ensures e !in Descendants(e)
    ensures e !in FindAll(e, [Descendant(e.tag)])
  {
    DescendantsSmaller(e);
    FindAllDescendant(e, e.tag, e);
  }

  lemma ApplyAllOne(e: Element, step: Step)
    ensures ApplyAll([e], step) == Apply(e, step)
  {
    assert [e][1..] == [];
  }

  lemma SelectOneStep(ctx: seq<Element>, step: Step)
    ensures Select(ctx, [step]) == ApplyAll(ctx, step)
  {
    assert [step][1..] == [];
  }

  /** A child step from `e` returns the children of `e` tagged `q`, in child order. */
  lemma FindAllChild(e: Element, q: QName, x: Element)
    ensures FindAll(e, [Child(q)]) == Tagged(e.children, q)
    ensures x in FindAll(e, [Child(q)]) <==> x in e.children && x.tag == q
  {
    SelectOneStep([e], Child(q));
    ApplyAllOne(e, Child(q));
    TaggedMembers(e.children, q, x);
  }

  /** A descendant step from `e` returns the elements below `e` tagged `q`, in
      document order. */
  lemma FindAllDescendant(e: Element, q: QName, x: Element)
    ensures FindAll(e, [Descendant(q)]) == Tagged(Descendants(e), q)
    ensures x in FindAll(e, [Descendant(q)]) <==> x in Descendants(e) && x.tag == q
  {
    SelectOneStep([e], Descendant(q));
    ApplyAllOne(e, Descendant(q));
    TaggedMembers(Descendants(e), q, x);
  }

  lemma {:induction false} ApplyAllTags(ctx: seq<Element>, step: Step)
    ensures forall x :: x in ApplyAll(ctx, step) ==> x.tag == step.tag
  {
    if ctx != [] {
      ApplyAllTags(ctx[1..], step);
      var x0 := ctx[0];
      match step
      case Child(q) =>
        forall x | x in Tagged(x0.children, q) ensures x.tag == q {
          TaggedMembers(x0.children, q, x);
        }
      case Descendant(q) =>
        forall x | x in Tagged(Descendants(x0), q) ensures x.tag == q {
          TaggedMembers(Descendants(x0), q, x);
        }
    }
  }

  lemma {:induction false} SelectTags(ctx: seq<Element>, path: seq<Step>)
    requires path != []
    ensures forall x :: x in Select(ctx, path) ==> x.tag == path[|path| - 1].tag
    decreases |path|
  {
    ApplyAllTags(ctx, path[0]);
    if |path| > 1 {
      SelectTags(ApplyAll(ctx, path[0]), path[1..]);
    }
  }

  /** Whatever `find` returns carries the tag named by the last step of the path. */
  lemma FindTag(e: Element, path: seq<Step>)
    requires path != []
    ensures Find(e, path).Some? ==> Find(e, path).value.tag == path[|path| - 1].tag
  {
    SelectTags([e], path);
  }

  lemma {:induction false} ApplyAllMembers(ctx: seq<Element>, step: Step, x: Element)
    ensures x in ApplyAll(ctx, step) <==> exists y :: y in ctx && x in Apply(y, step)
  {
    if ctx != [] {
      ApplyAllMembers(ctx[1..], step, x);
      assert ctx == [ctx[0]] + ctx[1..];
    }
  }

  /** The first element of `cs` that has a child tagged `b`. */
  function FirstWithChild(cs: seq<Element>, b: QName): (r: Option<Element>)
    ensures r.Some? ==> r.value in cs && Tagged(r.value.children, b) != []
    ensures r.None? <==> forall c :: c in cs ==> Tagged(c.children, b) == []
  {
    if cs == [] then None
    else if Tagged(cs[0].children, b) != [] then Some(cs[0])
    else FirstWithChild(cs[1..], b)
  }

  /** A child step from a context selects nothing exactly when no context
      element has such a child; otherwise its first pick is the first such
      child of the first context element that has one. */
  lemma {:induction false} ApplyAllChildFirst(cs: seq<Element>, b: QName)
    ensures ApplyAll(cs, Child(b)) == [] <==> FirstWithChild(cs, b).None?
    ensures FirstWithChild(cs, b).Some? ==>
      ApplyAll(cs, Child(b))[0] == Tagged(FirstWithChild(cs, b).value.children, b)[0]
  {
    if cs != [] {
      ApplyAllChildFirst(cs[1..], b);
    }
  }

  /** `find("a/b")` on `e` misses exactly when no child of `e` tagged `a` has a
      child tagged `b`. When it hits, the result is the first `b` child of the
      first `a` child that has one, in document order. */
  lemma FindChildOfChild(e: Element, a: QName, b: QName)
    ensures Find(e, [Child(a), Child(b)]).None? <==>
      forall c, g :: c in e.children && c.tag == a && g in c.children ==> g.tag != b
    ensures Find(e, [Child(a), Child(b)]) ==
      match FirstWithChild(Tagged(e.children, a), b)
      case None => None
      case Some(c) => Some(Tagged(c.children, b)[0])
    ensures Find(e, [Child(a), Child(b)]).Some? ==>
      exists c :: c in e.children && c.tag == a &&
        Find(e, [Child(a), Child(b)]).value in c.children &&
        Find(e, [Child(a), Child(b)]).value.tag == b
  {
    ApplyAllChildFirst(Tagged(e.children, a), b);
    var cs := ApplyAll([e], Child(a));
    ApplyAllOne(e, Child(a));
    var gs := ApplyAll(cs, Child(b));
    var path := [Child(a), Child(b)];
    assert path[1..] == [Child(b)];
    SelectOneStep(cs, Child(b));
    assert FindAll(e, path) == gs;
    forall c, g | c in e.children && c.tag == a && g in c.children && g.tag == b
      ensures gs != []
    {
      TaggedMembers(e.children, a, c);
      TaggedMembers(c.children, b, g);
      ApplyAllMembers(cs, Child(b), g);
    }
    if gs != [] {
      var x := gs[0];
      ApplyAllMembers(cs, Child(b), x);
      var c :| c in cs && x in Apply(c, Child(b));
      TaggedMembers(e.children, a, c);
      TaggedMembers(c.children, b, x);
    }
  }
}
