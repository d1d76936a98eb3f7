/**
  * An abstract markup tree with the DOM operations the template editor
  * performs on a parsed document. A node is addressed by its path: the
  * sequence of child indices leading to it from the document element.
  * Semantics follow the WHATWG DOM Standard.
  */
module Dom {

  type Path = seq<nat>

  /** An element (tag name, attributes other than `style`, the inline style
      declarations and the child list), a text node or a comment node. */
  datatype Node =
    | Element(tag: string, attrs: map<string, string>, style: map<string, string>, children: seq<Node>)
    | Text(data: string)
    | Comment(data: string)

  /** What a node carries apart from its children. */
  datatype Label =
    | ElementLabel(tag: string, attrs: map<string, string>, style: map<string, string>)
    | TextLabel(data: string)
    | CommentLabel(data: string)

  function LabelOf(n: Node): Label {
    match n
    case Element(t, a, s, _) => ElementLabel(t, a, s)
    case Text(d) => TextLabel(d)
    case Comment(d) => CommentLabel(d)
  }

  predicate HasTag(n: Node, tag: string) {
    n.Element? && n.tag == tag
  }

  // ---------------------------------------------------------------- paths

  predicate ValidPath(n: Node, p: Path)
    decreases |p|
  {
    p == [] || (n.Element? && p[0] < |n.children| && ValidPath(n.children[p[0]], p[1..]))
  }

  /** The node at path `p`. */
  function At(n: Node, p: Path): Node
    requires ValidPath(n, p)
    decreases |p|
  {
    if p == [] then n else At(n.children[p[0]], p[1..])
  }

  /** `q` is `p` or an ancestor path of `p`. */
  predicate IsPrefix(q: Path, p: Path) {
    |q| <= |p| && p[..|q|] == q
  }

  /** Walking `p` and then `s` is walking `p + s`. */
  lemma {:induction false} AtConcat(n: Node, p: Path, s: Path)
    requires ValidPath(n, p)
    ensures ValidPath(n, p + s) <==> ValidPath(At(n, p), s)
    ensures ValidPath(n, p + s) ==> At(n, p + s) == At(At(n, p), s)
    decreases |p|
  {
    if p == [] {
      assert p + s == s;
    } else {
      assert (p + s)[0] == p[0] && (p + s)[1..] == p[1..] + s;
      AtConcat(n.children[p[0]], p[1..], s);
    }
  }

  /** Every ancestor path of a valid path is valid. */
  lemma {:induction false} PrefixValid(n: Node, p: Path, k: nat)
    requires ValidPath(n, p) && k <= |p|
    ensures ValidPath(n, p[..k])
    decreases |p|
  {
    if k > 0 {
      assert p[..k][0] == p[0] && p[..k][1..] == p[1..][..k - 1];
      PrefixValid(n.children[p[0]], p[1..], k - 1);
    }
  }

  // ---------------------------------------------------------- textContent

  /** The `textContent` getter: the data of a text or comment node; for an
      element, the data of its Text descendants in tree order. */
  function TextContent(n: Node): string {
    match n
    case Element(_, _, _, _) => DescendantText(n)
    case Text(d) => d
    case Comment(d) => d
  }

  function DescendantText(n: Node): string
    decreases n, 1
  {
    match n
    case Element(_, _, _, _) => TextBelow(n, 0)
    case Text(d) => d
    case Comment(_) => ""
  }

  /** The descendant text of the children from index `i` on. */
  function TextBelow(n: Node, i: nat): string
    requires n.Element? && i <= |n.children|
    decreases n, 0, |n.children| - i
  {
    if i == |n.children| then "" else DescendantText(n.children[i]) + TextBelow(n, i + 1)
  }

  // ---------------------------------------------------------------- edits

  /** The in-place mutations the editor performs, each on one node. */
  datatype Edit =
    | SetTextContent(value: string)       // node.textContent = value
    | SetAttribute(name: string, value: string)
    | SetStyleProperty(name: string, value: string)   // node.style[name] = value
    | ReplaceChildren(nodes: seq<Node>)   // innerHTML = '' is ReplaceChildren([])
    | AppendChild(child: Node)            // the child is a freshly created node
    | RemoveChild(index: nat)             // child.remove()

  predicate Applicable(n: Node, e: Edit) {
    match e
    case SetTextContent(_) => true
    case RemoveChild(i) => n.Element? && i < |n.children|
    case _ => n.Element?
  }

  /** The children an element is left with by `textContent = value`: the
      standard's "string replace all" creates no Text node for "". */
  function TextChildren(value: string): seq<Node> {
    if value == "" then [] else [Text(value)]
  }

  function Apply(n: Node, e: Edit): Node
    requires Applicable(n, e)
  {
    match e
    case SetTextContent(v) => if n.Element? then n.(children := TextChildren(v)) else n.(data := v)
    case SetAttribute(name, v) => n.(attrs := n.attrs[name := v])
    case SetStyleProperty(name, v) => n.(style := n.style[name := v])
    case ReplaceChildren(cs) => n.(children := cs)
    case AppendChild(c) => n.(children := n.children + [c])
    case RemoveChild(i) => n.(children := n.children[..i] + n.children[i + 1..])
  }

  /** Setting `textContent` makes it read back as the value set. */
  lemma SetTextContentReadsBack(n: Node, value: string)
    ensures TextContent(Apply(n, SetTextContent(value))) == value
  {
    var m := Apply(n, SetTextContent(value));
    if m.Element? {
      if value == "" {
        assert TextBelow(m, 0) == "";
      } else {
        assert m.children == [Text(value)];
        assert TextBelow(m, 1) == "";
        assert TextBelow(m, 0) == value + "";
      }
    }
  }

  /** The tree after applying `e` to the node at `p`. */
  function EditAt(n: Node, p: Path, e: Edit): Node
    requires ValidPath(n, p) && Applicable(At(n, p), e)
    decreases |p|
  {
    if p == [] then Apply(n, e)
    else n.(children := n.children[p[0] := EditAt(n.children[p[0]], p[1..], e)])
  }

  /** The tree after `child.remove()` for the node at `p`, which has a parent. */
  function RemoveAt(n: Node, p: Path): (r: Node)
    requires ValidPath(n, p) && p != []
  {
    var parent := p[..|p| - 1];
    PrefixValid(n, p, |p| - 1);
    assert parent + [p[|p| - 1]] == p;
    AtConcat(n, parent, [p[|p| - 1]]);
    EditAt(n, parent, RemoveChild(p[|p| - 1]))
  }

  /** Removing child `k` of the element at `g` leaves that element with the
      other children in order. */
  lemma RemoveChildAt(n: Node, g: Path, k: nat)
    requires ValidPath(n, g) && At(n, g).Element? && k < |At(n, g).children|
    ensures ValidPath(n, g + [k])
    ensures RemoveAt(n, g + [k]) == EditAt(n, g, RemoveChild(k))
    ensures ValidPath(RemoveAt(n, g + [k]), g)
    ensures At(RemoveAt(n, g + [k]), g) ==
      At(n, g).(children := At(n, g).children[..k] + At(n, g).children[k + 1..])
  {
    AtConcat(n, g, [k]);
    assert (g + [k])[..|g|] == g;
    EditAtTarget(n, g, RemoveChild(k));
  }

  /** Removing child `k` of the element at `g` leaves that element with the
      other children in order and changes nothing outside it. */
  lemma RemoveChildOf(n: Node, g: Path, k: nat)
    requires ValidPath(n, g) && At(n, g).Element? && k < |At(n, g).children|
    ensures ValidPath(n, g + [k])
    ensures RemoveAt(n, g + [k]) == EditAt(n, g, RemoveChild(k))
    ensures ValidPath(RemoveAt(n, g + [k]), g)
    ensures At(RemoveAt(n, g + [k]), g) ==
      At(n, g).(children := At(n, g).children[..k] + At(n, g).children[k + 1..])
    ensures SameOutside(n, RemoveAt(n, g + [k]), g)
  {
    RemoveChildAt(n, g, k);
    EditAtSameOutside(n, g, RemoveChild(k));
  }

  /** The edited node is still at `p` and is the edit applied to the old one. */
  lemma {:induction false} EditAtTarget(n: Node, p: Path, e: Edit)
    requires ValidPath(n, p) && Applicable(At(n, p), e)
    ensures ValidPath(EditAt(n, p, e), p)
    ensures At(EditAt(n, p, e), p) == Apply(At(n, p), e)
    decreases |p|
  {
    if p != [] {
      EditAtTarget(n.children[p[0]], p[1..], e);
    }
  }

  /** Outside the subtree at `p` nothing changes: the same paths exist, the
      nodes off the path from the root to `p` are untouched and the ancestors
      of `p` keep their own tag, attributes and style. */
  lemma {:induction false} EditAtElsewhere(n: Node, p: Path, e: Edit, q: Path)
    requires ValidPath(n, p) && Applicable(At(n, p), e)
    requires !IsPrefix(p, q)
    ensures ValidPath(EditAt(n, p, e), q) <==> ValidPath(n, q)
    ensures ValidPath(n, q) && !IsPrefix(q, p) ==> At(EditAt(n, p, e), q) == At(n, q)
    ensures ValidPath(n, q) && IsPrefix(q, p) ==> LabelOf(At(EditAt(n, p, e), q)) == LabelOf(At(n, q))
    decreases |p|
  {
    assert p != [];
    var r := EditAt(n, p, e);
    if q != [] && q[0] == p[0] {
      assert !IsPrefix(p[1..], q[1..]);
      assert IsPrefix(q, p) <==> IsPrefix(q[1..], p[1..]);
      EditAtElsewhere(n.children[p[0]], p[1..], e, q[1..]);
    }
  }

  /** The edit of a node that keeps its children changes no other node: the
      same paths exist and every other node keeps its tag, attributes, style
      and text. */
  lemma EditAtKeepsOthers(n: Node, p: Path, e: Edit, q: Path)
    requires ValidPath(n, p) && Applicable(At(n, p), e)
    requires Apply(At(n, p), e).Element? && Apply(At(n, p), e).children == At(n, p).children
    requires q != p
    ensures ValidPath(EditAt(n, p, e), q) <==> ValidPath(n, q)
    ensures ValidPath(n, q) ==> LabelOf(At(EditAt(n, p, e), q)) == LabelOf(At(n, q))
  {
    var r := EditAt(n, p, e);
    EditAtTarget(n, p, e);
    if IsPrefix(p, q) {
      var s := q[|p|..];
      assert q == p + s;
      assert s != [];
      AtConcat(n, p, s);
      AtConcat(r, p, s);
      assert ValidPath(At(r, p), s) <==> ValidPath(At(n, p), s);
      if ValidPath(n, q) {
        assert At(At(r, p), s) == At(At(n, p), s);
      }
    } else {
      EditAtElsewhere(n, p, e, q);
    }
  }

  /** Appending to a node whose children were just replaced by `cs` is
      replacing them by `cs` followed by the new child. */
  lemma {:induction false} ReplaceChildrenThenAppend(n: Node, p: Path, cs: seq<Node>, c: Node)
    requires ValidPath(n, p) && At(n, p).Element?
    ensures ValidPath(EditAt(n, p, ReplaceChildren(cs)), p)
    ensures At(EditAt(n, p, ReplaceChildren(cs)), p) == At(n, p).(children := cs)
    ensures EditAt(EditAt(n, p, ReplaceChildren(cs)), p, AppendChild(c)) == EditAt(n, p, ReplaceChildren(cs + [c]))
    decreases |p|
  {
    EditAtTarget(n, p, ReplaceChildren(cs));
    if p != [] {
      ReplaceChildrenThenAppend(n.children[p[0]], p[1..], cs, c);
    }
  }

  /** `after` differs from `before` only inside the subtree at `p`: the same
      paths exist outside it, the nodes off the way to `p` are the same and
      the ancestors of `p` keep their own tag, attributes and style. */
  ghost predicate SameOutside(before: Node, after: Node, p: Path) {
    forall q :: !IsPrefix(p, q) ==>
      (ValidPath(after, q) <==> ValidPath(before, q)) &&
      (ValidPath(before, q) && !IsPrefix(q, p) ==> At(after, q) == At(before, q)) &&
      (ValidPath(before, q) && IsPrefix(q, p) ==> LabelOf(At(after, q)) == LabelOf(At(before, q)))
  }

  /** `after` has the shape of `before` and every node but the one at `p`
      keeps its tag, attributes, style and text. */
  ghost predicate OnlyNodeChanged(before: Node, after: Node, p: Path) {
    (forall q :: ValidPath(after, q) <==> ValidPath(before, q)) &&
    (forall q :: ValidPath(before, q) && q != p ==> LabelOf(At(after, q)) == LabelOf(At(before, q)))
  }

  lemma EditAtSameOutside(n: Node, p: Path, e: Edit)
    requires ValidPath(n, p) && Applicable(At(n, p), e)
    ensures SameOutside(n, EditAt(n, p, e), p)
  {
    forall q | !IsPrefix(p, q) {
      EditAtElsewhere(n, p, e, q);
    }
  }

  /** Changes confined to the subtree at `p`, one after another, stay confined
      to it. */
  lemma SameOutsideTrans(a: Node, b: Node, c: Node, p: Path)
    requires SameOutside(a, b, p) && SameOutside(b, c, p)
    ensures SameOutside(a, c, p)
  {
    forall q | !IsPrefix(p, q)
      ensures (ValidPath(c, q) <==> ValidPath(a, q))
      ensures ValidPath(a, q) && !IsPrefix(q, p) ==> At(c, q) == At(a, q)
      ensures ValidPath(a, q) && IsPrefix(q, p) ==> LabelOf(At(c, q)) == LabelOf(At(a, q))
    {
      assert ValidPath(b, q) <==> ValidPath(a, q);
    }
  }

  lemma EditAtOnlyNodeChanged(n: Node, p: Path, e: Edit)
    requires ValidPath(n, p) && Applicable(At(n, p), e)
    requires Apply(At(n, p), e).Element? && Apply(At(n, p), e).children == At(n, p).children
    ensures OnlyNodeChanged(n, EditAt(n, p, e), p)
  {
    var r := EditAt(n, p, e);
    EditAtTarget(n, p, e);
    forall q ensures ValidPath(r, q) <==> ValidPath(n, q) {
      if q != p {
        EditAtKeepsOthers(n, p, e, q);
      }
    }
    forall q | ValidPath(n, q) && q != p ensures LabelOf(At(r, q)) == LabelOf(At(n, q)) {
      EditAtKeepsOthers(n, p, e, q);
    }
  }
}
