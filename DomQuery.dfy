/**
  * The lookups the template editor makes: `querySelector`,
  * `querySelectorAll`, `Array.prototype.find` over its result, and
  * `closest`. Tree order is pre-order: a node comes before its
  * descendants, and an earlier sibling's subtree before a later sibling.
  */
module DomQuery {
  import opened Wrappers
  import opened JsString
  import opened Dom

  /** The selectors the editor uses, plus the `find` predicate it applies
      to the `th` elements (which is not a CSS selector). */
  datatype Query =
    | Tag(tag: string)                                  // 'h1', 'th', 'tbody'
    | TagAttr(tag: string, attr: string, value: string) // 'img[alt="…"]'
    | TagTrimmedText(tag: string, text: string)         // a `tag` whose textContent.trim() is `text`

  predicate Matches(n: Node, q: Query) {
    n.Element? &&
    match q
    case Tag(t) => n.tag == t
    case TagAttr(t, a, v) => n.tag == t && a in n.attrs && n.attrs[a] == v
    case TagTrimmedText(t, s) => n.tag == t && Trim(TextContent(n)) == s
  }

  /** Queries decided by a node's own tag and attributes (CSS selectors). */
  predicate IsSelector(q: Query) {
    !q.TagTrimmedText?
  }

  /** Pre-order on paths: `p` comes no later than `q` in tree order. */
  predicate PreOrderLe(p: Path, q: Path)
    decreases |p|
  {
    p == [] || (q != [] && (p[0] < q[0] || (p[0] == q[0] && PreOrderLe(p[1..], q[1..]))))
  }

  function Head(ps: seq<Path>): Option<Path> {
    if ps == [] then None else Some(ps[0])
  }

  /** Puts child index `i` in front of every path. */
  function Prepend(i: nat, ps: seq<Path>): (r: seq<Path>)
    ensures |r| == |ps|
  {
    if ps == [] then [] else [[i] + ps[0]] + Prepend(i, ps[1..])
  }

  // ------------------------------------------------------ querySelectorAll

  /** Every node of the subtree at `n` (itself included) matching `q`, in
      tree order. */
  function AllMatches(n: Node, q: Query): seq<Path>
    decreases n, 1
  {
    (if Matches(n, q) then [[]] else []) + (if n.Element? then AllBelow(n, q, 0) else [])
  }

  /** The matches in the subtrees of the children from index `i` on. */
  function AllBelow(n: Node, q: Query, i: nat): seq<Path>
    requires n.Element? && i <= |n.children|
    decreases n, 0, |n.children| - i
  {
    if i == |n.children| then [] else Prepend(i, AllMatches(n.children[i], q)) + AllBelow(n, q, i + 1)
  }

  // --------------------------------------------------------- querySelector

  /** The first node of the subtree at `n` (itself included) matching `q`.
      `document.querySelector` is this on the document element, which is the
      document's only element child. */
  function FirstMatch(n: Node, q: Query): (r: Option<Path>)
    ensures r.Some? ==> ValidPath(n, r.value) && Matches(At(n, r.value), q)
    decreases n, 1
  {
    if Matches(n, q) then Some([])
    else if n.Element? then FirstBelow(n, q, 0)
    else None
  }

  /** The first match in the subtrees of the children from index `i` on.
      `element.querySelector` is this with `i == 0`: it looks at the
      descendants only. */
  function FirstBelow(n: Node, q: Query, i: nat): (r: Option<Path>)
    requires n.Element? && i <= |n.children|
    ensures r.Some? ==> |r.value| >= 1 && r.value[0] >= i
    ensures r.Some? ==> ValidPath(n, r.value) && Matches(At(n, r.value), q)
    decreases n, 0, |n.children| - i
  {
    if i == |n.children| then None
    else match FirstMatch(n.children[i], q)
      case Some(s) => assert ([i] + s)[1..] == s; Some([i] + s)
      case None => FirstBelow(n, q, i + 1)
  }

  /** `querySelector` finds the earliest match in tree order, and finds one
      whenever there is one. */
  lemma {:induction false} FirstMatchIsFirst(n: Node, q: Query, p: Path)
    requires ValidPath(n, p) && Matches(At(n, p), q)
    ensures FirstMatch(n, q).Some? && PreOrderLe(FirstMatch(n, q).value, p)
    decreases n, 1
  {
    if !Matches(n, q) {
      assert p != [];
      FirstBelowIsFirst(n, q, 0, p);
    }
  }

  lemma {:induction false} FirstBelowIsFirst(n: Node, q: Query, i: nat, p: Path)
    requires n.Element? && i <= |n.children|
    requires ValidPath(n, p) && p != [] && p[0] >= i && Matches(At(n, p), q)
    ensures FirstBelow(n, q, i).Some? && PreOrderLe(FirstBelow(n, q, i).value, p)
    decreases n, 0, |n.children| - i
  {
    var m := FirstMatch(n.children[i], q);
    if p[0] == i {
      FirstMatchIsFirst(n.children[i], q, p[1..]);
      assert ([i] + m.value)[1..] == m.value;
    } else if m.None? {
      FirstBelowIsFirst(n, q, i + 1, p);
    }
  }

  /** `querySelector` answers null exactly when nothing matches. */
  lemma FirstMatchNone(n: Node, q: Query)
    ensures FirstMatch(n, q).None? ==> forall p :: ValidPath(n, p) ==> !Matches(At(n, p), q)
    ensures (forall p :: ValidPath(n, p) ==> !Matches(At(n, p), q)) ==> FirstMatch(n, q).None?
  {
    var r := FirstMatch(n, q);
    if r.Some? {
      assert ValidPath(n, r.value) && Matches(At(n, r.value), q);
    } else {
      forall p | ValidPath(n, p) ensures !Matches(At(n, p), q) {
        if Matches(At(n, p), q) {
          FirstMatchIsFirst(n, q, p);
        }
      }
    }
  }

  /** `querySelector` answers the first element of `querySelectorAll`. */
  lemma {:induction false} FirstMatchIsHead(n: Node, q: Query)
    ensures FirstMatch(n, q) == Head(AllMatches(n, q))
    decreases n, 1
  {
    if !Matches(n, q) && n.Element? {
      FirstBelowIsHead(n, q, 0);
      assert AllMatches(n, q) == AllBelow(n, q, 0);
    }
  }

  lemma {:induction false} FirstBelowIsHead(n: Node, q: Query, i: nat)
    requires n.Element? && i <= |n.children|
    ensures FirstBelow(n, q, i) == Head(AllBelow(n, q, i))
    decreases n, 0, |n.children| - i
  {
    if i < |n.children| {
      FirstMatchIsHead(n.children[i], q);
      FirstBelowIsHead(n, q, i + 1);
    }
  }

  /** An edit of the first match of a selector after which it still
      matches keeps it the first match. */
  lemma {:induction false} FirstMatchAfterEdit(n: Node, q: Query, p: Path, e: Edit)
    requires IsSelector(q) && FirstMatch(n, q) == Some(p)
    requires Applicable(At(n, p), e) && Matches(Apply(At(n, p), e), q)
    ensures FirstMatch(EditAt(n, p, e), q) == Some(p)
    decreases n, 1
  {
    if p != [] {
      FirstBelowAfterEdit(n, q, 0, p, e);
    }
  }

  lemma {:induction false} FirstBelowAfterEdit(n: Node, q: Query, i: nat, p: Path, e: Edit)
    requires IsSelector(q) && n.Element? && i <= |n.children|
    requires FirstBelow(n, q, i) == Some(p)
    requires Applicable(At(n, p), e) && Matches(Apply(At(n, p), e), q)
    ensures ValidPath(n, p) && FirstBelow(EditAt(n, p, e), q, i) == Some(p)
    decreases n, 0, |n.children| - i
  {
    var r := EditAt(n, p, e);
    if FirstMatch(n.children[i], q).Some? {
      assert p == [i] + p[1..];
      FirstMatchAfterEdit(n.children[i], q, p[1..], e);
    } else {
      assert r.children[i] == n.children[i];
      FirstBelowAfterEdit(n, q, i + 1, p, e);
    }
  }

  // ------------------------------------------------- find over th elements

  /** The `find` predicate: the node at `p` has trimmed text content `text`. */
  predicate HasTrimmedText(n: Node, p: Path, text: string) {
    ValidPath(n, p) && Trim(TextContent(At(n, p))) == text
  }

  /** `paths.find(p => node p's textContent.trim() === text)` */
  function FindByTrimmedText(n: Node, ps: seq<Path>, text: string): (r: Option<Path>)
    ensures r.Some? ==> r.value in ps && HasTrimmedText(n, r.value, text)
  {
    if ps == [] then None
    else if HasTrimmedText(n, ps[0], text) then Some(ps[0])
    else FindByTrimmedText(n, ps[1..], text)
  }

  /** `paths.filter(p => node p's textContent.trim() === text)` */
  function KeepByTrimmedText(n: Node, ps: seq<Path>, text: string): seq<Path> {
    if ps == [] then []
    else (if HasTrimmedText(n, ps[0], text) then [ps[0]] else []) + KeepByTrimmedText(n, ps[1..], text)
  }

  lemma {:induction false} FindIsHeadOfKeep(n: Node, ps: seq<Path>, text: string)
    ensures FindByTrimmedText(n, ps, text) == Head(KeepByTrimmedText(n, ps, text))
  {
    if ps != [] {
      FindIsHeadOfKeep(n, ps[1..], text);
    }
  }

  lemma {:induction false} KeepAppend(n: Node, a: seq<Path>, b: seq<Path>, text: string)
    ensures KeepByTrimmedText(n, a + b, text) == KeepByTrimmedText(n, a, text) + KeepByTrimmedText(n, b, text)
  {
    if a == [] {
      assert a + b == b;
    } else {
      var x, rest := a[0], a[1..];
      assert a + b == [x] + (rest + b);
      KeepCons(n, x, rest + b, text);
      KeepAppend(n, rest, b, text);
    }
  }

  lemma KeepCons(n: Node, x: Path, ps: seq<Path>, text: string)
    ensures KeepByTrimmedText(n, [x] + ps, text) ==
      (if HasTrimmedText(n, x, text) then [x] else []) + KeepByTrimmedText(n, ps, text)
  {
    assert ([x] + ps)[0] == x && ([x] + ps)[1..] == ps;
  }

  lemma {:induction false} PrependAppend(i: nat, a: seq<Path>, b: seq<Path>)
    ensures Prepend(i, a + b) == Prepend(i, a) + Prepend(i, b)
  {
    if a == [] {
      assert a + b == b;
    } else {
      assert (a + b)[0] == a[0] && (a + b)[1..] == a[1..] + b;
      PrependAppend(i, a[1..], b);
    }
  }

  lemma {:induction false} KeepPrepend(n: Node, i: nat, ps: seq<Path>, text: string)
    requires n.Element? && i < |n.children|
    ensures KeepByTrimmedText(n, Prepend(i, ps), text) == Prepend(i, KeepByTrimmedText(n.children[i], ps, text))
  {
    if ps != [] {
      var p := [i] + ps[0];
      assert p[0] == i && p[1..] == ps[0];
      assert ValidPath(n, p) <==> ValidPath(n.children[i], ps[0]);
      assert ValidPath(n, p) ==> At(n, p) == At(n.children[i], ps[0]);
      assert HasTrimmedText(n, p, text) == HasTrimmedText(n.children[i], ps[0], text);
      var pre := Prepend(i, ps);
      assert pre[0] == p && pre[1..] == Prepend(i, ps[1..]);
      KeepPrepend(n, i, ps[1..], text);
      var own: seq<Path> := if HasTrimmedText(n.children[i], ps[0], text) then [ps[0]] else [];
      PrependAppend(i, own, KeepByTrimmedText(n.children[i], ps[1..], text));
    }
  }

  /** Filtering the `tag` elements by trimmed text is querying for the
      `tag` elements with that trimmed text. */
  lemma {:induction false} KeepOfAllMatches(n: Node, tag: string, text: string)
    ensures KeepByTrimmedText(n, AllMatches(n, Tag(tag)), text) == AllMatches(n, TagTrimmedText(tag, text))
    decreases n, 1
  {
    var own: seq<Path> := if Matches(n, Tag(tag)) then [[]] else [];
    var below: seq<Path> := if n.Element? then AllBelow(n, Tag(tag), 0) else [];
    KeepAppend(n, own, below, text);
    if n.Element? {
      KeepOfAllBelow(n, tag, text, 0);
    }
  }

  lemma {:induction false} KeepOfAllBelow(n: Node, tag: string, text: string, i: nat)
    requires n.Element? && i <= |n.children|
    ensures KeepByTrimmedText(n, AllBelow(n, Tag(tag), i), text) == AllBelow(n, TagTrimmedText(tag, text), i)
    decreases n, 0, |n.children| - i
  {
    if i < |n.children| {
      KeepAppend(n, Prepend(i, AllMatches(n.children[i], Tag(tag))), AllBelow(n, Tag(tag), i + 1), text);
      KeepPrepend(n, i, AllMatches(n.children[i], Tag(tag)), text);
      KeepOfAllMatches(n.children[i], tag, text);
      KeepOfAllBelow(n, tag, text, i + 1);
    }
  }

  /** `Array.from(querySelectorAll(tag)).find(trimmed text is text)` is the
      first `tag` element in tree order whose trimmed text is `text`. */
  lemma FindOverAllIsFirstMatch(n: Node, tag: string, text: string)
    ensures FindByTrimmedText(n, AllMatches(n, Tag(tag)), text) == FirstMatch(n, TagTrimmedText(tag, text))
  {
    FindIsHeadOfKeep(n, AllMatches(n, Tag(tag)), text);
    KeepOfAllMatches(n, tag, text);
    FirstMatchIsHead(n, TagTrimmedText(tag, text));
  }

  // --------------------------------------------------------------- closest

  /** `closest(tag)` of the node at `p`: its nearest inclusive ancestor with
      that tag. The document node above the root is not an element. */
  function Closest(n: Node, p: Path, tag: string): (r: Option<Path>)
    requires ValidPath(n, p)
    ensures r.Some? ==> IsPrefix(r.value, p) && ValidPath(n, r.value) && HasTag(At(n, r.value), tag)
    ensures r.Some? ==> forall k :: |r.value| < k <= |p| ==> ValidPath(n, p[..k]) && !HasTag(At(n, p[..k]), tag)
    ensures r.None? ==> forall k :: 0 <= k <= |p| ==> ValidPath(n, p[..k]) && !HasTag(At(n, p[..k]), tag)
    decreases |p|
  {
    if HasTag(At(n, p), tag) then assert p[..|p|] == p; Some(p)
    else if p == [] then None
    else
      var up := p[..|p| - 1];
      PrefixValid(n, p, |p| - 1);
      assert forall k :: 0 <= k <= |up| ==> up[..k] == p[..k];
      assert p[..|p|] == p;
      Closest(n, up, tag)
  }
}
