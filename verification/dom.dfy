/** The slice of the DOM the blocks read and write: a tree of text nodes
    and elements, `textContent`, `querySelector`/`querySelectorAll` in
    document order, `element.children`, class lists, `remove()` and
    `innerHTML`. */
module Dom {
  import opened Wrappers
  import opened Strings

  /** The attributes of an element that the blocks look at. `tag` is the
      upper-case `tagName`; `classes` is the class list in order. */
  datatype Attrs = Attrs(
    tag: string,
    id: Option<string>,
    classes: seq<string>,
    href: Option<string>,
    src: Option<string>)

  datatype Node = Text(value: string) | Element(attrs: Attrs, children: seq<Node>)

  function Kids(n: Node): seq<Node> {
    match n
    case Text(_) => []
    case Element(_, cs) => cs
  }

  predicate IsTag(n: Node, tag: string) {
    n.Element? && n.attrs.tag == tag
  }

  function Plain(tag: string, children: seq<Node>): Node {
    Element(Attrs(tag, None, [], None, None), children)
  }

  /** A simple selector such as `h1, h2, h3`, `h2#brand` or `.section`:
      one of the tags (any tag when None), the id and the class when given. */
  datatype Selector = Selector(tags: Option<set<string>>, id: Option<string>, cls: Option<string>)

  function Tags(tags: set<string>): Selector {
    Selector(Some(tags), None, None)
  }

  function ClassSel(c: string): Selector {
    Selector(None, None, Some(c))
  }

  predicate Matches(n: Node, sel: Selector) {
    && n.Element?
    && (sel.tags.None? || n.attrs.tag in sel.tags.value)
    && (sel.id.None? || n.attrs.id == sel.id)
    && (sel.cls.None? || sel.cls.value in n.attrs.classes)
  }

  const HeadingTags: set<string> := {"H1", "H2", "H3", "H4", "H5", "H6"}
  const Headings: Selector := Tags(HeadingTags)
  const Anchors: Selector := Tags({"A"})
  const Images: Selector := Tags({"IMG"})

  // ---------------------------------------------------------------------
  // textContent

  /** `node.textContent`: the text of every text node inside, in order. */
  function TextContent(n: Node): string {
    match n
    case Text(v) => v
    case Element(_, cs) => TextOf(cs)
  }

  function TextOf(ns: seq<Node>): string {
    if ns == [] then "" else TextContent(ns[0]) + TextOf(ns[1..])
  }

  lemma {:induction false} TextOfConcat(a: seq<Node>, b: seq<Node>)
    ensures TextOf(a + b) == TextOf(a) + TextOf(b)
  {
    if a == [] {
      assert a + b == b;
    } else {
      assert (a + b)[0] == a[0] && (a + b)[1..] == a[1..] + b;
      TextOfConcat(a[1..], b);
      assert TextOf(a + b) == TextContent(a[0]) + (TextOf(a[1..]) + TextOf(b));
    }
  }

  /** The text left once every subtree rooted at one of `tags` is removed:
      `textContent` of a clone whose matching descendants were removed. */
  function TextOutside(ns: seq<Node>, tags: set<string>): string {
    if ns == [] then ""
    else match ns[0]
      case Text(v) => v + TextOutside(ns[1..], tags)
      case Element(a, cs) =>
        (if a.tag in tags then "" else TextOutside(cs, tags)) + TextOutside(ns[1..], tags)
  }

  // ---------------------------------------------------------------------
  // document order

  /** Every node of the forest `ns` in document (pre-)order. */
  function Descendants(ns: seq<Node>): seq<Node> {
    if ns == [] then []
    else match ns[0]
      case Text(_) => [ns[0]] + Descendants(ns[1..])
      case Element(_, cs) => [ns[0]] + Descendants(cs) + Descendants(ns[1..])
  }

  lemma DescendantsUnfold(ns: seq<Node>)
    requires ns != []
    ensures Descendants(ns) == [ns[0]] + Descendants(Kids(ns[0])) + Descendants(ns[1..])
  {
  }

  /** The position of the first node of `ns` that matches, or `|ns|`. */
  function IndexWhere(ns: seq<Node>, sel: Selector): (k: nat)
    ensures k <= |ns|
    ensures k < |ns| ==> Matches(ns[k], sel)
  {
    if ns == [] then 0
    else if Matches(ns[0], sel) then 0
    else 1 + IndexWhere(ns[1..], sel)
  }

  /** No node before the position matches: it is the first match. */
  lemma {:induction false} IndexWhereIsFirst(ns: seq<Node>, sel: Selector, j: nat)
    requires j < IndexWhere(ns, sel)
    ensures !Matches(ns[j], sel)
  {
    if j > 0 {
      IndexWhereIsFirst(ns[1..], sel, j - 1);
    }
  }

  lemma {:induction false} IndexWhereConcat(a: seq<Node>, b: seq<Node>, sel: Selector)
    ensures IndexWhere(a + b, sel)
         == if IndexWhere(a, sel) < |a| then IndexWhere(a, sel) else |a| + IndexWhere(b, sel)
  {
    if a == [] {
      assert a + b == b;
    } else {
      assert (a + b)[0] == a[0] && (a + b)[1..] == a[1..] + b;
      IndexWhereConcat(a[1..], b, sel);
    }
  }

  /** The matching nodes of `ns`, in order. */
  function Filter(ns: seq<Node>, sel: Selector): (r: seq<Node>)
    ensures forall i :: 0 <= i < |r| ==> Matches(r[i], sel)
    ensures |r| == 0 <==> IndexWhere(ns, sel) == |ns|
    ensures |r| > 0 ==> r[0] == ns[IndexWhere(ns, sel)]
    ensures |ns| == 1 ==> r == if Matches(ns[0], sel) then ns else []
  {
    if ns == [] then []
    else if Matches(ns[0], sel) then [ns[0]] + Filter(ns[1..], sel)
    else Filter(ns[1..], sel)
  }

  /** Every matching node is kept, and nothing else. With FilterConcat and
      the one-node case this fixes the result and its order. */
  lemma {:induction false} FilterMembers(ns: seq<Node>, sel: Selector)
    ensures forall x :: x in Filter(ns, sel) <==> x in ns && Matches(x, sel)
  {
    if ns != [] {
      FilterMembers(ns[1..], sel);
      assert ns == [ns[0]] + ns[1..];
    }
  }

  /** There is no match exactly when no node matches. */
  lemma IndexWhereNone(ns: seq<Node>, sel: Selector)
    ensures IndexWhere(ns, sel) == |ns| <==> forall x :: x in ns ==> !Matches(x, sel)
  {
    if IndexWhere(ns, sel) == |ns| {
      forall x | x in ns ensures !Matches(x, sel) {
        var j :| 0 <= j < |ns| && ns[j] == x;
        IndexWhereIsFirst(ns, sel, j);
      }
    }
  }

  /** `element.querySelectorAll(sel)` on an element whose children are `ns`:
      the matching descendants in document order. */
  function QueryAll(ns: seq<Node>, sel: Selector): seq<Node> {
    Filter(Descendants(ns), sel)
  }

  /** A forest has no match exactly when its first node does not match and
      neither its first node's children nor the rest of the forest hold one. */
  lemma QueryAllEmptyUnfold(ns: seq<Node>, sel: Selector)
    requires ns != []
    ensures (QueryAll(ns, sel) == []) ==
      (!Matches(ns[0], sel) && QueryAll(Kids(ns[0]), sel) == [] && QueryAll(ns[1..], sel) == [])
  {
    DescendantsUnfold(ns);
    FilterConcat([ns[0]] + Descendants(Kids(ns[0])), Descendants(ns[1..]), sel);
    FilterConcat([ns[0]], Descendants(Kids(ns[0])), sel);
  }

  /** A node found by a search, with the siblings that follow it in its
      parent (what `nextElementSibling` walks through). */
  datatype Hit = Hit(node: Node, following: seq<Node>)

  /** A depth-first, left-to-right search for the first matching node. */
  function Find(ns: seq<Node>, sel: Selector): (r: Option<Hit>)
    ensures r.Some? ==> Matches(r.value.node, sel)
  {
    if ns == [] then None
    else match ns[0]
      case Text(_) => Find(ns[1..], sel)
      case Element(_, cs) =>
        if Matches(ns[0], sel) then Some(Hit(ns[0], ns[1..]))
        else match Find(cs, sel)
          case Some(h) => Some(h)
          case None => Find(ns[1..], sel)
  }

  /** `element.querySelector(sel)` on an element whose children are `ns`. */
  function Query(ns: seq<Node>, sel: Selector): (r: Option<Node>)
    ensures r.Some? ==> Matches(r.value, sel)
  {
    match Find(ns, sel)
    case Some(h) => Some(h.node)
    case None => None
  }

  /** The search finds exactly the first matching node in document order. */
  ghost predicate FindAgrees(ns: seq<Node>, sel: Selector) {
    var d := Descendants(ns);
    && (Find(ns, sel).None? <==> IndexWhere(d, sel) == |d|)
    && (Find(ns, sel).Some? ==> Find(ns, sel).value.node == d[IndexWhere(d, sel)])
  }

  lemma {:induction false} FindIsFirstInDocumentOrder(ns: seq<Node>, sel: Selector)
    ensures FindAgrees(ns, sel)
  {
    if ns != [] {
      FindIsFirstInDocumentOrder(ns[1..], sel);
      match ns[0] {
        case Text(_) => FindStepText(ns, sel);
        case Element(_, cs) =>
          FindIsFirstInDocumentOrder(cs, sel);
          FindStepElement(ns, sel);
      }
    }
  }

  lemma FindStepText(ns: seq<Node>, sel: Selector)
    requires ns != [] && ns[0].Text?
    requires FindAgrees(ns[1..], sel)
    ensures FindAgrees(ns, sel)
  {
    var dr := Descendants(ns[1..]);
    assert Descendants(ns) == [ns[0]] + dr;
    IndexWhereConcat([ns[0]], dr, sel);
  }

  lemma FindStepElement(ns: seq<Node>, sel: Selector)
    requires ns != [] && ns[0].Element?
    requires FindAgrees(ns[0].children, sel) && FindAgrees(ns[1..], sel)
    ensures FindAgrees(ns, sel)
  {
    var n := ns[0];
    var dk, dr := Descendants(n.children), Descendants(ns[1..]);
    var d := Descendants(ns);
    assert d == [n] + (dk + dr);
    if Matches(n, sel) {
      assert Find(ns, sel) == Some(Hit(n, ns[1..]));
      assert IndexWhere(d, sel) == 0;
    } else {
      FirstAfterMiss(n, dk, dr, sel);
      if Find(n.children, sel).Some? {
        assert Find(ns, sel) == Find(n.children, sel);
      } else {
        assert Find(ns, sel) == Find(ns[1..], sel);
      }
    }
  }

  /** Where the first match lies in `[n] + (dk + dr)` when `n` misses. */
  lemma FirstAfterMiss(n: Node, dk: seq<Node>, dr: seq<Node>, sel: Selector)
    requires !Matches(n, sel)
    ensures var d, k := [n] + (dk + dr), IndexWhere([n] + (dk + dr), sel);
      && (IndexWhere(dk, sel) < |dk| ==> k == 1 + IndexWhere(dk, sel) && d[k] == dk[IndexWhere(dk, sel)])
      && (IndexWhere(dk, sel) == |dk| ==> k == 1 + |dk| + IndexWhere(dr, sel))
      && (IndexWhere(dk, sel) == |dk| && IndexWhere(dr, sel) < |dr| ==> d[k] == dr[IndexWhere(dr, sel)])
  {
    IndexAfterMiss(n, dk + dr, sel);
    IndexWhereConcatAt(dk, dr, sel);
  }

  /** Past a node that does not match, the first match is one further on. */
  lemma IndexAfterMiss(n: Node, x: seq<Node>, sel: Selector)
    requires !Matches(n, sel)
    ensures IndexWhere([n] + x, sel) == 1 + IndexWhere(x, sel)
    ensures IndexWhere(x, sel) < |x| ==> ([n] + x)[1 + IndexWhere(x, sel)] == x[IndexWhere(x, sel)]
  {
    assert ([n] + x)[1..] == x;
  }

  /** The first match in a concatenation, and the node found there. */
  lemma IndexWhereConcatAt(a: seq<Node>, b: seq<Node>, sel: Selector)
    ensures IndexWhere(a + b, sel) == if IndexWhere(a, sel) < |a| then IndexWhere(a, sel) else |a| + IndexWhere(b, sel)
    ensures IndexWhere(a, sel) < |a| ==> (a + b)[IndexWhere(a, sel)] == a[IndexWhere(a, sel)]
    ensures IndexWhere(a, sel) == |a| && IndexWhere(b, sel) < |b| ==> (a + b)[|a| + IndexWhere(b, sel)] == b[IndexWhere(b, sel)]
  {
    IndexWhereConcat(a, b, sel);
  }

  /** `querySelector` gives the first result of `querySelectorAll`, and
      nothing exactly when that list is empty. */
  lemma QueryIsFirstOfQueryAll(ns: seq<Node>, sel: Selector)
    ensures Query(ns, sel).None? <==> QueryAll(ns, sel) == []
    ensures Query(ns, sel).Some? ==> Query(ns, sel).value == QueryAll(ns, sel)[0]
  {
    FindIsFirstInDocumentOrder(ns, sel);
  }

  lemma {:induction false} FilterConcat(a: seq<Node>, b: seq<Node>, sel: Selector)
    ensures Filter(a + b, sel) == Filter(a, sel) + Filter(b, sel)
  {
    if a == [] {
      assert a + b == b;
    } else {
      assert (a + b)[0] == a[0] && (a + b)[1..] == a[1..] + b;
      FilterConcat(a[1..], b, sel);
    }
  }

  /** Every matching node of the forest, in document order, each with the
      siblings that follow it: the `querySelectorAll` walk of a block that
      then steps through `nextElementSibling`. */
  function AllHits(ns: seq<Node>, sel: Selector): (r: seq<Hit>)
    ensures forall i :: 0 <= i < |r| ==> Matches(r[i].node, sel)
  {
    if ns == [] then []
    else
      var here := if Matches(ns[0], sel) then [Hit(ns[0], ns[1..])] else [];
      match ns[0]
      case Text(_) => here + AllHits(ns[1..], sel)
      case Element(_, cs) => here + AllHits(cs, sel) + AllHits(ns[1..], sel)
  }

  function HitNodes(hs: seq<Hit>): (r: seq<Node>)
    ensures |r| == |hs|
  {
    seq(|hs|, i requires 0 <= i < |hs| => hs[i].node)
  }

  lemma HitNodesConcat(a: seq<Hit>, b: seq<Hit>)
    ensures HitNodes(a + b) == HitNodes(a) + HitNodes(b)
  {
  }

  /** The hits are exactly the nodes `querySelectorAll` returns, in the same
      order. */
  lemma {:induction false} AllHitsAreQueryAll(ns: seq<Node>, sel: Selector)
    ensures HitNodes(AllHits(ns, sel)) == QueryAll(ns, sel)
  {
    if ns != [] {
      AllHitsAreQueryAll(ns[1..], sel);
      match ns[0] {
        case Text(_) => AllHitsStepText(ns, sel);
        case Element(_, cs) =>
          AllHitsAreQueryAll(cs, sel);
          AllHitsStepElement(ns, sel);
      }
    }
  }

  /** `h` is a node of `ns` with the siblings after it. */
  ghost predicate FollowsIn(ns: seq<Node>, h: Hit) {
    exists k :: 0 <= k < |ns| && ns[k] == h.node && ns[k + 1..] == h.following
  }

  /** `h` is a node somewhere in the forest with the siblings after it in
      its own parent. */
  ghost predicate HitIn(ns: seq<Node>, h: Hit) {
    FollowsIn(ns, h) || exists d :: d in Descendants(ns) && FollowsIn(Kids(d), h)
  }

  /** Each hit carries exactly the siblings that follow its node in its
      parent: what `nextElementSibling` steps through. */
  lemma {:induction false} AllHitsFollow(ns: seq<Node>, sel: Selector)
    ensures forall h :: h in AllHits(ns, sel) ==> HitIn(ns, h)
  {
    if ns != [] {
      AllHitsFollow(ns[1..], sel);
      if ns[0].Element? {
        AllHitsFollow(ns[0].children, sel);
      }
      HitInStep(ns);
    }
  }

  lemma HitInStep(ns: seq<Node>)
    requires ns != []
    ensures HitIn(ns, Hit(ns[0], ns[1..]))
    ensures forall h :: HitIn(Kids(ns[0]), h) ==> HitIn(ns, h)
    ensures forall h :: HitIn(ns[1..], h) ==> HitIn(ns, h)
  {
    DescendantsUnfold(ns);
    assert ns[0 + 1..] == ns[1..];
    forall h | FollowsIn(ns[1..], h) ensures FollowsIn(ns, h) {
      var k :| 0 <= k < |ns[1..]| && ns[1..][k] == h.node && ns[1..][k + 1..] == h.following;
      assert ns[k + 1] == h.node && ns[k + 2..] == h.following;
    }
    forall h | FollowsIn(Kids(ns[0]), h) ensures HitIn(ns, h) {
      assert ns[0] in Descendants(ns);
    }
  }

  /** The node's own contribution: itself when it matches. */
  function HereHits(ns: seq<Node>, sel: Selector): seq<Hit>
    requires ns != []
  {
    if Matches(ns[0], sel) then [Hit(ns[0], ns[1..])] else []
  }

  lemma HereHitsNodes(ns: seq<Node>, sel: Selector)
    requires ns != []
    ensures HitNodes(HereHits(ns, sel)) == Filter([ns[0]], sel)
  {
    assert [ns[0]][1..] == [];
  }

  lemma AllHitsStepText(ns: seq<Node>, sel: Selector)
    requires ns != [] && ns[0].Text?
    requires HitNodes(AllHits(ns[1..], sel)) == QueryAll(ns[1..], sel)
    ensures HitNodes(AllHits(ns, sel)) == QueryAll(ns, sel)
  {
    var here := HereHits(ns, sel);
    assert AllHits(ns, sel) == here + AllHits(ns[1..], sel);
    assert Descendants(ns) == [ns[0]] + Descendants(ns[1..]);
    FilterConcat([ns[0]], Descendants(ns[1..]), sel);
    HitNodesConcat(here, AllHits(ns[1..], sel));
    HereHitsNodes(ns, sel);
  }

  lemma AllHitsStepElement(ns: seq<Node>, sel: Selector)
    requires ns != [] && ns[0].Element?
    requires HitNodes(AllHits(ns[0].children, sel)) == QueryAll(ns[0].children, sel)
    requires HitNodes(AllHits(ns[1..], sel)) == QueryAll(ns[1..], sel)
    ensures HitNodes(AllHits(ns, sel)) == QueryAll(ns, sel)
  {
    var here := HereHits(ns, sel);
    var hk, hr := AllHits(ns[0].children, sel), AllHits(ns[1..], sel);
    var dk, dr := Descendants(ns[0].children), Descendants(ns[1..]);
    assert AllHits(ns, sel) == here + hk + hr;
    assert Descendants(ns) == [ns[0]] + dk + dr;
    FilterConcat([ns[0]] + dk, dr, sel);
    FilterConcat([ns[0]], dk, sel);
    HitNodesConcat(here + hk, hr);
    HitNodesConcat(here, hk);
    HereHitsNodes(ns, sel);
  }

  /** The nodes matching `child` whose parent matches `parent`, in document
      order: `querySelectorAll('parent > child')`. `parentOk` says whether
      the parent of the nodes in `ns` matches. */
  function ChildMatches(ns: seq<Node>, parentOk: bool, parent: Selector, child: Selector): (r: seq<Node>)
    ensures forall i :: 0 <= i < |r| ==> Matches(r[i], child)
  {
    if ns == [] then []
    else
      var here := if parentOk && Matches(ns[0], child) then [ns[0]] else [];
      match ns[0]
      case Text(_) => here + ChildMatches(ns[1..], parentOk, parent, child)
      case Element(_, cs) =>
        here + ChildMatches(cs, Matches(ns[0], parent), parent, child)
          + ChildMatches(ns[1..], parentOk, parent, child)
  }

  /** The nodes matching `sel` that are the first element child of their
      parent, in document order: `querySelectorAll('sel:first-child')`.
      `seen` says whether an element sibling came before `ns`. */
  function FirstChildMatches(ns: seq<Node>, seen: bool, sel: Selector): (r: seq<Node>)
    ensures forall i :: 0 <= i < |r| ==> Matches(r[i], sel)
  {
    if ns == [] then []
    else
      match ns[0]
      case Text(_) => FirstChildMatches(ns[1..], seen, sel)
      case Element(_, cs) =>
        (if !seen && Matches(ns[0], sel) then [ns[0]] else [])
          + FirstChildMatches(cs, false, sel)
          + FirstChildMatches(ns[1..], true, sel)
  }

  /** The first element of a list, when there is one. */
  function First(ns: seq<Node>): Option<Node> {
    if ns == [] then None else Some(ns[0])
  }

  /** `element.children`: the element nodes among `ns`, in order. */
  function ElementChildren(ns: seq<Node>): (r: seq<Node>)
    ensures forall i :: 0 <= i < |r| ==> r[i].Element? && r[i] in ns
    ensures |ns| == 1 ==> r == if ns[0].Element? then ns else []
  {
    if ns == [] then []
    else if ns[0].Element? then [ns[0]] + ElementChildren(ns[1..])
    else ElementChildren(ns[1..])
  }

  /** The children of a list are those of each part, one after the other;
      with the one-node case this fixes the result and its order. */
  lemma {:induction false} ElementChildrenConcat(a: seq<Node>, b: seq<Node>)
    ensures ElementChildren(a + b) == ElementChildren(a) + ElementChildren(b)
  {
    if a == [] {
      assert a + b == b;
    } else {
      assert (a + b)[0] == a[0] && (a + b)[1..] == a[1..] + b;
      ElementChildrenConcat(a[1..], b);
    }
  }

  /** Every element of the list is among its children. */
  lemma {:induction false} ElementChildrenMembers(ns: seq<Node>)
    ensures forall x :: x in ElementChildren(ns) <==> x in ns && x.Element?
  {
    if ns != [] {
      ElementChildrenMembers(ns[1..]);
      assert ns == [ns[0]] + ns[1..];
    }
  }

  // ---------------------------------------------------------------------
  // what the child and first-child combinators select

  /** `x` is a child of a `parent` element in the forest `ns`; `parentOk`
      says whether the (unseen) parent of `ns` itself matches. */
  ghost predicate ChildIn(ns: seq<Node>, parentOk: bool, parent: Selector, x: Node) {
    || (parentOk && x in ns)
    || exists d :: d in Descendants(ns) && Matches(d, parent) && x in Kids(d)
  }

  /** `parent > child` selects exactly the `child` nodes whose parent is a
      `parent`. */
  lemma {:induction false} ChildMatchesExactly(ns: seq<Node>, parentOk: bool, parent: Selector, child: Selector)
    ensures forall x :: x in ChildMatches(ns, parentOk, parent, child) <==>
      Matches(x, child) && ChildIn(ns, parentOk, parent, x)
  {
    if ns != [] {
      ChildMatchesExactly(ns[1..], parentOk, parent, child);
      ChildInStep(ns, parentOk, parent);
      if ns[0].Element? {
        ChildMatchesExactly(ns[0].children, Matches(ns[0], parent), parent, child);
      }
    }
  }

  lemma ChildInStep(ns: seq<Node>, parentOk: bool, parent: Selector)
    requires ns != []
    ensures forall x :: ChildIn(ns, parentOk, parent, x) <==>
      || (parentOk && x == ns[0])
      || (ns[0].Element? && ChildIn(Kids(ns[0]), Matches(ns[0], parent), parent, x))
      || ChildIn(ns[1..], parentOk, parent, x)
  {
    DescendantsUnfold(ns);
    assert ns == [ns[0]] + ns[1..];
  }

  /** `x` is the first element child of its parent somewhere in `ns`;
      `seen` says whether an element came before `ns` in its own parent. */
  ghost predicate FirstChildIn(ns: seq<Node>, seen: bool, x: Node) {
    || (!seen && First(ElementChildren(ns)) == Some(x))
    || exists d :: d in Descendants(ns) && First(ElementChildren(Kids(d))) == Some(x)
  }

  /** `sel:first-child` selects exactly the `sel` nodes that are the first
      element child of their parent. */
  lemma {:induction false} FirstChildMatchesExactly(ns: seq<Node>, seen: bool, sel: Selector)
    ensures forall x :: x in FirstChildMatches(ns, seen, sel) <==> Matches(x, sel) && FirstChildIn(ns, seen, x)
  {
    if ns != [] {
      match ns[0] {
        case Text(_) =>
          FirstChildMatchesExactly(ns[1..], seen, sel);
        case Element(_, cs) =>
          FirstChildMatchesExactly(cs, false, sel);
          FirstChildMatchesExactly(ns[1..], true, sel);
      }
      FirstChildInStep(ns, seen);
    }
  }

  lemma FirstChildInStep(ns: seq<Node>, seen: bool)
    requires ns != []
    ensures ns[0].Text? ==> forall x :: FirstChildIn(ns, seen, x) <==> FirstChildIn(ns[1..], seen, x)
    ensures ns[0].Element? ==> forall x :: FirstChildIn(ns, seen, x) <==>
      || (!seen && x == ns[0])
      || FirstChildIn(Kids(ns[0]), false, x)
      || FirstChildIn(ns[1..], true, x)
  {
    DescendantsUnfold(ns);
  }

  /** When the list's first element child is a `sel`, it is the first
      result of `sel:first-child`. */
  lemma {:induction false} FirstChildMatchesHead(ns: seq<Node>, sel: Selector)
    requires ElementChildren(ns) != [] && Matches(ElementChildren(ns)[0], sel)
    ensures FirstChildMatches(ns, false, sel) != []
    ensures FirstChildMatches(ns, false, sel)[0] == ElementChildren(ns)[0]
  {
    if ns[0].Text? {
      FirstChildMatchesHead(ns[1..], sel);
    }
  }

  // ---------------------------------------------------------------------
  // the shape of a tree

  /** A node without its subtree: the text, or the element's attributes. */
  datatype Label = TextLabel(value: string) | ElementLabel(attrs: Attrs)

  function LabelOf(n: Node): Label {
    match n
    case Text(v) => TextLabel(v)
    case Element(a, _) => ElementLabel(a)
  }

  /** The labels of a forest's nodes in document order: what a tree edit
      is judged by. */
  function Outline(ns: seq<Node>): seq<Label> {
    if ns == [] then []
    else match ns[0]
      case Text(v) => [TextLabel(v)] + Outline(ns[1..])
      case Element(a, cs) => [ElementLabel(a)] + Outline(cs) + Outline(ns[1..])
  }

  /** One label per node. */
  lemma {:induction false} OutlineLength(ns: seq<Node>)
    ensures |Outline(ns)| == |Descendants(ns)|
  {
    if ns != [] {
      match ns[0] {
        case Text(_) =>
        case Element(_, cs) => OutlineLength(cs);
      }
      OutlineLength(ns[1..]);
    }
  }

  lemma OutlineUnfold(ns: seq<Node>)
    requires ns != []
    ensures Outline(ns) == [LabelOf(ns[0])] + Outline(Kids(ns[0])) + Outline(ns[1..])
  {
    if ns[0].Text? {
      assert [LabelOf(ns[0])] + Outline(Kids(ns[0])) == [LabelOf(ns[0])];
    }
  }

  // ---------------------------------------------------------------------
  // edits

  /** Rewrites the attributes of every element of the forest with `f`,
      keeping the text and the tree's shape. */
  function MapAttrs(ns: seq<Node>, f: Attrs -> Attrs): (r: seq<Node>)
    ensures |r| == |ns|
  {
    if ns == [] then [] else [MapNode(ns[0], f)] + MapAttrs(ns[1..], f)
  }

  function MapNode(n: Node, f: Attrs -> Attrs): (r: Node)
    ensures r.Text? <==> n.Text?
  {
    match n
    case Text(_) => n
    case Element(a, cs) => Element(f(a), MapAttrs(cs, f))
  }

  function RelabelOne(l: Label, f: Attrs -> Attrs): Label {
    match l
    case TextLabel(v) => TextLabel(v)
    case ElementLabel(a) => ElementLabel(f(a))
  }

  function Relabel(ls: seq<Label>, f: Attrs -> Attrs): (r: seq<Label>)
    ensures |r| == |ls|
  {
    seq(|ls|, i requires 0 <= i < |ls| => RelabelOne(ls[i], f))
  }

  lemma RelabelConcat(a: seq<Label>, b: seq<Label>, f: Attrs -> Attrs)
    ensures Relabel(a + b, f) == Relabel(a, f) + Relabel(b, f)
  {
  }

  /** Rewriting attributes changes each element's attributes by `f` and
      nothing else: same nodes, same order, same text. */
  lemma {:induction false} MapAttrsOutline(ns: seq<Node>, f: Attrs -> Attrs)
    ensures Outline(MapAttrs(ns, f)) == Relabel(Outline(ns), f)
  {
    if ns != [] {
      var m := MapAttrs(ns, f);
      match ns[0] {
        case Text(_) =>
        case Element(_, cs) => MapAttrsOutline(cs, f);
      }
      MapAttrsOutline(ns[1..], f);
      OutlineUnfold(ns);
      OutlineUnfold(m);
      assert m[0] == MapNode(ns[0], f) && m[1..] == MapAttrs(ns[1..], f);
      assert Kids(m[0]) == MapAttrs(Kids(ns[0]), f);
      var a, b, c := [LabelOf(ns[0])], Outline(Kids(ns[0])), Outline(ns[1..]);
      RelabelConcat(a + b, c, f);
      RelabelConcat(a, b, f);
      assert Relabel(a, f) == [LabelOf(m[0])];
    }
  }

  lemma {:induction false} MapAttrsText(ns: seq<Node>, f: Attrs -> Attrs)
    ensures TextOf(MapAttrs(ns, f)) == TextOf(ns)
  {
    if ns != [] {
      match ns[0] {
        case Text(_) =>
        case Element(_, cs) => MapAttrsText(cs, f);
      }
      MapAttrsText(ns[1..], f);
      assert MapAttrs(ns, f)[1..] == MapAttrs(ns[1..], f);
    }
  }

  /** Rewriting with an idempotent `f` twice is rewriting once. */
  lemma {:induction false} MapAttrsIdempotent(ns: seq<Node>, f: Attrs -> Attrs)
    requires forall a :: f(f(a)) == f(a)
    ensures MapAttrs(MapAttrs(ns, f), f) == MapAttrs(ns, f)
  {
    if ns != [] {
      match ns[0] {
        case Text(_) =>
        case Element(_, cs) => MapAttrsIdempotent(cs, f);
      }
      MapAttrsIdempotent(ns[1..], f);
      var m := MapAttrs(ns, f);
      assert m[1..] == MapAttrs(ns[1..], f);
      assert MapAttrs(m, f) == [MapNode(m[0], f)] + MapAttrs(m[1..], f);
    }
  }

  /** `querySelector(sel)?.remove()`: the forest without the first matching
      node and its subtree. */
  function RemoveFirst(ns: seq<Node>, sel: Selector): seq<Node> {
    if ns == [] then []
    else match ns[0]
      case Text(_) => [ns[0]] + RemoveFirst(ns[1..], sel)
      case Element(a, cs) =>
        if Matches(ns[0], sel) then ns[1..]
        else if Find(cs, sel).Some? then [Element(a, RemoveFirst(cs, sel))] + ns[1..]
        else [ns[0]] + RemoveFirst(ns[1..], sel)
  }

  /** Removal took out exactly the first match in document order and the
      nodes of its subtree, and left every other node as it was. */
  ghost predicate RemovesFirstMatch(ns: seq<Node>, sel: Selector) {
    var d := Descendants(ns);
    var k := IndexWhere(d, sel);
    if k == |d| then RemoveFirst(ns, sel) == ns
    else
      var m := |Descendants(Kids(d[k]))|;
      && k + 1 + m <= |Outline(ns)|
      && Outline(RemoveFirst(ns, sel)) == Outline(ns)[..k] + Outline(ns)[k + 1 + m..]
  }

  lemma {:induction false} RemoveFirstOutline(ns: seq<Node>, sel: Selector)
    ensures RemovesFirstMatch(ns, sel)
  {
    FindIsFirstInDocumentOrder(ns, sel);
    if Find(ns, sel).None? {
      RemoveFirstMissing(ns, sel);
    } else {
      CutStartIsFirstMatch(ns, sel);
      CutOutline(ns, sel);
      OutlineLength(ns);
    }
  }

  /** Where `RemoveFirst` cuts, counted along the outline: computed the way
      the search walks the forest. */
  ghost function CutStart(ns: seq<Node>, sel: Selector): nat {
    if ns == [] then 0
    else match ns[0]
      case Text(_) => 1 + CutStart(ns[1..], sel)
      case Element(_, cs) =>
        if Matches(ns[0], sel) then 0
        else if Find(cs, sel).Some? then 1 + CutStart(cs, sel)
        else 1 + |Descendants(cs)| + CutStart(ns[1..], sel)
  }

  /** Without a match, removal changes nothing. */
  lemma {:induction false} RemoveFirstMissing(ns: seq<Node>, sel: Selector)
    requires Find(ns, sel).None?
    ensures RemoveFirst(ns, sel) == ns
  {
    if ns != [] {
      RemoveFirstMissing(ns[1..], sel);
      assert ns == [ns[0]] + ns[1..];
    }
  }

  /** The cut starts at the first match in document order. */
  lemma {:induction false} CutStartIsFirstMatch(ns: seq<Node>, sel: Selector)
    requires Find(ns, sel).Some?
    ensures CutStart(ns, sel) == IndexWhere(Descendants(ns), sel)
  {
    var n := ns[0];
    if !Matches(n, sel) {
      if n.Element? && Find(n.children, sel).Some? {
        CutStartIsFirstMatch(n.children, sel);
        InsideIndex(ns, sel);
      } else {
        CutStartIsFirstMatch(ns[1..], sel);
        LaterIndex(ns, sel);
      }
    }
  }

  /** The cut takes out the found node and its subtree from the outline
      and keeps the rest in order. */
  ghost predicate CutsFound(ns: seq<Node>, sel: Selector) {
    Find(ns, sel).Some? ==>
      var k, m := CutStart(ns, sel), |Descendants(Kids(Find(ns, sel).value.node))|;
      && k + 1 + m <= |Outline(ns)|
      && Outline(RemoveFirst(ns, sel)) == Outline(ns)[..k] + Outline(ns)[k + 1 + m..]
  }

  lemma {:induction false} CutOutline(ns: seq<Node>, sel: Selector)
    ensures CutsFound(ns, sel)
  {
    if ns != [] {
      var n := ns[0];
      if Matches(n, sel) {
        CutHere(ns, sel);
      } else if n.Element? && Find(n.children, sel).Some? {
        CutOutline(n.children, sel);
        CutInsideStep(ns, sel);
      } else {
        assert Find(Kids(n), sel).None?;
        CutOutline(ns[1..], sel);
        CutLaterStep(ns, sel);
      }
    }
  }

  lemma CutInsideStep(ns: seq<Node>, sel: Selector)
    requires ns != [] && ns[0].Element? && !Matches(ns[0], sel)
    requires Find(ns[0].children, sel).Some?
    requires CutsFound(ns[0].children, sel)
    ensures CutsFound(ns, sel)
  {
    var cs := ns[0].children;
    var kc, m := CutStart(cs, sel), |Descendants(Kids(Find(cs, sel).value.node))|;
    CutsFoundElim(cs, sel, kc, m);
    InsideFind(ns, sel);
    InsideCut(ns, sel, kc, m);
    CutsFoundIntro(ns, sel, 1 + kc, m);
  }

  lemma InsideFind(ns: seq<Node>, sel: Selector)
    requires ns != [] && ns[0].Element? && !Matches(ns[0], sel)
    requires Find(ns[0].children, sel).Some?
    ensures Find(ns, sel) == Find(ns[0].children, sel)
    ensures CutStart(ns, sel) == 1 + CutStart(ns[0].children, sel)
  {
  }

  lemma CutsFoundElim(ns: seq<Node>, sel: Selector, k: nat, m: nat)
    requires CutsFound(ns, sel) && Find(ns, sel).Some?
    requires k == CutStart(ns, sel) && m == |Descendants(Kids(Find(ns, sel).value.node))|
    ensures k + 1 + m <= |Outline(ns)|
    ensures Outline(RemoveFirst(ns, sel)) == Outline(ns)[..k] + Outline(ns)[k + 1 + m..]
  {
  }

  lemma CutsFoundIntro(ns: seq<Node>, sel: Selector, k: nat, m: nat)
    requires Find(ns, sel).Some?
    requires k == CutStart(ns, sel) && m == |Descendants(Kids(Find(ns, sel).value.node))|
    requires k + 1 + m <= |Outline(ns)|
    requires Outline(RemoveFirst(ns, sel)) == Outline(ns)[..k] + Outline(ns)[k + 1 + m..]
    ensures CutsFound(ns, sel)
  {
  }

  lemma CutLaterStep(ns: seq<Node>, sel: Selector)
    requires ns != [] && !Matches(ns[0], sel)
    requires Find(Kids(ns[0]), sel).None?
    requires CutsFound(ns[1..], sel)
    ensures CutsFound(ns, sel)
  {
    FindSkips(ns, sel);
    if Find(ns, sel).Some? {
      var kr, m := CutStart(ns[1..], sel), |Descendants(Kids(Find(ns[1..], sel).value.node))|;
      CutsFoundElim(ns[1..], sel, kr, m);
      var k := 1 + |Descendants(Kids(ns[0]))| + kr;
      LaterCut(ns, sel, kr, m, k);
      CutsFoundIntro(ns, sel, k, m);
    }
  }

  /** Past a first node with no match in it, search and cut move on. */
  lemma FindSkips(ns: seq<Node>, sel: Selector)
    requires ns != [] && !Matches(ns[0], sel)
    requires Find(Kids(ns[0]), sel).None?
    ensures Find(ns, sel) == Find(ns[1..], sel)
    ensures CutStart(ns, sel) == 1 + |Descendants(Kids(ns[0]))| + CutStart(ns[1..], sel)
  {
    if ns[0].Text? {
      assert Descendants(Kids(ns[0])) == [];
    }
  }

  /** Removal when the first node itself matches. */
  lemma CutHere(ns: seq<Node>, sel: Selector)
    requires ns != [] && Matches(ns[0], sel)
    ensures CutsFound(ns, sel)
  {
    OutlineUnfold(ns);
    OutlineLength(Kids(ns[0]));
    assert Find(ns, sel) == Some(Hit(ns[0], ns[1..]));
    assert CutStart(ns, sel) == 0;
    assert RemoveFirst(ns, sel) == ns[1..];
  }

  lemma {:induction false} InsideIndex(ns: seq<Node>, sel: Selector)
    requires ns != [] && ns[0].Element? && !Matches(ns[0], sel)
    requires Find(ns[0].children, sel).Some?
    ensures var dc := Descendants(ns[0].children);
      IndexWhere(Descendants(ns), sel) == 1 + IndexWhere(dc, sel)
  {
    FindIsFirstInDocumentOrder(ns[0].children, sel);
    DescendantsSplit(ns);
    FirstAfterMiss(ns[0], Descendants(ns[0].children), Descendants(ns[1..]), sel);
  }

  /** The first node, then its subtree, then the rest of the forest. */
  lemma DescendantsSplit(ns: seq<Node>)
    requires ns != []
    ensures Descendants(ns) == [ns[0]] + (Descendants(Kids(ns[0])) + Descendants(ns[1..]))
  {
    DescendantsUnfold(ns);
  }

  /** The outline of the forest loses what the first node's children lose. */
  lemma {:induction false} InsideCut(ns: seq<Node>, sel: Selector, kc: nat, m: nat)
    requires ns != [] && ns[0].Element? && !Matches(ns[0], sel)
    requires Find(ns[0].children, sel).Some?
    requires kc + 1 + m <= |Outline(ns[0].children)|
    requires Outline(RemoveFirst(ns[0].children, sel))
      == Outline(ns[0].children)[..kc] + Outline(ns[0].children)[kc + 1 + m..]
    ensures 1 + kc + 1 + m <= |Outline(ns)|
    ensures Outline(RemoveFirst(ns, sel)) == Outline(ns)[..1 + kc] + Outline(ns)[1 + kc + 1 + m..]
  {
    var cs := ns[0].children;
    InsideOutline(ns, sel);
    SpliceInside([LabelOf(ns[0])], Outline(cs), Outline(RemoveFirst(cs, sel)), Outline(ns[1..]), kc, m);
  }

  lemma InsideOutline(ns: seq<Node>, sel: Selector)
    requires ns != [] && ns[0].Element? && !Matches(ns[0], sel)
    requires Find(ns[0].children, sel).Some?
    ensures Outline(ns) == [LabelOf(ns[0])] + Outline(ns[0].children) + Outline(ns[1..])
    ensures Outline(RemoveFirst(ns, sel))
      == [LabelOf(ns[0])] + Outline(RemoveFirst(ns[0].children, sel)) + Outline(ns[1..])
  {
    var r := RemoveFirst(ns, sel);
    assert r == [Element(ns[0].attrs, RemoveFirst(ns[0].children, sel))] + ns[1..];
    OutlineUnfold(ns);
    OutlineUnfold(r);
    assert r[1..] == ns[1..];
  }

  /** Where the first match lies when nothing in the first node matches. */
  lemma {:induction false} LaterIndex(ns: seq<Node>, sel: Selector)
    requires ns != [] && !Matches(ns[0], sel)
    requires Find(Kids(ns[0]), sel).None?
    ensures IndexWhere(Descendants(ns), sel) == 1 + |Descendants(Kids(ns[0]))| + IndexWhere(Descendants(ns[1..]), sel)
  {
    FindIsFirstInDocumentOrder(Kids(ns[0]), sel);
    DescendantsSplit(ns);
    FirstAfterMiss(ns[0], Descendants(Kids(ns[0])), Descendants(ns[1..]), sel);
  }

  /** The outline of the forest loses what its tail loses. */
  lemma {:induction false} LaterCut(ns: seq<Node>, sel: Selector, kr: nat, m: nat, k: nat)
    requires ns != [] && !Matches(ns[0], sel)
    requires Find(Kids(ns[0]), sel).None?
    requires kr + 1 + m <= |Outline(ns[1..])|
    requires Outline(RemoveFirst(ns[1..], sel)) == Outline(ns[1..])[..kr] + Outline(ns[1..])[kr + 1 + m..]
    requires k == 1 + |Descendants(Kids(ns[0]))| + kr
    ensures k + 1 + m <= |Outline(ns)|
    ensures Outline(RemoveFirst(ns, sel)) == Outline(ns)[..k] + Outline(ns)[k + 1 + m..]
  {
    var lead := [LabelOf(ns[0])] + Outline(Kids(ns[0]));
    OutlineLength(Kids(ns[0]));
    LaterOutline(ns, sel);
    SpliceAfter(lead, Outline(ns[1..]), Outline(RemoveFirst(ns[1..], sel)),
                Outline(ns), Outline(RemoveFirst(ns, sel)), kr, m, k);
  }

  lemma LaterOutline(ns: seq<Node>, sel: Selector)
    requires ns != [] && !Matches(ns[0], sel)
    requires Find(Kids(ns[0]), sel).None?
    ensures Outline(RemoveFirst(ns, sel)) == [LabelOf(ns[0])] + Outline(Kids(ns[0])) + Outline(RemoveFirst(ns[1..], sel))
    ensures Outline(ns) == [LabelOf(ns[0])] + Outline(Kids(ns[0])) + Outline(ns[1..])
  {
    var r := RemoveFirst(ns, sel);
    assert r == [ns[0]] + RemoveFirst(ns[1..], sel);
    OutlineUnfold(ns);
    OutlineUnfold(r);
    assert r[0] == ns[0] && r[1..] == RemoveFirst(ns[1..], sel);
  }

  /** Cutting a stretch out of the tail of a sequence. */
  lemma SpliceAfter<T>(lead: seq<T>, o: seq<T>, o': seq<T>, whole: seq<T>, whole': seq<T>, k: nat, m: nat, j: nat)
    requires k + 1 + m <= |o|
    requires o' == o[..k] + o[k + 1 + m..]
    requires whole == lead + o && whole' == lead + o'
    requires j == |lead| + k
    ensures j + 1 + m <= |whole|
    ensures whole' == whole[..j] + whole[j + 1 + m..]
  {
    assert (lead + o)[..|lead| + k] == lead + o[..k];
    assert (lead + o)[|lead| + k + 1 + m..] == o[k + 1 + m..];
  }

  /** Cutting a stretch out of the middle part of a sequence. */
  lemma SpliceInside<T>(x: seq<T>, o: seq<T>, o': seq<T>, tail: seq<T>, k: nat, m: nat)
    requires k + 1 + m <= |o|
    requires o' == o[..k] + o[k + 1 + m..]
    ensures x + o' + tail == (x + o + tail)[..|x| + k] + (x + o + tail)[|x| + k + 1 + m..]
  {
    assert (x + o + tail)[..|x| + k] == x + o[..k];
    assert (x + o + tail)[|x| + k + 1 + m..] == o[k + 1 + m..] + tail;
  }

  // ---------------------------------------------------------------------
  // class lists

  /** `classList.add(c)`: appends `c` unless it is already there. */
  function AddClass(cs: seq<string>, c: string): (r: seq<string>)
    ensures forall x :: x in r <==> x in cs || x == c
    ensures |r| >= |cs| && r[..|cs|] == cs
    ensures |r| <= |cs| + 1
  {
    if c in cs then cs else cs + [c]
  }

  predicate HasClass(n: Node, c: string) {
    n.Element? && c in n.attrs.classes
  }

  // ---------------------------------------------------------------------
  // innerHTML

  const VoidTags: set<string> :=
    {"AREA", "BASE", "BR", "COL", "EMBED", "HR", "IMG", "INPUT", "LINK", "META", "SOURCE", "TRACK", "WBR"}

  function Attribute(name: string, value: Option<string>): string {
    match value
    case None => ""
    case Some(v) => " " + name + "=\"" + v + "\""
  }

  function OpenTag(a: Attrs): string {
    var cls := if a.classes == [] then None else Some(Join(a.classes, " "));
    "<" + Lower(a.tag) + Attribute("id", a.id) + Attribute("class", cls)
      + Attribute("href", a.href) + Attribute("src", a.src) + ">"
  }

  /** `element.outerHTML` */
  function OuterHtml(n: Node): string {
    match n
    case Text(v) => v
    case Element(a, cs) =>
      OpenTag(a) + (if a.tag in VoidTags then "" else InnerHtml(cs) + "</" + Lower(a.tag) + ">")
  }

  /** `element.innerHTML` of an element whose children are `ns`. */
  function InnerHtml(ns: seq<Node>): string {
    if ns == [] then "" else OuterHtml(ns[0]) + InnerHtml(ns[1..])
  }
}
