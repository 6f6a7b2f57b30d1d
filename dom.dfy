/**
 * The parsed document as a tree of nodes, as the HTML parser hands it to the
 * extractor (index.ts line 36). A document is the ordered sequence of its
 * top-level nodes; element tag names are the parser's lower-case local names.
 */
module Dom {

  datatype Node =
    | Element(tag: string, children: seq<Node>)
    | Text(data: string)
    | Comment(data: string)

  predicate HasTag(n: Node, tag: string) {
    n.Element? && n.tag == tag
  }

  /** The child nodes of `n`; only an element has children. */
  function ChildrenOf(n: Node): seq<Node> {
    if n.Element? then n.children else []
  }

  /**
   * Tree order over a sequence of sibling subtrees: each node comes before its
   * descendants, which come before its following siblings.
   */
  function Preorder(f: seq<Node>): seq<Node> {
    if f == [] then []
    else match f[0]
      case Element(_, cs) => [f[0]] + Preorder(cs) + Preorder(f[1..])
      case _ => [f[0]] + Preorder(f[1..])
  }

  /** The data of the text nodes of `s`, concatenated in order (non-recursive). */
  function TextOf(s: seq<Node>): string {
    if s == [] then []
    else (if s[0].Text? then s[0].data else []) + TextOf(s[1..])
  }

  /** The text of the text nodes under `f`, computed subtree by subtree. */
  function DescendantText(f: seq<Node>): string {
    if f == [] then []
    else match f[0]
      case Element(_, cs) => DescendantText(cs) + DescendantText(f[1..])
      case Text(d) => d + DescendantText(f[1..])
      case Comment(_) => DescendantText(f[1..])
  }

  /** `textContent` of a node: its data for a text or comment node, its descendant text for an element. */
  function TextContent(n: Node): (r: string)
    ensures n.Element? ==> r == TextOf(Preorder(n.children))
  {
    match n
    case Element(_, cs) => DescendantTextInTreeOrder(cs); DescendantText(cs)
    case Text(d) => d
    case Comment(d) => d
  }

  /** What a node is, without its children. */
  datatype Label = ElementLabel(tag: string) | TextLabel(data: string) | CommentLabel(data: string)

  function LabelOf(n: Node): Label {
    match n
    case Element(t, _) => ElementLabel(t)
    case Text(d) => TextLabel(d)
    case Comment(d) => CommentLabel(d)
  }

  /** One node met in tree order, with the tags of its element ancestors, outermost first. */
  datatype Visit = Visit(ancestors: seq<string>, item: Label)

  /** The nodes of `f` in tree order, each with its ancestors' tags (`above` are those of `f`'s parent). */
  function Visits(f: seq<Node>, above: seq<string>): seq<Visit> {
    if f == [] then []
    else match f[0]
      case Element(t, cs) =>
        [Visit(above, ElementLabel(t))] + Visits(cs, above + [t]) + Visits(f[1..], above)
      case _ => [Visit(above, LabelOf(f[0]))] + Visits(f[1..], above)
  }

  /** The data of the text-node visits, concatenated in order. */
  function TextOfVisits(vs: seq<Visit>): string {
    if vs == [] then []
    else (if vs[0].item.TextLabel? then vs[0].item.data else []) + TextOfVisits(vs[1..])
  }

  // ---------------------------------------------------------------------------

  lemma {:induction false} TextOfAppend(s: seq<Node>, t: seq<Node>)
    ensures TextOf(s + t) == TextOf(s) + TextOf(t)
  {
    if s == [] {
      assert s + t == t;
    } else {
      var st := s + t;
      assert st[0] == s[0] && st[1..] == s[1..] + t;
      TextOfAppend(s[1..], t);
      var head := if s[0].Text? then s[0].data else [];
      assert TextOf(st) == head + (TextOf(s[1..]) + TextOf(t));
    }
  }

  /**
   * `DescendantText` is the descendant text content of the DOM Living Standard:
   * the data of all text-node descendants, concatenated in tree order.
   */
  lemma {:induction false} DescendantTextInTreeOrder(f: seq<Node>)
    ensures DescendantText(f) == TextOf(Preorder(f))
  {
    if f != [] {
      DescendantTextInTreeOrder(f[1..]);
      match f[0]
      case Element(_, cs) =>
        DescendantTextInTreeOrder(cs);
        TextOfAppend([f[0]] + Preorder(cs), Preorder(f[1..]));
        TextOfAppend([f[0]], Preorder(cs));
      case _ =>
        TextOfAppend([f[0]], Preorder(f[1..]));
    }
  }

  lemma {:induction false} TextOfVisitsAppend(s: seq<Visit>, t: seq<Visit>)
    ensures TextOfVisits(s + t) == TextOfVisits(s) + TextOfVisits(t)
  {
    if s == [] {
      assert s + t == t;
    } else {
      var st := s + t;
      assert st[0] == s[0] && st[1..] == s[1..] + t;
      TextOfVisitsAppend(s[1..], t);
      var head := if s[0].item.TextLabel? then s[0].item.data else [];
      assert TextOfVisits(st) == head + (TextOfVisits(s[1..]) + TextOfVisits(t));
    }
  }

  /** The text of a forest is the text of its text-node visits, whatever the ancestors. */
  lemma {:induction false} DescendantTextOfVisits(f: seq<Node>, above: seq<string>)
    ensures DescendantText(f) == TextOfVisits(Visits(f, above))
  {
    if f != [] {
      DescendantTextOfVisits(f[1..], above);
      match f[0]
      case Element(t, cs) =>
        DescendantTextOfVisits(cs, above + [t]);
        var v := [Visit(above, ElementLabel(t))];
        TextOfVisitsAppend(v + Visits(cs, above + [t]), Visits(f[1..], above));
        TextOfVisitsAppend(v, Visits(cs, above + [t]));
      case _ =>
        TextOfVisitsAppend([Visit(above, LabelOf(f[0]))], Visits(f[1..], above));
    }
  }

  /** `vs` and `ns` have the same length, and each visit is of the node at its position. */
  predicate SameLabels(vs: seq<Visit>, ns: seq<Node>) {
    |vs| == |ns| && forall i :: 0 <= i < |vs| ==> vs[i].item == LabelOf(ns[i])
  }

  lemma SameLabelsAppend(vs: seq<Visit>, ns: seq<Node>, ws: seq<Visit>, ms: seq<Node>)
    requires SameLabels(vs, ns) && SameLabels(ws, ms)
    ensures SameLabels(vs + ws, ns + ms)
  {
    forall i | 0 <= i < |vs| + |ws| ensures (vs + ws)[i].item == LabelOf((ns + ms)[i]) {
      if i >= |vs| {
        assert (vs + ws)[i] == ws[i - |vs|] && (ns + ms)[i] == ms[i - |vs|];
      } else {
        assert (vs + ws)[i] == vs[i] && (ns + ms)[i] == ns[i];
      }
    }
  }

  /** The tree order of a non-empty forest: its first node, that node's descendants, then the rest. */
  lemma PreorderCons(f: seq<Node>)
    requires f != []
    ensures Preorder(f) == [f[0]] + Preorder(ChildrenOf(f[0])) + Preorder(f[1..])
  {
    match f[0]
    case Element(_, cs) =>
    case _ => assert Preorder(ChildrenOf(f[0])) == [];
  }

  /** The visits of a forest are its nodes in tree order, one for one. */
  lemma {:induction false} VisitsFollowTreeOrder(f: seq<Node>, above: seq<string>)
    ensures SameLabels(Visits(f, above), Preorder(f))
  {
    if f != [] {
      VisitsFollowTreeOrder(f[1..], above);
      PreorderCons(f);
      var v := Visit(above, LabelOf(f[0]));
      assert SameLabels([v], [f[0]]);
      match f[0]
      case Element(t, cs) =>
        VisitsFollowTreeOrder(cs, above + [t]);
        SameLabelsAppend([v], [f[0]], Visits(cs, above + [t]), Preorder(cs));
        SameLabelsAppend([v] + Visits(cs, above + [t]), [f[0]] + Preorder(cs), Visits(f[1..], above), Preorder(f[1..]));
      case _ =>
        assert Preorder(f) == [f[0]] + Preorder(f[1..]);
        SameLabelsAppend([v], [f[0]], Visits(f[1..], above), Preorder(f[1..]));
    }
  }

  /** Tree order over consecutive siblings is the concatenation of their tree orders. */
  lemma {:induction false} PreorderAppend(a: seq<Node>, b: seq<Node>)
    ensures Preorder(a + b) == Preorder(a) + Preorder(b)
  {
    if a == [] {
      assert a + b == b;
    } else {
      var ab := a + b;
      assert ab[0] == a[0] && ab[1..] == a[1..] + b;
      PreorderAppend(a[1..], b);
      PreorderCons(a);
      PreorderCons(ab);
    }
  }

  /** The descendants of a node met in tree order are met in tree order too. */
  lemma {:induction false} PreorderHoldsDescendants(f: seq<Node>, n: Node)
    requires n in Preorder(f)
    ensures forall m :: m in Preorder(ChildrenOf(n)) ==> m in Preorder(f)
  {
    if f[0] == n {
      match f[0]
      case Element(_, cs) =>
      case _ =>
    } else {
      match f[0]
      case Element(_, cs) =>
        if n in Preorder(cs) {
          PreorderHoldsDescendants(cs, n);
        } else {
          PreorderHoldsDescendants(f[1..], n);
        }
      case _ =>
        PreorderHoldsDescendants(f[1..], n);
    }
  }
}
