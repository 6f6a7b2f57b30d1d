/**
 * Choice of the content node (index.ts line 46):
 *
 *     doc.querySelector("article") || doc.querySelector("main") || doc.querySelector("body")
 */
module Select {
  import opened Wrappers
  import opened Dom

  /** Some element of the document, at any depth, has tag `tag`. */
  predicate Occurs(f: seq<Node>, tag: string) {
    exists n :: n in Preorder(f) && HasTag(n, tag)
  }

  /** Position `i` of `s` holds the first element of `s` with tag `tag`. */
  predicate IsFirstAt(s: seq<Node>, tag: string, i: int) {
    && 0 <= i < |s|
    && HasTag(s[i], tag)
    && forall j :: 0 <= j < i ==> !HasTag(s[j], tag)
  }

  /** `n` is the first element with tag `tag` in the tree order of `f`. */
  ghost predicate IsFirstInTreeOrder(f: seq<Node>, tag: string, n: Node) {
    exists i :: IsFirstAt(Preorder(f), tag, i) && Preorder(f)[i] == n
  }

  /** `querySelector(tag)`: depth-first search for an element with tag `tag`. */
  function QuerySelector(f: seq<Node>, tag: string): (r: Option<Node>)
    ensures r.Some? ==> HasTag(r.value, tag)
  {
    if f == [] then None
    else match f[0]
      case Element(t, cs) =>
        if t == tag then Some(f[0])
        else (match QuerySelector(cs, tag)
          case Some(n) => Some(n)
          case None => QuerySelector(f[1..], tag))
      case _ => QuerySelector(f[1..], tag)
  }

  /** No node of `s` is an element with tag `tag`. */
  predicate NoneTagged(s: seq<Node>, tag: string) {
    forall j :: 0 <= j < |s| ==> !HasTag(s[j], tag)
  }

  lemma FirstInPrefix(s: seq<Node>, t: seq<Node>, tag: string, i: int)
    requires IsFirstAt(s, tag, i)
    ensures IsFirstAt(s + t, tag, i) && (s + t)[i] == s[i]
  {
    assert forall j :: 0 <= j <= i ==> (s + t)[j] == s[j];
  }

  lemma FirstAfterPrefix(s: seq<Node>, t: seq<Node>, tag: string, i: int)
    requires NoneTagged(s, tag) && IsFirstAt(t, tag, i)
    ensures IsFirstAt(s + t, tag, |s| + i) && (s + t)[|s| + i] == t[i]
  {
    var st := s + t;
    forall j | 0 <= j < |s| + i ensures !HasTag(st[j], tag) {
      if j < |s| {
        assert st[j] == s[j];
      } else {
        assert st[j] == t[j - |s|];
      }
    }
  }

  lemma NoneTaggedAppend(s: seq<Node>, t: seq<Node>, tag: string)
    requires NoneTagged(s, tag) && NoneTagged(t, tag)
    ensures NoneTagged(s + t, tag)
  {
    var st := s + t;
    forall j | 0 <= j < |st| ensures !HasTag(st[j], tag) {
      if j < |s| {
        assert st[j] == s[j];
      } else {
        assert st[j] == t[j - |s|];
      }
    }
  }

  lemma NoneTaggedIffNotOccurs(f: seq<Node>, tag: string)
    ensures NoneTagged(Preorder(f), tag) <==> !Occurs(f, tag)
  {
    var ps := Preorder(f);
    if !NoneTagged(ps, tag) {
      var j :| 0 <= j < |ps| && HasTag(ps[j], tag);
      assert ps[j] in ps;
    }
  }

  /**
   * `querySelector` finds the first matching element in tree order, and
   * finds nothing exactly when no element of the document matches.
   */
  lemma {:induction false} QuerySelectorFindsFirst(f: seq<Node>, tag: string)
    ensures QuerySelector(f, tag).None? <==> NoneTagged(Preorder(f), tag)
    ensures QuerySelector(f, tag).Some? ==> IsFirstInTreeOrder(f, tag, QuerySelector(f, tag).value)
  {
    if f == [] {
      return;
    }
    var x := f[0];
    var head := Preorder([x]);
    var rest := Preorder(f[1..]);
    assert [x] + f[1..] == f;
    PreorderAppend([x], f[1..]);
    QuerySelectorFindsFirst(f[1..], tag);
    var inner := Preorder(ChildrenOf(x));
    assert head == [x] + inner by {
      match x
      case Element(_, cs) => assert head == [x] + inner + Preorder([]);
      case _ => assert head == [x] + Preorder([]);
    }
    if HasTag(x, tag) {
      assert IsFirstAt(head, tag, 0);
      FirstInPrefix(head, rest, tag, 0);
      assert QuerySelector(f, tag) == Some(x);
      return;
    }
    assert NoneTagged([x], tag);
    var fromInner := if x.Element? then QuerySelector(x.children, tag) else None;
    if x.Element? {
      QuerySelectorFindsFirst(x.children, tag);
    }
    if fromInner.Some? {
      var i :| IsFirstAt(inner, tag, i) && inner[i] == fromInner.value;
      FirstAfterPrefix([x], inner, tag, i);
      FirstInPrefix(head, rest, tag, 1 + i);
      assert QuerySelector(f, tag) == fromInner;
    } else {
      NoneTaggedAppend([x], inner, tag);
      assert QuerySelector(f, tag) == QuerySelector(f[1..], tag);
      if QuerySelector(f[1..], tag).Some? {
        var i :| IsFirstAt(rest, tag, i) && rest[i] == QuerySelector(f[1..], tag).value;
        FirstAfterPrefix(head, rest, tag, i);
      } else {
        NoneTaggedAppend(head, rest, tag);
      }
    }
  }

  /** The same, with "no match" stated as the absence of any element with the tag. */
  lemma QuerySelectorFindsNothing(f: seq<Node>, tag: string)
    ensures QuerySelector(f, tag).None? <==> !Occurs(f, tag)
  {
    QuerySelectorFindsFirst(f, tag);
    NoneTaggedIffNotOccurs(f, tag);
  }

  /** Line 46: the first `article`, failing that the first `main`, failing that the first `body`. */
  function SelectContentNode(f: seq<Node>): (r: Option<Node>)
    ensures r.Some? ==> HasTag(r.value, "article") || HasTag(r.value, "main") || HasTag(r.value, "body")
  {
    match QuerySelector(f, "article")
    case Some(a) => Some(a)
    case None =>
      match QuerySelector(f, "main")
      case Some(m) => Some(m)
      case None => QuerySelector(f, "body")
  }

  /**
   * The selection follows a fixed priority: the first `article` in tree order
   * if there is one, otherwise the first `main`, otherwise the first `body`;
   * there is no content node exactly when the document has none of the three.
   */
  lemma SelectionPriority(f: seq<Node>)
    ensures Occurs(f, "article") ==>
      SelectContentNode(f).Some? && IsFirstInTreeOrder(f, "article", SelectContentNode(f).value)
    ensures !Occurs(f, "article") && Occurs(f, "main") ==>
      SelectContentNode(f).Some? && IsFirstInTreeOrder(f, "main", SelectContentNode(f).value)
    ensures !Occurs(f, "article") && !Occurs(f, "main") && Occurs(f, "body") ==>
      SelectContentNode(f).Some? && IsFirstInTreeOrder(f, "body", SelectContentNode(f).value)
    ensures SelectContentNode(f).None? <==>
      !Occurs(f, "article") && !Occurs(f, "main") && !Occurs(f, "body")
  {
    QuerySelectorFindsFirst(f, "article");
    QuerySelectorFindsFirst(f, "main");
    QuerySelectorFindsFirst(f, "body");
    QuerySelectorFindsNothing(f, "article");
    QuerySelectorFindsNothing(f, "main");
    QuerySelectorFindsNothing(f, "body");
  }

  /** The selected node is a node of the document, and so are all its descendants. */
  lemma SelectedNodeIsInDocument(f: seq<Node>)
    requires SelectContentNode(f).Some?
    ensures SelectContentNode(f).value in Preorder(f)
    ensures forall m :: m in Preorder(ChildrenOf(SelectContentNode(f).value)) ==> m in Preorder(f)
  {
    SelectionPriority(f);
    var n := SelectContentNode(f).value;
    assert n in Preorder(f);
    PreorderHoldsDescendants(f, n);
  }
}
