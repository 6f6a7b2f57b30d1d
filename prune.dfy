/**
 * Removal of the non-content subtrees (index.ts lines 42-43), as a pure filter
 * on the document tree: every `script`, `style`, `nav`, `footer` and `aside`
 * element is dropped together with everything under it. The in-place version
 * the source runs is `Arena.Document.RemoveNoise`, proved to give this tree.
 */
module Pruning {
  import opened Dom

  /** The tags named by the selector list `"script, style, nav, footer, aside"`. */
  predicate IsNoiseTag(tag: string) {
    tag in {"script", "style", "nav", "footer", "aside"}
  }

  predicate IsNoise(n: Node) {
    n.Element? && IsNoiseTag(n.tag)
  }

  /** The document with every noise element and its subtree removed. */
  function Prune(f: seq<Node>): (r: seq<Node>)
    ensures |r| <= |f|
    ensures forall i :: 0 <= i < |r| ==> !IsNoise(r[i])
  {
    if f == [] then []
    else match f[0]
      case Element(t, cs) => (if IsNoiseTag(t) then [] else [Element(t, Prune(cs))]) + Prune(f[1..])
      case _ => [f[0]] + Prune(f[1..])
  }

  /** The noise elements among `s`, in order: what `querySelectorAll` returns for the selector list. */
  function NoiseNodes(s: seq<Node>): seq<Node> {
    if s == [] then []
    else (if IsNoise(s[0]) then [s[0]] else []) + NoiseNodes(s[1..])
  }

  lemma PruneCons(x: Node, f: seq<Node>)
    ensures Prune([x] + f) == Prune([x]) + Prune(f)
  {
    var h := [x] + f;
    assert h[0] == x && h[1..] == f;
    assert [x][1..] == [];
  }

  lemma {:induction false} PruneAppend(f: seq<Node>, g: seq<Node>)
    ensures Prune(f + g) == Prune(f) + Prune(g)
  {
    if f == [] {
      assert f + g == g;
    } else {
      var fg := f + g;
      assert fg == [f[0]] + (f[1..] + g);
      assert f == [f[0]] + f[1..];
      PruneAppend(f[1..], g);
      PruneCons(f[0], f[1..] + g);
      PruneCons(f[0], f[1..]);
      var head := Prune([f[0]]);
      assert Prune(fg) == head + (Prune(f[1..]) + Prune(g));
    }
  }

  /** No node of the document, at any depth, is a noise element. */
  predicate NoNoise(f: seq<Node>) {
    forall n :: n in Preorder(f) ==> !IsNoise(n)
  }

  /** After pruning no `script`, `style`, `nav`, `footer` or `aside` element remains, at any depth. */
  lemma {:induction false} PruneRemovesNoise(f: seq<Node>)
    ensures NoNoise(Prune(f))
  {
    if f != [] {
      PruneRemovesNoise(f[1..]);
      match f[0]
      case Element(t, cs) =>
        if IsNoiseTag(t) {
          assert Prune(f) == Prune(f[1..]);
        } else {
          PruneRemovesNoise(cs);
          var p := Element(t, Prune(cs));
          PreorderAppend([p], Prune(f[1..]));
          assert Preorder([p]) == [p] + Preorder(Prune(cs)) + Preorder([]);
        }
      case _ =>
        PreorderAppend([f[0]], Prune(f[1..]));
    }
  }

  lemma {:induction false} NoNoiseParts(f: seq<Node>)
    requires f != [] && NoNoise(f)
    ensures !IsNoise(f[0]) && NoNoise(ChildrenOf(f[0])) && NoNoise(f[1..])
  {
    assert f[0] in Preorder(f);
    PreorderHoldsDescendants(f, f[0]);
    forall n | n in Preorder(f[1..]) ensures n in Preorder(f) {
      match f[0]
      case Element(_, cs) =>
      case _ =>
    }
  }

  /** Pruning changes a document exactly when it holds a noise element; hence pruning twice prunes once. */
  lemma {:induction false} PruneFixedPoints(f: seq<Node>)
    ensures Prune(f) == f <==> NoNoise(f)
  {
    PruneRemovesNoise(f);
    if NoNoise(f) && f != [] {
      NoNoiseParts(f);
      PruneFixedPoints(f[1..]);
      match f[0]
      case Element(t, cs) =>
        PruneFixedPoints(cs);
        assert [f[0]] + f[1..] == f;
      case _ =>
        assert [f[0]] + f[1..] == f;
    }
  }

  lemma PruneIdempotent(f: seq<Node>)
    ensures Prune(Prune(f)) == Prune(f)
  {
    PruneRemovesNoise(f);
    PruneFixedPoints(Prune(f));
  }

  // ---------------------------------------------------------------------------
  // What pruning keeps: every node outside the noise subtrees, in tree order.

  predicate IsNoiseLabel(l: Label) {
    l.ElementLabel? && IsNoiseTag(l.tag)
  }

  predicate NoNoiseTag(tags: seq<string>) {
    forall i :: 0 <= i < |tags| ==> !IsNoiseTag(tags[i])
  }

  /** A visit survives pruning when neither the node nor any ancestor is a noise element. */
  predicate Survives(v: Visit) {
    !IsNoiseLabel(v.item) && NoNoiseTag(v.ancestors)
  }

  function Surviving(vs: seq<Visit>): seq<Visit> {
    if vs == [] then []
    else (if Survives(vs[0]) then [vs[0]] else []) + Surviving(vs[1..])
  }

  lemma {:induction false} SurvivingAppend(a: seq<Visit>, b: seq<Visit>)
    ensures Surviving(a + b) == Surviving(a) + Surviving(b)
  {
    if a == [] {
      assert a + b == b;
    } else {
      var ab := a + b;
      assert ab[0] == a[0] && ab[1..] == a[1..] + b;
      SurvivingAppend(a[1..], b);
      var head := if Survives(a[0]) then [a[0]] else [];
      assert Surviving(ab) == head + (Surviving(a[1..]) + Surviving(b));
      assert Surviving(a) == head + Surviving(a[1..]);
    }
  }

  /** Every visit `Surviving` keeps does survive. */
  lemma {:induction false} SurvivingSurvives(vs: seq<Visit>)
    ensures forall v :: v in Surviving(vs) ==> Survives(v)
  {
    if vs != [] {
      SurvivingSurvives(vs[1..]);
      var head := if Survives(vs[0]) then [vs[0]] else [];
      assert Surviving(vs) == head + Surviving(vs[1..]);
    }
  }

  lemma {:induction false} NothingSurvivesUnderNoise(f: seq<Node>, above: seq<string>)
    requires !NoNoiseTag(above)
    ensures Surviving(Visits(f, above)) == []
  {
    if f != [] {
      NothingSurvivesUnderNoise(f[1..], above);
      match f[0]
      case Element(t, cs) =>
        var i :| 0 <= i < |above| && IsNoiseTag(above[i]);
        assert (above + [t])[i] == above[i];
        NothingSurvivesUnderNoise(cs, above + [t]);
        var v := [Visit(above, ElementLabel(t))];
        SurvivingAppend(v + Visits(cs, above + [t]), Visits(f[1..], above));
        SurvivingAppend(v, Visits(cs, above + [t]));
      case _ =>
        SurvivingAppend([Visit(above, LabelOf(f[0]))], Visits(f[1..], above));
    }
  }

  /**
   * Pruning removes only the noise subtrees: the nodes of the pruned document,
   * in tree order and with their ancestors, are exactly the nodes of the
   * original that are neither noise elements nor inside one.
   */
  lemma {:induction false} PruneKeepsTheRest(f: seq<Node>, above: seq<string>)
    requires NoNoiseTag(above)
    ensures Visits(Prune(f), above) == Surviving(Visits(f, above))
  {
    if f != [] {
      PruneKeepsTheRest(f[1..], above);
      match f[0]
      case Element(t, cs) =>
        var v := [Visit(above, ElementLabel(t))];
        SurvivingAppend(v + Visits(cs, above + [t]), Visits(f[1..], above));
        SurvivingAppend(v, Visits(cs, above + [t]));
        if IsNoiseTag(t) {
          assert (above + [t])[|above|] == t;
          NothingSurvivesUnderNoise(cs, above + [t]);
          assert Prune(f) == Prune(f[1..]);
        } else {
          PruneKeepsTheRest(cs, above + [t]);
          var p := Element(t, Prune(cs));
          assert Prune(f) == [p] + Prune(f[1..]);
          assert ([p] + Prune(f[1..]))[1..] == Prune(f[1..]);
        }
      case _ =>
        var v := [Visit(above, LabelOf(f[0]))];
        SurvivingAppend(v, Visits(f[1..], above));
        assert Prune(f) == [f[0]] + Prune(f[1..]);
        assert ([f[0]] + Prune(f[1..]))[1..] == Prune(f[1..]);
    }
  }

  /** The text left after pruning is the text of the text nodes outside every noise element. */
  lemma PrunedTextIsTextOutsideNoise(f: seq<Node>)
    ensures DescendantText(Prune(f)) == TextOfVisits(Surviving(Visits(f, [])))
  {
    PruneKeepsTheRest(f, []);
    DescendantTextOfVisits(Prune(f), []);
  }

  // ---------------------------------------------------------------------------
  // What is inside a noise element does not matter.

  /** `f` and `g` differ at most inside (or in the tag of) noise elements. */
  predicate SameOutsideNoise(f: seq<Node>, g: seq<Node>) {
    if f == [] || g == [] then f == g
    else
      && (match f[0]
          case Element(t, cs) =>
            if IsNoiseTag(t) then IsNoise(g[0])
            else g[0].Element? && g[0].tag == t && SameOutsideNoise(cs, g[0].children)
          case _ => g[0] == f[0])
      && SameOutsideNoise(f[1..], g[1..])
  }

  /** Changing anything inside a noise element leaves the pruned document unchanged. */
  lemma {:induction false} PruneIgnoresNoiseContent(f: seq<Node>, g: seq<Node>)
    requires SameOutsideNoise(f, g)
    ensures Prune(f) == Prune(g)
  {
    if f != [] {
      PruneIgnoresNoiseContent(f[1..], g[1..]);
      match f[0]
      case Element(t, cs) =>
        if !IsNoiseTag(t) {
          PruneIgnoresNoiseContent(cs, g[0].children);
        }
      case _ =>
    }
  }
}
