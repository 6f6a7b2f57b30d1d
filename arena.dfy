/**
 * The parsed document as the mutable object the source works on, and the
 * in-place removal of noise elements (index.ts lines 42-43):
 *
 *     doc.querySelectorAll("script, style, nav, footer, aside")
 *        .forEach((el) => el.parentNode?.removeChild(el))
 *
 * Nodes live in an arena addressed by index. Entry 0 stands for the Document
 * node; only its child list is used. Every element entry lists its children
 * by index, and `parent` records each node's `parentNode` (-1 for none).
 * Child lists point forward (a child has a larger index than its parent),
 * which rules out cycles; how the parser's nodes come to be numbered so is
 * not part of this model.
 */
module Arena {
  import opened Dom
  import opened Pruning

  datatype Entry =
    | ElementEntry(tag: string, kids: seq<nat>)
    | TextEntry(data: string)
    | CommentEntry(data: string)

  function Kids(e: Entry): seq<nat> {
    if e.ElementEntry? then e.kids else []
  }

  predicate IsNoiseEntry(e: Entry) {
    e.ElementEntry? && IsNoiseTag(e.tag)
  }

  /** Every index in `ids` lies in `lo..hi - 1`. */
  predicate Between(ids: seq<nat>, lo: int, hi: int) {
    forall j :: 0 <= j < |ids| ==> lo <= ids[j] < hi
  }

  /** Every child index is larger than its parent's index and within the arena. */
  predicate KidsAfter(a: seq<Entry>) {
    forall p :: 0 <= p < |a| ==> Between(Kids(a[p]), p + 1, |a|)
  }

  /** `par[x]` is `p` exactly when `x` is in `p`'s child list, and -1 when no entry lists `x`. */
  predicate ParentLinks(a: seq<Entry>, par: seq<int>) {
    && |par| == |a|
    && (forall x :: 0 <= x < |a| ==> -1 <= par[x] < |a|)
    && (forall x, p :: 0 <= x < |a| && 0 <= p < |a| ==> (x in Kids(a[p]) <==> par[x] == p))
  }

  /** The subtree rooted at entry `i`. */
  function Unfold(a: seq<Entry>, i: nat): Node
    requires KidsAfter(a) && i < |a|
    decreases |a| - i, 1, 0
  {
    match a[i]
    case ElementEntry(t, ks) => Element(t, UnfoldAll(a, i, ks))
    case TextEntry(d) => Text(d)
    case CommentEntry(d) => Comment(d)
  }

  /** The subtrees rooted at the entries `ks`, all children-to-be of entry `p`. */
  function UnfoldAll(a: seq<Entry>, p: nat, ks: seq<nat>): seq<Node>
    requires KidsAfter(a) && p < |a| && Between(ks, p + 1, |a|)
    decreases |a| - p, 0, |ks|
  {
    if ks == [] then [] else [Unfold(a, ks[0])] + UnfoldAll(a, p, ks[1..])
  }

  /** The indices of the subtree rooted at entry `i`, in tree order. */
  function SubtreeIds(a: seq<Entry>, i: nat): (r: seq<nat>)
    requires KidsAfter(a) && i < |a|
    ensures Between(r, i, |a|)
    decreases |a| - i, 1, 0
  {
    [i] + ForestIds(a, i, Kids(a[i]))
  }

  /** The indices of the subtrees rooted at `ks`, in tree order. */
  function ForestIds(a: seq<Entry>, p: nat, ks: seq<nat>): (r: seq<nat>)
    requires KidsAfter(a) && p < |a| && Between(ks, p + 1, |a|)
    ensures Between(r, p + 1, |a|)
    decreases |a| - p, 0, |ks|
  {
    if ks == [] then [] else SubtreeIds(a, ks[0]) + ForestIds(a, p, ks[1..])
  }

  /** The indices among `ids` of noise elements, in order. */
  function NoiseIds(a: seq<Entry>, ids: seq<nat>): (r: seq<nat>)
    requires Between(ids, 0, |a|)
    ensures Between(r, 0, |a|)
    ensures forall x :: x in r <==> (x in ids && IsNoiseEntry(a[x]))
  {
    if ids == [] then []
    else (if IsNoiseEntry(a[ids[0]]) then [ids[0]] else []) + NoiseIds(a, ids[1..])
  }

  function UnfoldEach(a: seq<Entry>, ids: seq<nat>): seq<Node>
    requires KidsAfter(a) && Between(ids, 0, |a|)
  {
    if ids == [] then [] else [Unfold(a, ids[0])] + UnfoldEach(a, ids[1..])
  }

  /** `ks` without the indices in `gone`. */
  function Without(ks: seq<nat>, gone: set<nat>): (r: seq<nat>)
    ensures forall k :: k in r <==> k in ks && k !in gone
  {
    if ks == [] then [] else (if ks[0] in gone then [] else [ks[0]]) + Without(ks[1..], gone)
  }

  /** The entry with the children in `gone` taken out of its child list. */
  function Detach(e: Entry, gone: set<nat>): Entry {
    match e
    case ElementEntry(t, ks) => ElementEntry(t, Without(ks, gone))
    case _ => e
  }

  /** The arena with every index in `gone` taken out of every child list. */
  function Strip(a: seq<Entry>, gone: set<nat>): (b: seq<Entry>)
    ensures |b| == |a|
    ensures forall j :: 0 <= j < |a| ==> b[j] == Detach(a[j], gone)
  {
    seq(|a|, j requires 0 <= j < |a| => Detach(a[j], gone))
  }

  /** Membership of the entries `ids` in `gone` is exactly being a noise element. */
  predicate Agrees(a: seq<Entry>, gone: set<nat>, ids: seq<nat>)
    requires Between(ids, 0, |a|)
  {
    forall j :: 0 <= j < |ids| ==> (ids[j] in gone <==> IsNoiseEntry(a[ids[j]]))
  }

  // ---------------------------------------------------------------------------

  lemma AgreesSplit(a: seq<Entry>, gone: set<nat>, s: seq<nat>, t: seq<nat>)
    requires Between(s + t, 0, |a|) && Agrees(a, gone, s + t)
    ensures Between(s, 0, |a|) && Agrees(a, gone, s)
    ensures Between(t, 0, |a|) && Agrees(a, gone, t)
  {
    assert forall j :: 0 <= j < |s| ==> s[j] == (s + t)[j];
    assert forall j :: 0 <= j < |t| ==> t[j] == (s + t)[|s| + j];
  }

  lemma PrefixStep(s: seq<nat>, i: nat)
    requires i < |s|
    ensures s[..i + 1] == s[..i] + [s[i]]
  {
  }

  lemma StripKeepsKidsAfter(a: seq<Entry>, gone: set<nat>)
    requires KidsAfter(a)
    ensures KidsAfter(Strip(a, gone))
  {
    var b := Strip(a, gone);
    forall p | 0 <= p < |b| ensures Between(Kids(b[p]), p + 1, |b|) {
      assert Kids(b[p]) == Without(Kids(a[p]), gone);
      WithoutBetween(Kids(a[p]), gone, p + 1, |a|);
    }
  }

  lemma {:induction false} WithoutNothing(ks: seq<nat>)
    ensures Without(ks, {}) == ks
  {
    if ks != [] {
      WithoutNothing(ks[1..]);
      assert [ks[0]] + ks[1..] == ks;
    }
  }

  lemma StripNothing(a: seq<Entry>)
    ensures Strip(a, {}) == a
  {
    forall j | 0 <= j < |a| ensures Strip(a, {})[j] == a[j] {
      WithoutNothing(Kids(a[j]));
    }
  }

  lemma {:induction false} WithoutBetween(ks: seq<nat>, gone: set<nat>, lo: int, hi: int)
    requires Between(ks, lo, hi)
    ensures Between(Without(ks, gone), lo, hi)
  {
    if ks != [] {
      WithoutBetween(ks[1..], gone, lo, hi);
    }
  }

  lemma {:induction false} NoiseIdsBetween(a: seq<Entry>, ids: seq<nat>, lo: int, hi: int)
    requires Between(ids, 0, |a|) && Between(ids, lo, hi)
    ensures Between(NoiseIds(a, ids), lo, hi)
  {
    if ids != [] {
      NoiseIdsBetween(a, ids[1..], lo, hi);
    }
  }

  lemma {:induction false} WithoutTwice(ks: seq<nat>, r: set<nat>, x: nat)
    ensures Without(Without(ks, r), {x}) == Without(ks, r + {x})
  {
    if ks != [] {
      var k := ks[0];
      WithoutTwice(ks[1..], r, x);
      var w := Without(ks, r);
      if k in r {
        assert w == Without(ks[1..], r);
        assert Without(ks, r + {x}) == Without(ks[1..], r + {x});
      } else {
        assert w == [k] + Without(ks[1..], r);
        assert w[0] == k && w[1..] == Without(ks[1..], r);
        if k == x {
          assert Without(w, {x}) == Without(w[1..], {x});
          assert Without(ks, r + {x}) == Without(ks[1..], r + {x});
        } else {
          assert Without(w, {x}) == [k] + Without(w[1..], {x});
          assert Without(ks, r + {x}) == [k] + Without(ks[1..], r + {x});
        }
      }
    }
  }

  lemma {:induction false} WithoutAbsent(ks: seq<nat>, x: nat)
    requires x !in ks
    ensures Without(ks, {x}) == ks
  {
    if ks != [] {
      WithoutAbsent(ks[1..], x);
      assert [ks[0]] + ks[1..] == ks;
    }
  }

  /**
   * Taking `x` out of its parent's child list (or out of nothing, when it has no
   * parent) turns the arena stripped of `r` into the arena stripped of `r + {x}`.
   */
  lemma StripOneMore(a: seq<Entry>, r: set<nat>, par: seq<int>, x: nat)
    requires ParentLinks(Strip(a, r), par) && x < |a|
    ensures par[x] >= 0 ==>
      Strip(a, r + {x}) == Strip(a, r)[par[x] := Detach(Strip(a, r)[par[x]], {x})]
    ensures par[x] < 0 ==> Strip(a, r + {x}) == Strip(a, r)
  {
    var b := Strip(a, r);
    var c := Strip(a, r + {x});
    forall q | 0 <= q < |a| ensures c[q] == if q == par[x] then Detach(b[q], {x}) else b[q] {
      match a[q]
      case ElementEntry(t, ks) =>
        WithoutTwice(ks, r, x);
        if q != par[x] {
          assert x !in Kids(b[q]);
          WithoutAbsent(Without(ks, r), x);
        }
      case _ =>
    }
  }

  /**
   * Unfolding the arena stripped of the noise elements gives the pruned
   * subtrees: in-place removal of the matches and the pure filter agree.
   */
  lemma {:induction false} UnfoldStripped(a: seq<Entry>, gone: set<nat>, p: nat, ks: seq<nat>)
    requires KidsAfter(a) && p < |a| && Between(ks, p + 1, |a|)
    requires Agrees(a, gone, ForestIds(a, p, ks))
    ensures KidsAfter(Strip(a, gone)) && Between(Without(ks, gone), p + 1, |a|)
    ensures UnfoldAll(Strip(a, gone), p, Without(ks, gone)) == Prune(UnfoldAll(a, p, ks))
    decreases |a| - p, 0, |ks|
  {
    StripKeepsKidsAfter(a, gone);
    WithoutBetween(ks, gone, p + 1, |a|);
    if ks != [] {
      ForestParts(a, gone, p, ks);
      UnfoldStripped(a, gone, p, ks[1..]);
      WithoutBetween(ks[1..], gone, p + 1, |a|);
      if ks[0] in gone {
        UnfoldStrippedDrop(a, Strip(a, gone), gone, p, ks);
      } else {
        UnfoldStrippedTree(a, gone, ks[0]);
        UnfoldStrippedKeep(a, Strip(a, gone), gone, p, ks);
      }
    }
  }

  /** The agreement on a forest's indices is agreement on its first tree's and on the rest's. */
  lemma ForestParts(a: seq<Entry>, gone: set<nat>, p: nat, ks: seq<nat>)
    requires KidsAfter(a) && p < |a| && Between(ks, p + 1, |a|) && ks != []
    requires Agrees(a, gone, ForestIds(a, p, ks))
    ensures Agrees(a, gone, SubtreeIds(a, ks[0])) && Agrees(a, gone, ForestIds(a, p, ks[1..]))
    ensures ks[0] in gone <==> IsNoiseEntry(a[ks[0]])
  {
    assert ForestIds(a, p, ks) == SubtreeIds(a, ks[0]) + ForestIds(a, p, ks[1..]);
    AgreesSplit(a, gone, SubtreeIds(a, ks[0]), ForestIds(a, p, ks[1..]));
    assert SubtreeIds(a, ks[0])[0] == ks[0];
  }

  /** A removed first child leaves no trace: its subtree is pruned away whole. */
  lemma UnfoldStrippedDrop(a: seq<Entry>, b: seq<Entry>, gone: set<nat>, p: nat, ks: seq<nat>)
    requires KidsAfter(a) && KidsAfter(b) && |b| == |a| && p < |a| && Between(ks, p + 1, |a|) && ks != []
    requires Between(Without(ks[1..], gone), p + 1, |a|)
    requires ks[0] in gone && IsNoiseEntry(a[ks[0]])
    requires UnfoldAll(b, p, Without(ks[1..], gone)) == Prune(UnfoldAll(a, p, ks[1..]))
    ensures Between(Without(ks, gone), p + 1, |a|)
    ensures UnfoldAll(b, p, Without(ks, gone)) == Prune(UnfoldAll(a, p, ks))
  {
    var tail := UnfoldAll(a, p, ks[1..]);
    assert Without(ks, gone) == Without(ks[1..], gone);
    assert UnfoldAll(a, p, ks) == [Unfold(a, ks[0])] + tail;
    PruneCons(Unfold(a, ks[0]), tail);
    assert [Unfold(a, ks[0])][1..] == [];
    assert Prune([Unfold(a, ks[0])]) == [];
  }

  /** A kept first child stays first, as its own pruned subtree. */
  lemma UnfoldStrippedKeep(a: seq<Entry>, b: seq<Entry>, gone: set<nat>, p: nat, ks: seq<nat>)
    requires KidsAfter(a) && KidsAfter(b) && |b| == |a| && p < |a| && Between(ks, p + 1, |a|) && ks != []
    requires Between(Without(ks, gone), p + 1, |a|) && Between(Without(ks[1..], gone), p + 1, |a|)
    requires ks[0] !in gone
    requires UnfoldAll(b, p, Without(ks[1..], gone)) == Prune(UnfoldAll(a, p, ks[1..]))
    requires [Unfold(b, ks[0])] == Prune([Unfold(a, ks[0])])
    ensures UnfoldAll(b, p, Without(ks, gone)) == Prune(UnfoldAll(a, p, ks))
  {
    var tail := UnfoldAll(a, p, ks[1..]);
    PruneAppend([Unfold(a, ks[0])], tail);
    assert UnfoldAll(a, p, ks) == [Unfold(a, ks[0])] + tail;
    var w := Without(ks, gone);
    assert w == [ks[0]] + Without(ks[1..], gone);
    assert w[0] == ks[0] && w[1..] == Without(ks[1..], gone);
  }

  /** The whole document, stripped of exactly its noise elements, unfolds to the pruned tree. */
  lemma StrippedView(a: seq<Entry>, gone: set<nat>)
    requires |a| >= 1 && KidsAfter(a)
    requires forall x :: x in gone <==> x in ForestIds(a, 0, Kids(a[0])) && IsNoiseEntry(a[x])
    ensures KidsAfter(Strip(a, gone)) && Between(Kids(Strip(a, gone)[0]), 1, |a|)
    ensures UnfoldAll(Strip(a, gone), 0, Kids(Strip(a, gone)[0])) == Prune(UnfoldAll(a, 0, Kids(a[0])))
  {
    var all := ForestIds(a, 0, Kids(a[0]));
    forall j | 0 <= j < |all| ensures all[j] in gone <==> IsNoiseEntry(a[all[j]]) {
      assert all[j] in all;
    }
    UnfoldStripped(a, gone, 0, Kids(a[0]));
    assert Kids(Strip(a, gone)[0]) == Without(Kids(a[0]), gone);
  }

  /** The same for the single subtree rooted at a kept entry `k`. */
  lemma {:induction false} UnfoldStrippedTree(a: seq<Entry>, gone: set<nat>, k: nat)
    requires KidsAfter(a) && k < |a| && k !in gone
    requires Agrees(a, gone, SubtreeIds(a, k))
    ensures KidsAfter(Strip(a, gone))
    ensures [Unfold(Strip(a, gone), k)] == Prune([Unfold(a, k)])
    decreases |a| - k, 1, 0
  {
    StripKeepsKidsAfter(a, gone);
    var b := Strip(a, gone);
    assert SubtreeIds(a, k)[0] == k;
    match a[k]
    case ElementEntry(t, kk) =>
      var inner := ForestIds(a, k, kk);
      AgreesSplit(a, gone, [k], inner);
      UnfoldStripped(a, gone, k, kk);
      assert b[k] == ElementEntry(t, Without(kk, gone));
      assert Prune([Unfold(a, k)]) == [Element(t, Prune(UnfoldAll(a, k, kk)))] + Prune([]);
    case _ =>
      assert b[k] == a[k];
  }

  lemma {:induction false} UnfoldEachAppend(a: seq<Entry>, s: seq<nat>, t: seq<nat>)
    requires KidsAfter(a) && Between(s, 0, |a|) && Between(t, 0, |a|)
    ensures Between(s + t, 0, |a|)
    ensures UnfoldEach(a, s + t) == UnfoldEach(a, s) + UnfoldEach(a, t)
  {
    if s != [] {
      var st := s + t;
      assert st[0] == s[0] && st[1..] == s[1..] + t;
      UnfoldEachAppend(a, s[1..], t);
      var head := [Unfold(a, s[0])];
      assert UnfoldEach(a, st) == head + (UnfoldEach(a, s[1..]) + UnfoldEach(a, t));
    } else {
      assert s + t == t;
    }
  }

  /** The entries of a subtree, listed by `SubtreeIds`, unfold to the subtree's nodes in tree order. */
  lemma {:induction false} SubtreeIdsFollowTreeOrder(a: seq<Entry>, i: nat)
    requires KidsAfter(a) && i < |a|
    ensures UnfoldEach(a, SubtreeIds(a, i)) == Preorder([Unfold(a, i)])
    decreases |a| - i, 1, 0
  {
    var n := Unfold(a, i);
    var inner := ForestIds(a, i, Kids(a[i]));
    var cs := UnfoldAll(a, i, Kids(a[i]));
    ForestIdsFollowTreeOrder(a, i, Kids(a[i]));
    UnfoldEachAppend(a, [i], inner);
    assert [i][1..] == [];
    assert UnfoldEach(a, [i]) == [n];
    assert Preorder([n]) == [n] + Preorder(cs) by {
      match a[i]
      case ElementEntry(t, ks) =>
        assert Preorder([n]) == [n] + Preorder(cs) + Preorder([]);
      case _ =>
        assert Preorder([n]) == [n] + Preorder([]);
    }
  }

  /** The entries listed by `ForestIds` unfold to the forest's nodes in tree order. */
  lemma {:induction false} ForestIdsFollowTreeOrder(a: seq<Entry>, p: nat, ks: seq<nat>)
    requires KidsAfter(a) && p < |a| && Between(ks, p + 1, |a|)
    ensures UnfoldEach(a, ForestIds(a, p, ks)) == Preorder(UnfoldAll(a, p, ks))
    decreases |a| - p, 0, |ks|
  {
    if ks != [] {
      var k := ks[0];
      var rest := ks[1..];
      SubtreeIdsFollowTreeOrder(a, k);
      ForestIdsFollowTreeOrder(a, p, rest);
      UnfoldEachAppend(a, SubtreeIds(a, k), ForestIds(a, p, rest));
      PreorderAppend([Unfold(a, k)], UnfoldAll(a, p, rest));
    }
  }

  /** Filtering entries by the selector list, then unfolding, is filtering the unfolded nodes. */
  lemma {:induction false} NoiseIdsUnfold(a: seq<Entry>, ids: seq<nat>)
    requires KidsAfter(a) && Between(ids, 0, |a|)
    ensures UnfoldEach(a, NoiseIds(a, ids)) == NoiseNodes(UnfoldEach(a, ids))
  {
    if ids != [] {
      var x := ids[0];
      var rest := ids[1..];
      NoiseIdsUnfold(a, rest);
      var s := UnfoldEach(a, ids);
      assert s[0] == Unfold(a, x) && s[1..] == UnfoldEach(a, rest);
      var r := NoiseIds(a, ids);
      if IsNoiseEntry(a[x]) {
        assert IsNoise(s[0]);
        assert r == [x] + NoiseIds(a, rest);
        assert r[0] == x && r[1..] == NoiseIds(a, rest);
        assert NoiseNodes(s) == [s[0]] + NoiseNodes(s[1..]);
      } else {
        assert !IsNoise(s[0]) by {
          match a[x]
          case ElementEntry(t, ks) =>
          case _ =>
        }
        assert r == NoiseIds(a, rest);
        assert NoiseNodes(s) == NoiseNodes(s[1..]);
      }
    }
  }

  // ---------------------------------------------------------------------------

  /** Unlinking child `x` from its parent `p` keeps the child lists forward and the parent links exact. */
  lemma DetachKeepsLinks(a: seq<Entry>, par: seq<int>, p: nat, x: nat)
    requires KidsAfter(a) && ParentLinks(a, par) && p < |a| && x < |a| && par[x] == p
    ensures KidsAfter(a[p := Detach(a[p], {x})])
    ensures ParentLinks(a[p := Detach(a[p], {x})], par[x := -1])
  {
    var b := a[p := Detach(a[p], {x})];
    var pr := par[x := -1];
    WithoutBetween(Kids(a[p]), {x}, p + 1, |a|);
    assert Kids(b[p]) == Without(Kids(a[p]), {x});
    forall q | 0 <= q < |b| ensures Between(Kids(b[q]), q + 1, |b|) {
      if q != p {
        assert b[q] == a[q];
      }
    }
    forall y, q | 0 <= y < |b| && 0 <= q < |b| ensures y in Kids(b[q]) <==> pr[y] == q {
      assert y in Kids(a[q]) <==> par[y] == q;
      if q != p {
        assert b[q] == a[q];
      }
    }
  }

  /** The document the parser returns, which the extraction changes in place. */
  class Document {
    var entries: seq<Entry>
    var parent: seq<int>

    ghost predicate Valid()
      reads this
    {
      && |entries| >= 1
      && KidsAfter(entries)
      && ParentLinks(entries, parent)
    }

    /** The parser's result, handed over as an arena with entry 0 as the Document node. */
    constructor (entries: seq<Entry>, parent: seq<int>)
      requires |entries| >= 1 && KidsAfter(entries) && ParentLinks(entries, parent)
      ensures Valid()
      ensures this.entries == entries && this.parent == parent
    {
      this.entries := entries;
      this.parent := parent;
    }

    /** The document's top-level nodes as a tree. */
    function View(): seq<Node>
      reads this
      requires Valid()
    {
      UnfoldAll(entries, 0, Kids(entries[0]))
    }

    /**
     * Line 42: `querySelectorAll("script, style, nav, footer, aside")`, the
     * indices of the noise elements in the document, in tree order.
     */
    function QuerySelectorAll(): (ids: seq<nat>)
      reads this
      requires Valid()
      ensures Between(ids, 0, |entries|)
      ensures forall x :: x in ids <==> (x in ForestIds(entries, 0, Kids(entries[0])) && IsNoiseEntry(entries[x]))
      ensures UnfoldEach(entries, ids) == NoiseNodes(Preorder(View()))
    {
      var all := ForestIds(entries, 0, Kids(entries[0]));
      ForestIdsFollowTreeOrder(entries, 0, Kids(entries[0]));
      NoiseIdsUnfold(entries, all);
      NoiseIds(entries, all)
    }

    /** `p.removeChild(x)`: `x` leaves `p`'s child list and has no parent any more. */
    method RemoveChild(p: nat, x: nat)
      requires Valid() && p < |entries| && x < |entries| && parent[x] == p
      modifies this
      ensures Valid()
      ensures entries == old(entries)[p := Detach(old(entries)[p], {x})]
      ensures parent == old(parent)[x := -1]
    {
      DetachKeepsLinks(entries, parent, p, x);
      entries := entries[p := Detach(entries[p], {x})];
      parent := parent[x := -1];
    }

    /**
     * Lines 42-43: every element the selector list matches is removed from its
     * parent. Afterwards the document is the pure `Prune` of what it was.
     */
    method RemoveNoise()
      requires Valid()
      modifies this
      ensures Valid()
      ensures View() == Prune(old(View()))
    {
      var matches := QuerySelectorAll();
      ghost var a := entries;
      StripNothing(a);
      ghost var removed: set<nat> := {};
      var i := 0;
      while i < |matches|
        invariant 0 <= i <= |matches|
        invariant Valid() && |entries| == |a|
        invariant forall x :: x in removed <==> x in matches[..i]
        invariant entries == Strip(a, removed)
      {
        var el := matches[i];
        StripOneMore(a, removed, parent, el);
        if parent[el] >= 0 {
          RemoveChild(parent[el], el);
        }
        removed := removed + {el};
        PrefixStep(matches, i);
        i := i + 1;
      }
      assert matches[..i] == matches;
      StrippedView(a, removed);
    }
  }
}
