/** The database side of the label tree: label leaves, the store that holds them,
    and what "child", "subtree" and "post-order" mean over that store. */
module LabelStore {
  import opened Opt

  /** A column value of a label leaf: NULL, text, an integer or a flag. */
  datatype Cell = Null | Text(s: string) | Int(i: int) | Flag(b: bool)

  /** A label leaf row object. Its idx is assigned once, when the store adds it;
      its optional attributes are written afterwards. */
  class LabelLeaf {
    const idx: int
    const name: string
    const isRoot: bool
    const parentLeafId: Option<int>
    var externalId: Cell
    var abbreviation: Cell
    var description: Cell
    var timestamp: Cell
    var isDeleted: Cell

    constructor (idx: int, name: string, externalId: Cell, isRoot: bool, parentLeafId: Option<int>)
      ensures this.idx == idx && this.name == name && this.isRoot == isRoot
      ensures this.parentLeafId == parentLeafId && this.externalId == externalId
      ensures abbreviation == Null && description == Null && timestamp == Null && isDeleted == Null
    {
      this.idx := idx;
      this.name := name;
      this.isRoot := isRoot;
      this.parentLeafId := parentLeafId;
      this.externalId := externalId;
      abbreviation := Null;
      description := Null;
      timestamp := Null;
      isDeleted := Null;
    }
  }

  /** The store keeps its leaves by idx. Every leaf's idx is below the fresh-id counter
      and above its parent's idx, since a parent exists before its children are added. */
  ghost predicate WellFormed(recs: map<int, LabelLeaf>, next: int) {
    forall k :: k in recs ==>
      && recs[k].idx == k
      && k < next
      && (recs[k].parentLeafId.Some? ==> recs[k].parentLeafId.value < k)
  }

  /** The database manager: the leaves, the fresh-id counter of add, and the log of deletes. */
  class Store {
    var recs: map<int, LabelLeaf>
    var next: int
    var deleted: seq<int>

    ghost predicate Valid()
      reads this
    {
      WellFormed(recs, next)
    }

    constructor (first: int)
      ensures Valid() && recs == map[] && next == first && deleted == []
    {
      recs := map[];
      next := first;
      deleted := [];
    }

    /** get_label_leaf: the leaf stored under idx, if any. */
    function GetLabelLeaf(idx: int): (r: Option<LabelLeaf>)
      reads this
      ensures r.Some? <==> idx in recs
      ensures r.Some? ==> r.value == recs[idx]
    {
      if idx in recs then Some(recs[idx]) else None
    }

    /** add followed by commit: the new leaf gets the next fresh idx. A parent id must name
        a stored leaf (it is a foreign key). */
    method Add(name: string, externalId: Cell, isRoot: bool, parentLeafId: Option<int>)
      returns (leaf: LabelLeaf)
      requires Valid()
      requires parentLeafId.Some? ==> parentLeafId.value in recs
      modifies this`recs, this`next
      ensures Valid() && fresh(leaf)
      ensures leaf.idx == old(next) && leaf.name == name && leaf.isRoot == isRoot
      ensures leaf.parentLeafId == parentLeafId && leaf.externalId == externalId
      ensures leaf.abbreviation == Null && leaf.description == Null
      ensures leaf.timestamp == Null && leaf.isDeleted == Null
      ensures recs == old(recs)[leaf.idx := leaf] && next == old(next) + 1
    {
      leaf := new LabelLeaf(next, name, externalId, isRoot, parentLeafId);
      recs := recs[next := leaf];
      next := next + 1;
    }

    /** delete: the deletion is logged; what the database does with it is not modelled. */
    method Delete(leaf: LabelLeaf)
      modifies this`deleted
      ensures deleted == old(deleted) + [leaf.idx]
    {
      deleted := deleted + [leaf.idx];
    }
  }

  /** k is a leaf whose parent is x. */
  predicate IsChild(recs: map<int, LabelLeaf>, x: int, k: int) {
    k in recs && recs[k].parentLeafId == Some(x)
  }

  /** The children of x among the ids lo .. hi-1, in increasing idx order. */
  function ChildrenIn(recs: map<int, LabelLeaf>, x: int, lo: int, hi: int): seq<int>
    decreases hi - lo
  {
    if hi <= lo then []
    else (if IsChild(recs, x, lo) then [lo] else []) + ChildrenIn(recs, x, lo + 1, hi)
  }

  /** Every id of cs lies in lo .. hi-1 and is a child of x. */
  ghost predicate ListedChildren(recs: map<int, LabelLeaf>, x: int, lo: int, hi: int, cs: seq<int>) {
    forall i :: 0 <= i < |cs| ==> lo <= cs[i] < hi && IsChild(recs, x, cs[i])
  }

  ghost predicate Ascending(cs: seq<int>) {
    forall i, j :: 0 <= i < j < |cs| ==> cs[i] < cs[j]
  }

  /** cs lists exactly the children of x among lo .. hi-1, in increasing order. */
  ghost predicate ChildList(recs: map<int, LabelLeaf>, x: int, lo: int, hi: int, cs: seq<int>) {
    && ListedChildren(recs, x, lo, hi, cs)
    && (forall k :: lo <= k < hi && IsChild(recs, x, k) ==> k in cs)
    && Ascending(cs)
  }

  lemma {:induction false} ChildrenInSpec(recs: map<int, LabelLeaf>, x: int, lo: int, hi: int)
    ensures ChildList(recs, x, lo, hi, ChildrenIn(recs, x, lo, hi))
    decreases hi - lo
  {
    ChildrenInSound(recs, x, lo, hi);
    ChildrenInComplete(recs, x, lo, hi);
  }

  /** Each listed id is a child of x in range, and the list ascends. */
  lemma {:induction false} ChildrenInSound(recs: map<int, LabelLeaf>, x: int, lo: int, hi: int)
    ensures ListedChildren(recs, x, lo, hi, ChildrenIn(recs, x, lo, hi))
    ensures Ascending(ChildrenIn(recs, x, lo, hi))
    decreases hi - lo
  {
    if lo < hi {
      ChildrenInSound(recs, x, lo + 1, hi);
      var rest := ChildrenIn(recs, x, lo + 1, hi);
      if IsChild(recs, x, lo) {
        var cs := [lo] + rest;
        assert ChildrenIn(recs, x, lo, hi) == cs;
        forall i | 0 <= i < |cs| ensures lo <= cs[i] < hi && IsChild(recs, x, cs[i]) {
          if i > 0 { assert cs[i] == rest[i - 1]; }
        }
        forall i, j | 0 <= i < j < |cs| ensures cs[i] < cs[j] {
          assert cs[j] == rest[j - 1];
          if i > 0 { assert cs[i] == rest[i - 1]; }
        }
      } else {
        assert ChildrenIn(recs, x, lo, hi) == rest;
      }
    }
  }

  /** Every child of x in range is listed. */
  lemma {:induction false} ChildrenInComplete(recs: map<int, LabelLeaf>, x: int, lo: int, hi: int)
    ensures forall k :: lo <= k < hi && IsChild(recs, x, k) ==> k in ChildrenIn(recs, x, lo, hi)
    decreases hi - lo
  {
    if lo < hi {
      ChildrenInComplete(recs, x, lo + 1, hi);
      var rest := ChildrenIn(recs, x, lo + 1, hi);
      assert ChildrenIn(recs, x, lo, hi) == (if IsChild(recs, x, lo) then [lo] else []) + rest;
    }
  }

  /** A leaf that is no leaf's parent has no children in any range. */
  lemma {:induction false} NoChildrenIn(recs: map<int, LabelLeaf>, x: int, lo: int, hi: int)
    requires forall k :: k in recs ==> recs[k].parentLeafId != Some(x)
    ensures ChildrenIn(recs, x, lo, hi) == []
    decreases hi - lo
  {
    if lo < hi {
      NoChildrenIn(recs, x, lo + 1, hi);
    }
  }

  /** label_leaves of x: every leaf whose parent is x, ordered by idx. */
  function Children(recs: map<int, LabelLeaf>, next: int, x: int): seq<int> {
    ChildrenIn(recs, x, x + 1, next)
  }

  /** The children of x lie between x and the fresh-id counter, ascend strictly, and,
      in a well-formed store, include every leaf whose parent is x. */
  lemma ChildrenSpec(recs: map<int, LabelLeaf>, next: int, x: int)
    ensures ChildList(recs, x, x + 1, next, Children(recs, next, x))
    ensures WellFormed(recs, next) ==> forall k :: IsChild(recs, x, k) ==> k in Children(recs, next, x)
  {
    ChildrenInSpec(recs, x, x + 1, next);
  }

  /** d lies in the subtree of x: d is x, or the chain of parent links from d reaches x. */
  predicate InSubtree(recs: map<int, LabelLeaf>, x: int, d: int)
    decreases d - x
  {
    || d == x
    || (&& d > x && d in recs && recs[d].parentLeafId.Some?
        && recs[d].parentLeafId.value < d
        && InSubtree(recs, x, recs[d].parentLeafId.value))
  }

  /** The stored leaves of the subtree of x, x included when it is stored. */
  ghost function SubtreeIds(recs: map<int, LabelLeaf>, x: int): set<int> {
    set d | d in recs && InSubtree(recs, x, d)
  }

  lemma {:induction false} InSubtreeBelow(recs: map<int, LabelLeaf>, x: int, d: int)
    requires InSubtree(recs, x, d)
    ensures x <= d
  {
  }

  lemma {:induction false} InSubtreeTransitive(recs: map<int, LabelLeaf>, a: int, b: int, c: int)
    requires InSubtree(recs, a, b) && InSubtree(recs, b, c)
    ensures InSubtree(recs, a, c)
    decreases c - b
  {
    if c != b {
      var p := recs[c].parentLeafId.value;
      InSubtreeTransitive(recs, a, b, p);
      InSubtreeBelow(recs, a, b);
    }
  }

  /** Two ancestors of one leaf lie on one chain. */
  lemma {:induction false} AncestorsOnOneChain(recs: map<int, LabelLeaf>, a: int, b: int, d: int)
    requires InSubtree(recs, a, d) && InSubtree(recs, b, d)
    ensures InSubtree(recs, a, b) || InSubtree(recs, b, a)
    decreases (d - a) + (d - b)
  {
    InSubtreeBelow(recs, a, d);
    InSubtreeBelow(recs, b, d);
    if d != a && d != b {
      AncestorsOnOneChain(recs, a, b, recs[d].parentLeafId.value);
    }
  }

  /** The subtrees of two different children of one leaf share no leaf. */
  lemma SiblingSubtreesDisjoint(recs: map<int, LabelLeaf>, next: int, x: int, c1: int, c2: int, d: int)
    requires WellFormed(recs, next)
    requires IsChild(recs, x, c1) && IsChild(recs, x, c2) && c1 != c2
    ensures !(InSubtree(recs, c1, d) && InSubtree(recs, c2, d))
  {
    if InSubtree(recs, c1, d) && InSubtree(recs, c2, d) {
      AncestorsOnOneChain(recs, c1, c2, d);
      if InSubtree(recs, c1, c2) {
        InSubtreeBelow(recs, c1, x);
      } else {
        InSubtreeBelow(recs, c2, x);
      }
    }
  }

  /** Whatever lies in a child's subtree lies in the parent's. */
  lemma ChildSubtreeInside(recs: map<int, LabelLeaf>, next: int, x: int, c: int, d: int)
    requires WellFormed(recs, next)
    requires IsChild(recs, x, c) && InSubtree(recs, c, d)
    ensures InSubtree(recs, x, d)
  {
    assert InSubtree(recs, x, x);
    assert InSubtree(recs, x, c);
    InSubtreeTransitive(recs, x, c, d);
  }

  /** Every proper descendant of x lies in the subtree of one of x's children. */
  lemma {:induction false} DescendantUnderChild(recs: map<int, LabelLeaf>, next: int, x: int, d: int)
    returns (i: nat)
    requires WellFormed(recs, next)
    requires InSubtree(recs, x, d) && d != x
    ensures i < |Children(recs, next, x)| && InSubtree(recs, Children(recs, next, x)[i], d)
    decreases d - x
  {
    var cs := Children(recs, next, x);
    ChildrenSpec(recs, next, x);
    var p := recs[d].parentLeafId.value;
    if p == x {
      assert IsChild(recs, x, d);
      i :| 0 <= i < |cs| && cs[i] == d;
    } else {
      i := DescendantUnderChild(recs, next, x, p);
      InSubtreeBelow(recs, cs[i], p);
    }
  }

  /** The union of the subtrees of the leaves cs. */
  ghost function UnionOfSubtrees(recs: map<int, LabelLeaf>, cs: seq<int>): set<int> {
    if cs == [] then {} else UnionOfSubtrees(recs, cs[..|cs| - 1]) + SubtreeIds(recs, cs[|cs| - 1])
  }

  lemma {:induction false} UnionOfSubtreesMember(recs: map<int, LabelLeaf>, cs: seq<int>, d: int)
    ensures d in UnionOfSubtrees(recs, cs) <==> exists i :: 0 <= i < |cs| && d in SubtreeIds(recs, cs[i])
  {
    if cs != [] {
      var init := cs[..|cs| - 1];
      UnionOfSubtreesMember(recs, init, d);
      if d in UnionOfSubtrees(recs, init) {
        var i :| 0 <= i < |init| && d in SubtreeIds(recs, init[i]);
        assert cs[i] == init[i];
      }
      if exists i :: 0 <= i < |cs| && d in SubtreeIds(recs, cs[i]) {
        var i :| 0 <= i < |cs| && d in SubtreeIds(recs, cs[i]);
        if i < |init| {
          assert init[i] == cs[i];
        }
      }
    }
  }

  /** The subtree of a stored leaf is the leaf and the subtrees of its children. */
  lemma SubtreeDecomposes(recs: map<int, LabelLeaf>, next: int, x: int)
    requires WellFormed(recs, next) && x in recs
    ensures SubtreeIds(recs, x) == {x} + UnionOfSubtrees(recs, Children(recs, next, x))
  {
    var cs := Children(recs, next, x);
    ChildrenSpec(recs, next, x);
    forall d | d in SubtreeIds(recs, x) && d != x
      ensures d in UnionOfSubtrees(recs, cs)
    {
      var i := DescendantUnderChild(recs, next, x, d);
      UnionOfSubtreesMember(recs, cs, d);
    }
    forall d | d in UnionOfSubtrees(recs, cs)
      ensures d in SubtreeIds(recs, x)
    {
      UnionOfSubtreesMember(recs, cs, d);
      var i :| 0 <= i < |cs| && d in SubtreeIds(recs, cs[i]);
      ChildSubtreeInside(recs, next, x, cs[i], d);
    }
    assert InSubtree(recs, x, x);
  }

  /** The stored leaves whose idx is in ks, by idx. */
  ghost function LeavesOf(recs: map<int, LabelLeaf>, ks: set<int>): map<int, LabelLeaf> {
    map k | k in ks && k in recs :: recs[k]
  }

  /** Indexing the leaves of a then those of b is indexing those of a + b. */
  lemma LeavesOfUnion(base: map<int, LabelLeaf>, recs: map<int, LabelLeaf>, a: set<int>, b: set<int>)
    ensures base + LeavesOf(recs, a) + LeavesOf(recs, b) == base + LeavesOf(recs, a + b)
  {
  }

  /** The order in which delete_subtree deletes the proper descendants of x:
      for each child, its own descendants first and then the child. */
  function PostOrder(recs: map<int, LabelLeaf>, next: int, x: int): seq<int>
    decreases next - x, 1, 0
  {
    ChildrenSpec(recs, next, x);
    PostOrderOf(recs, next, Children(recs, next, x), x)
  }

  /** The deletions for the children cs of lo, one child after another. */
  function PostOrderOf(recs: map<int, LabelLeaf>, next: int, cs: seq<int>, lo: int): seq<int>
    requires forall i :: 0 <= i < |cs| ==> lo < cs[i] < next
    decreases next - lo, 0, |cs|
  {
    if cs == [] then []
    else
      var c := cs[|cs| - 1];
      PostOrderOf(recs, next, cs[..|cs| - 1], lo) + PostOrder(recs, next, c) + [c]
  }

  /** Deleting the next child's subtree and then the child extends the deletions so far
      (logged after log) by that child's part of the post-order. */
  lemma PostOrderOfSnoc(recs: map<int, LabelLeaf>, next: int, cs: seq<int>, i: int, lo: int, log: seq<int>)
    requires 0 <= i < |cs|
    requires forall k :: 0 <= k < |cs| ==> lo < cs[k] < next
    ensures log + PostOrderOf(recs, next, cs[..i], lo) + PostOrder(recs, next, cs[i]) + [cs[i]]
            == log + PostOrderOf(recs, next, cs[..i + 1], lo)
  {
    assert cs[..i + 1][..i] == cs[..i];
    var a, b := PostOrderOf(recs, next, cs[..i], lo), PostOrder(recs, next, cs[i]);
    assert PostOrderOf(recs, next, cs[..i + 1], lo) == a + b + [cs[i]];
    assert log + a + b + [cs[i]] == log + (a + b + [cs[i]]);
  }

  /** No leaf of s is followed by a leaf of its own subtree (in particular, by itself). */
  ghost predicate DescendantsFirst(recs: map<int, LabelLeaf>, s: seq<int>) {
    forall i, j :: 0 <= i < j < |s| ==> !InSubtree(recs, s[i], s[j])
  }

  lemma DescendantsFirstConcat(recs: map<int, LabelLeaf>, a: seq<int>, b: seq<int>)
    requires DescendantsFirst(recs, a) && DescendantsFirst(recs, b)
    requires forall i, j :: 0 <= i < |a| && 0 <= j < |b| ==> !InSubtree(recs, a[i], b[j])
    ensures DescendantsFirst(recs, a + b)
  {
  }

  /** The post-order of x holds exactly the proper descendants of x, each stored leaf
      after every leaf of its own subtree, so each one exactly once. */
  lemma {:induction false} PostOrderCorrect(recs: map<int, LabelLeaf>, next: int, x: int)
    requires WellFormed(recs, next)
    ensures forall e :: e in PostOrder(recs, next, x) <==> e in SubtreeIds(recs, x) && e != x
    ensures DescendantsFirst(recs, PostOrder(recs, next, x))
    decreases next - x, 1, 0
  {
    var cs := Children(recs, next, x);
    ChildrenSpec(recs, next, x);
    PostOrderOfCorrect(recs, next, cs, x);
    forall e ensures e in PostOrder(recs, next, x) <==> e in SubtreeIds(recs, x) && e != x {
      if e in SubtreeIds(recs, x) && e != x {
        var i := DescendantUnderChild(recs, next, x, e);
      }
      if e in PostOrder(recs, next, x) {
        var i :| 0 <= i < |cs| && e in SubtreeIds(recs, cs[i]);
        ChildSubtreeInside(recs, next, x, cs[i], e);
        InSubtreeBelow(recs, cs[i], e);
      }
    }
  }

  /** A leaf in the subtree of one child of lo is not above a leaf in the subtree of another. */
  lemma CousinNotBelow(recs: map<int, LabelLeaf>, next: int, lo: int, p: int, c: int, x: int, e: int)
    requires WellFormed(recs, next)
    requires IsChild(recs, lo, p) && IsChild(recs, lo, c) && p != c
    requires InSubtree(recs, p, x) && InSubtree(recs, c, e)
    ensures !InSubtree(recs, x, e)
  {
    if InSubtree(recs, x, e) {
      InSubtreeTransitive(recs, p, x, e);
      SiblingSubtreesDisjoint(recs, next, lo, p, c, e);
    }
  }

  lemma {:induction false} PostOrderOfCorrect(recs: map<int, LabelLeaf>, next: int, cs: seq<int>, lo: int)
    requires WellFormed(recs, next)
    requires forall i :: 0 <= i < |cs| ==> lo < cs[i] < next && IsChild(recs, lo, cs[i])
    requires forall i, j :: 0 <= i < j < |cs| ==> cs[i] < cs[j]
    ensures forall e :: e in PostOrderOf(recs, next, cs, lo) <==>
              exists i :: 0 <= i < |cs| && e in SubtreeIds(recs, cs[i])
    ensures DescendantsFirst(recs, PostOrderOf(recs, next, cs, lo))
    decreases next - lo, 0, |cs|
  {
    if cs != [] {
      var init, c := cs[..|cs| - 1], cs[|cs| - 1];
      PostOrderOfCorrect(recs, next, init, lo);
      PostOrderCorrect(recs, next, c);
      var a, b := PostOrderOf(recs, next, init, lo), PostOrder(recs, next, c);
      assert InSubtree(recs, c, c);
      forall e ensures e in a + b + [c] <==> exists i :: 0 <= i < |cs| && e in SubtreeIds(recs, cs[i]) {
        if e in a {
          var i :| 0 <= i < |init| && e in SubtreeIds(recs, init[i]);
          assert cs[i] == init[i];
        }
        if exists i :: 0 <= i < |cs| && e in SubtreeIds(recs, cs[i]) {
          var i :| 0 <= i < |cs| && e in SubtreeIds(recs, cs[i]);
          if i < |init| { assert init[i] == cs[i]; }
        }
      }
      // nothing in b + [c] lies below a leaf of a: they are in the subtree of a later sibling
      forall i, j | 0 <= i < |a| && 0 <= j < |b + [c]|
        ensures !InSubtree(recs, a[i], (b + [c])[j])
      {
        var e, x := (b + [c])[j], a[i];
        assert e in b + [c];
        assert x in a;
        var k :| 0 <= k < |init| && x in SubtreeIds(recs, init[k]);
        assert init[k] == cs[k];
        CousinNotBelow(recs, next, lo, init[k], c, x, e);
      }
      // c itself lies below none of its proper descendants
      forall i | 0 <= i < |b| ensures !InSubtree(recs, b[i], c) {
        var e := b[i];
        assert e in b;
        if InSubtree(recs, e, c) {
          InSubtreeBelow(recs, e, c);
          InSubtreeBelow(recs, c, e);
        }
      }
      assert DescendantsFirst(recs, [c]);
      DescendantsFirstConcat(recs, b, [c]);
      DescendantsFirstConcat(recs, a, b + [c]);
      assert a + b + [c] == a + (b + [c]);
    }
  }

  /** What delete_tree deletes: the whole subtree of the root, the root last. */
  lemma DeleteTreeOrder(recs: map<int, LabelLeaf>, next: int, r: int)
    requires WellFormed(recs, next) && r in recs
    ensures forall e :: e in PostOrder(recs, next, r) + [r] <==> e in SubtreeIds(recs, r)
    ensures DescendantsFirst(recs, PostOrder(recs, next, r) + [r])
  {
    var p := PostOrder(recs, next, r);
    PostOrderCorrect(recs, next, r);
    assert InSubtree(recs, r, r);
    forall i | 0 <= i < |p| ensures !InSubtree(recs, p[i], r) {
      assert p[i] in p;
    }
    assert DescendantsFirst(recs, [r]);
    DescendantsFirstConcat(recs, p, [r]);
  }

  /** A sequence in which no leaf is followed by a leaf of its own subtree repeats no leaf. */
  lemma DescendantsFirstDistinct(recs: map<int, LabelLeaf>, s: seq<int>, i: int, j: int)
    requires DescendantsFirst(recs, s) && 0 <= i < j < |s|
    ensures s[i] != s[j]
  {
  }
}
