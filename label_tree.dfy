/** The label tree: a root leaf, an idx-to-leaf index of the leaves it knows, and the
    operations that build, export and delete it through the store. */
module LabelTreeModel {
  import opened Opt
  import opened LabelStore
  import opened LabelRows

  /** A node of to_hierarchical_dict: the leaf's own dictionary is represented by its idx. */
  datatype LeafDict = LeafDict(idx: int, children: seq<LeafDict>)

  /** d mirrors the subtree of x: it is x's node, and its children mirror x's children in order. */
  ghost predicate Mirrors(recs: map<int, LabelLeaf>, next: int, d: LeafDict, x: int)
    decreases next - x
  {
    ChildrenSpec(recs, next, x);
    var cs := Children(recs, next, x);
    && d.idx == x
    && |d.children| == |cs|
    && forall i :: 0 <= i < |cs| ==> Mirrors(recs, next, d.children[i], cs[i])
  }

  /** The ids of the nodes of d. */
  function DictIds(d: LeafDict): set<int>
    decreases d, |d.children| + 1
  {
    {d.idx} + ChildIdsUpTo(d, |d.children|)
  }

  /** The ids of the nodes below the first n children of d. */
  function ChildIdsUpTo(d: LeafDict, n: nat): set<int>
    requires n <= |d.children|
    decreases d, n
  {
    if n == 0 then {} else ChildIdsUpTo(d, n - 1) + DictIds(d.children[n - 1])
  }

  /** A leaf without children gets an empty children list. */
  lemma MirrorsLeaf(recs: map<int, LabelLeaf>, next: int, d: LeafDict, x: int)
    requires Mirrors(recs, next, d, x)
    requires forall k :: k in recs ==> recs[k].parentLeafId != Some(x)
    ensures d.children == []
  {
    NoChildrenIn(recs, x, x + 1, next);
  }

  /** The dictionary of a subtree is determined by the store: two mirrors of x are equal. */
  lemma {:induction false} MirrorsUnique(recs: map<int, LabelLeaf>, next: int, d: LeafDict, e: LeafDict, x: int)
    requires Mirrors(recs, next, d, x) && Mirrors(recs, next, e, x)
    ensures d == e
    decreases d
  {
    ChildrenSpec(recs, next, x);
    var cs := Children(recs, next, x);
    forall i | 0 <= i < |cs| ensures d.children[i] == e.children[i] {
      MirrorsUnique(recs, next, d.children[i], e.children[i], cs[i]);
    }
  }

  /** The nodes of the dictionary of a stored leaf are exactly the leaves of its subtree. */
  lemma {:induction false} MirrorsIds(recs: map<int, LabelLeaf>, next: int, d: LeafDict, x: int)
    requires WellFormed(recs, next) && x in recs
    requires Mirrors(recs, next, d, x)
    ensures DictIds(d) == SubtreeIds(recs, x)
    decreases d, |d.children| + 1
  {
    ChildrenSpec(recs, next, x);
    var cs := Children(recs, next, x);
    MirrorsChildIds(recs, next, d, x, |cs|);
    assert cs[..|cs|] == cs;
    SubtreeDecomposes(recs, next, x);
  }

  lemma {:induction false} MirrorsChildIds(recs: map<int, LabelLeaf>, next: int, d: LeafDict, x: int, n: nat)
    requires WellFormed(recs, next)
    requires Mirrors(recs, next, d, x)
    requires n <= |Children(recs, next, x)|
    ensures n <= |d.children|
    ensures ChildIdsUpTo(d, n) == UnionOfSubtrees(recs, Children(recs, next, x)[..n])
    decreases d, n
  {
    ChildrenSpec(recs, next, x);
    var cs := Children(recs, next, x);
    if n > 0 {
      MirrorsChildIds(recs, next, d, x, n - 1);
      assert IsChild(recs, x, cs[n - 1]);
      MirrorsIds(recs, next, d.children[n - 1], cs[n - 1]);
      assert cs[..n][..n - 1] == cs[..n - 1];
    }
  }

  /** The outcome of import_df: done, or the exception it raises. */
  datatype ImportOutcome = Done | ValueError | KeyError

  /** The root leaf created from the root row: the row's name, no parent, flagged as root,
      and the row's optional columns where present (NULL otherwise). */
  ghost predicate ImportedRoot(leaf: LabelLeaf, row: Row)
    reads leaf
  {
    && leaf.name == row.name
    && leaf.isRoot && leaf.parentLeafId == None
    && leaf.abbreviation == AttrFrom(row, "abbreviation", Null)
    && leaf.description == AttrFrom(row, "description", Null)
    && leaf.timestamp == AttrFrom(row, "timestamp", Null)
    && leaf.externalId == AttrFrom(row, "external_id", Null)
    && leaf.isDeleted == AttrFrom(row, "is_deleted", Null)
  }

  /** The store went from recs0 (fresh id next0) to recs (fresh id next) by importing df
      below rootRow: the root leaf first, at next0, then the leaves the plan lists for the
      table's child dictionary, in order; the index gained exactly the new leaves. */
  ghost predicate TreeImported(recs0: map<int, LabelLeaf>, next0: int, tree0: map<int, LabelLeaf>,
                               recs: map<int, LabelLeaf>, next: int, tree: map<int, LabelLeaf>,
                               root: LabelLeaf, rootRow: Row, df: seq<Row>)
    reads root, recs.Values
  {
    && root.idx == next0 && next0 !in recs0
    && ImportedRoot(root, rootRow)
    && Imports(recs0[next0 := root], recs, next0 + 1, next, ImportPlan(df, rootRow, next0))
    && tree == tree0 + (recs - recs0.Keys)
  }

  /** The child dictionary of import_df, built row by row in table order. */
  method GroupByParent(df: seq<Row>) returns (childs: map<int, seq<Row>>)
    ensures childs == Grouped(df)
  {
    childs := map[];
    var i := 0;
    while i < |df|
      invariant 0 <= i <= |df|
      invariant childs == Grouped(df[..i])
    {
      var row := df[i];
      GroupedSnoc(df, i);
      if row.parentLeafId.Some? {
        var p := row.parentLeafId.value;
        var group := if p in childs then childs[p] else [];
        childs := childs[p := group + [row]];
      }
      i := i + 1;
    }
    assert df[..|df|] == df;
  }

  /** Moving a prefix of what is left over to what is done keeps the whole. */
  lemma ConcatShift<T>(done: seq<T>, rest: seq<T>, l: seq<T>, rest': seq<T>, whole: seq<T>)
    requires done + rest == whole && rest == l + rest'
    ensures (done + l) + rest' == whole
  {
  }

  /** after keeps every leaf of before and adds leaves only with ids in first .. last-1. */
  ghost predicate Grows(before: map<int, LabelLeaf>, after: map<int, LabelLeaf>, first: int, last: int) {
    && (forall k :: k in before ==> k in after && after[k] == before[k])
    && (forall k :: k in after ==> k in before || first <= k < last)
  }

  lemma GrowsTransitive(a: map<int, LabelLeaf>, b: map<int, LabelLeaf>, c: map<int, LabelLeaf>,
                        first: int, mid: int, last: int)
    requires Grows(a, b, first, mid) && Grows(b, c, mid, last) && first <= mid <= last
    ensures Grows(a, c, first, last)
  {
  }

  /** The store went from before to after by creating, at ids first .. last-1, one leaf per
      entry of l, in order. */
  ghost predicate Imports(before: map<int, LabelLeaf>, after: map<int, LabelLeaf>, first: int, last: int, l: seq<Entry>)
    reads after.Values
  {
    && last == first + |l|
    && Grows(before, after, first, last)
    && ImportedFrom(after, first, l)
  }

  lemma ImportsNothing(recs: map<int, LabelLeaf>, first: int)
    ensures Imports(recs, recs, first, first, [])
  {
  }

  /** Two imports in a row are one import of both entry lists. */
  lemma ImportsCompose(r0: map<int, LabelLeaf>, r1: map<int, LabelLeaf>, r2: map<int, LabelLeaf>,
                       first: int, mid: int, last: int, a: seq<Entry>, b: seq<Entry>)
    requires Imports(r0, r1, first, mid, a) && Imports(r1, r2, mid, last, b)
    ensures Imports(r0, r2, first, last, a + b)
  {
    ImportedFromGrows(r1, r2, first, a);
    ImportedFromConcat(r2, first, a, b);
    GrowsTransitive(r0, r1, r2, first, mid, last);
  }

  /** A store that gained no leaves adds none to the index. */
  lemma NoNewLeaves(t: map<int, LabelLeaf>, recs: map<int, LabelLeaf>)
    ensures t + (recs - recs.Keys) == t
  {
  }

  /** Adding one leaf to the store and the index adds it as a gained leaf. */
  lemma IndexAddOne(tree0: map<int, LabelLeaf>, recs0: map<int, LabelLeaf>, c: int, child: LabelLeaf)
    requires c !in recs0
    ensures tree0[c := child] == tree0 + (recs0[c := child] - recs0.Keys)
  {
  }

  /** If the index holds the leaves the store gained since base, and then gains what the
      store gains next, it still holds the leaves gained since base. */
  lemma IndexGrows(t: map<int, LabelLeaf>, base: map<int, LabelLeaf>, recs0: map<int, LabelLeaf>, tree0: map<int, LabelLeaf>,
                   recs1: map<int, LabelLeaf>, tree1: map<int, LabelLeaf>, first: int, last: int)
    requires forall k :: k in base ==> k in recs0
    requires tree0 == t + (recs0 - base.Keys)
    requires tree1 == tree0 + (recs1 - recs0.Keys)
    requires Grows(recs0, recs1, first, last)
    ensures tree1 == t + (recs1 - base.Keys)
  {
    var rhs := t + (recs1 - base.Keys);
    forall k ensures k in tree1 <==> k in rhs {
      if k in recs0 { assert k in recs1; }
    }
    forall k | k in tree1 ensures tree1[k] == rhs[k] {
      if k in recs0 { assert recs1[k] == recs0[k]; }
    }
  }

  /** Indexing a leaf on its own is indexing its subtree before any child is visited. */
  lemma CollectStart(base: map<int, LabelLeaf>, recs: map<int, LabelLeaf>, x: int)
    requires x in recs
    ensures base[x := recs[x]] == base + LeavesOf(recs, {x} + UnionOfSubtrees(recs, []))
  {
  }

  /** Indexing the subtree of the next child extends the indexed part by that subtree. */
  lemma CollectStep(base: map<int, LabelLeaf>, t: map<int, LabelLeaf>, t': map<int, LabelLeaf>,
                    recs: map<int, LabelLeaf>, cs: seq<int>, i: int, x: int)
    requires 0 <= i < |cs|
    requires t == base + LeavesOf(recs, {x} + UnionOfSubtrees(recs, cs[..i]))
    requires t' == t + LeavesOf(recs, SubtreeIds(recs, cs[i]))
    ensures t' == base + LeavesOf(recs, {x} + UnionOfSubtrees(recs, cs[..i + 1]))
  {
    assert cs[..i + 1][..i] == cs[..i];
    var done, sub := {x} + UnionOfSubtrees(recs, cs[..i]), SubtreeIds(recs, cs[i]);
    assert {x} + UnionOfSubtrees(recs, cs[..i + 1]) == done + sub;
    LeavesOfUnion(base, recs, done, sub);
  }

  /** Once every child is visited, the indexed part is the whole subtree. */
  lemma CollectEnd(base: map<int, LabelLeaf>, t: map<int, LabelLeaf>, recs: map<int, LabelLeaf>, next: int, x: int)
    requires WellFormed(recs, next) && x in recs
    requires var cs := Children(recs, next, x); t == base + LeavesOf(recs, {x} + UnionOfSubtrees(recs, cs[..|cs|]))
    ensures t == base + LeavesOf(recs, SubtreeIds(recs, x))
  {
    var cs := Children(recs, next, x);
    assert cs[..|cs|] == cs;
    SubtreeDecomposes(recs, next, x);
  }

  class LabelTree {
    const dbm: Store
    var root: LabelLeaf?
    var tree: map<int, LabelLeaf>

    /** __init__: from a root leaf only that leaf is indexed; from a root id the whole
        subtree of that leaf is collected; with neither there is no root and no index. */
    constructor (dbm: Store, rootId: Option<int>, rootLeaf: LabelLeaf?)
      requires dbm.Valid()
      requires rootLeaf == null && rootId.Some? ==> rootId.value in dbm.recs
      ensures this.dbm == dbm
      ensures rootLeaf != null ==> root == rootLeaf && tree == map[rootLeaf.idx := rootLeaf]
      ensures rootLeaf == null && rootId.Some? ==>
        && root == dbm.recs[rootId.value]
        && tree.Keys == SubtreeIds(dbm.recs, rootId.value)
        && forall k :: k in tree ==> tree[k] == dbm.recs[k]
      ensures rootLeaf == null && rootId.None? ==> root == null && tree == map[]
    {
      this.dbm := dbm;
      root := null;
      tree := map[];
      new;
      if rootLeaf != null {
        root := rootLeaf;
        tree := tree[rootLeaf.idx := rootLeaf];
      } else if rootId.Some? {
        var r := dbm.GetLabelLeaf(rootId.value);
        root := r.value;
        CollectTree(r.value);
      }
    }

    /** __collect_tree: index the leaf and, recursively, every leaf below it. */
    method CollectTree(leaf: LabelLeaf)
      requires dbm.Valid() && leaf.idx in dbm.recs && dbm.recs[leaf.idx] == leaf
      modifies this`tree
      ensures tree == old(tree) + LeavesOf(dbm.recs, SubtreeIds(dbm.recs, leaf.idx))
      decreases dbm.next - leaf.idx
    {
      var x := leaf.idx;
      tree := tree[x := leaf];
      var cs := Children(dbm.recs, dbm.next, x);
      ChildrenSpec(dbm.recs, dbm.next, x);
      CollectStart(old(tree), dbm.recs, x);
      var i := 0;
      while i < |cs|
        invariant 0 <= i <= |cs|
        invariant tree == old(tree) + LeavesOf(dbm.recs, {x} + UnionOfSubtrees(dbm.recs, cs[..i]))
      {
        ghost var t := tree;
        CollectTree(dbm.recs[cs[i]]);
        CollectStep(old(tree), t, tree, dbm.recs, cs, i, x);
        i := i + 1;
      }
      CollectEnd(old(tree), tree, dbm.recs, dbm.next, x);
    }

    /** __collect_dict_tree: the dictionary of leaf with, in order, one child dictionary
        per child leaf, each filled recursively. */
    method CollectDictTree(leaf: LabelLeaf) returns (d: LeafDict)
      requires dbm.Valid()
      ensures Mirrors(dbm.recs, dbm.next, d, leaf.idx)
      decreases dbm.next - leaf.idx
    {
      var x := leaf.idx;
      var cs := Children(dbm.recs, dbm.next, x);
      ChildrenSpec(dbm.recs, dbm.next, x);
      var children: seq<LeafDict> := [];
      var i := 0;
      while i < |cs|
        invariant 0 <= i <= |cs| && |children| == i
        invariant forall j :: 0 <= j < i ==> Mirrors(dbm.recs, dbm.next, children[j], cs[j])
      {
        assert IsChild(dbm.recs, x, cs[i]);
        var child := CollectDictTree(dbm.recs[cs[i]]);
        children := children + [child];
        i := i + 1;
      }
      d := LeafDict(x, children);
    }

    /** to_hierarchical_dict: the dictionary of the whole tree, from the root down. */
    method ToHierarchicalDict() returns (d: LeafDict)
      requires dbm.Valid() && root != null
      ensures Mirrors(dbm.recs, dbm.next, d, root.idx)
      ensures root.idx in dbm.recs ==> DictIds(d) == SubtreeIds(dbm.recs, root.idx)
    {
      d := CollectDictTree(root);
      if root.idx in dbm.recs {
        MirrorsIds(dbm.recs, dbm.next, d, root.idx);
      }
    }

    /** delete_subtree: delete every child's subtree and then the child; the leaf stays. */
    method DeleteSubtree(leaf: LabelLeaf)
      requires dbm.Valid()
      modifies dbm`deleted
      ensures dbm.deleted == old(dbm.deleted) + PostOrder(dbm.recs, dbm.next, leaf.idx)
      decreases dbm.next - leaf.idx
    {
      var cs := Children(dbm.recs, dbm.next, leaf.idx);
      ChildrenSpec(dbm.recs, dbm.next, leaf.idx);
      var i := 0;
      while i < |cs|
        invariant 0 <= i <= |cs|
        invariant dbm.deleted == old(dbm.deleted) + PostOrderOf(dbm.recs, dbm.next, cs[..i], leaf.idx)
      {
        var ll := dbm.recs[cs[i]];
        assert ll.idx == cs[i];
        PostOrderOfSnoc(dbm.recs, dbm.next, cs, i, leaf.idx, old(dbm.deleted));
        DeleteSubtree(ll);
        dbm.Delete(ll);
        i := i + 1;
      }
      assert cs[..|cs|] == cs;
      assert PostOrder(dbm.recs, dbm.next, leaf.idx) == PostOrderOf(dbm.recs, dbm.next, cs, leaf.idx);
    }

    /** delete_tree: the subtree of the root, then the root (DeleteTreeOrder says what that is). */
    method DeleteTree()
      requires dbm.Valid() && root != null
      modifies dbm`deleted
      ensures dbm.deleted == old(dbm.deleted) + PostOrder(dbm.recs, dbm.next, root.idx) + [root.idx]
    {
      DeleteSubtree(root);
      dbm.Delete(root);
    }

    /** create_root: a new root leaf becomes the tree's root and is indexed under its idx. */
    method CreateRoot(name: string, externalId: Cell) returns (leaf: LabelLeaf)
      requires dbm.Valid()
      modifies this`root, this`tree, dbm`recs, dbm`next
      ensures dbm.Valid() && fresh(leaf) && root == leaf
      ensures leaf.idx == old(dbm.next) && leaf.name == name && leaf.externalId == externalId
      ensures leaf.isRoot && leaf.parentLeafId == None
      ensures leaf.abbreviation == Null && leaf.description == Null
      ensures leaf.timestamp == Null && leaf.isDeleted == Null
      ensures dbm.recs == old(dbm.recs)[leaf.idx := leaf] && dbm.next == old(dbm.next) + 1
      ensures tree == old(tree)[leaf.idx := leaf]
    {
      leaf := dbm.Add(name, externalId, true, None);
      root := leaf;
      tree := tree[leaf.idx := leaf];
    }

    /** create_child: a new leaf under parentId, indexed under its idx and returned. */
    method CreateChild(parentId: int, name: string, externalId: Cell) returns (leaf: LabelLeaf)
      requires dbm.Valid() && parentId in dbm.recs
      modifies this`tree, dbm`recs, dbm`next
      ensures dbm.Valid() && fresh(leaf)
      ensures leaf.idx == old(dbm.next) && leaf.name == name && leaf.externalId == externalId
      ensures !leaf.isRoot && leaf.parentLeafId == Some(parentId)
      ensures leaf.abbreviation == Null && leaf.description == Null
      ensures leaf.timestamp == Null && leaf.isDeleted == Null
      ensures dbm.recs == old(dbm.recs)[leaf.idx := leaf] && dbm.next == old(dbm.next) + 1
      ensures tree == old(tree)[leaf.idx := leaf]
    {
      leaf := dbm.Add(name, externalId, false, Some(parentId));
      tree := tree[leaf.idx := leaf];
    }

    /** _df_row_to_leaf: copy each optional column the row has; keep the others. */
    method DfRowToLeaf(row: Row, leaf: LabelLeaf)
      modifies leaf
      ensures leaf.abbreviation == AttrFrom(row, "abbreviation", old(leaf.abbreviation))
      ensures leaf.description == AttrFrom(row, "description", old(leaf.description))
      ensures leaf.timestamp == AttrFrom(row, "timestamp", old(leaf.timestamp))
      ensures leaf.externalId == AttrFrom(row, "external_id", old(leaf.externalId))
      ensures leaf.isDeleted == AttrFrom(row, "is_deleted", old(leaf.isDeleted))
    {
      if "abbreviation" in row.optional {
        leaf.abbreviation := row.optional["abbreviation"];
      }
      if "description" in row.optional {
        leaf.description := row.optional["description"];
      }
      if "timestamp" in row.optional {
        leaf.timestamp := row.optional["timestamp"];
      }
      if "external_id" in row.optional {
        leaf.externalId := row.optional["external_id"];
      }
      if "is_deleted" in row.optional {
        leaf.isDeleted := row.optional["is_deleted"];
      }
    }
  
    /** __create_childs_from_df: for each row listed under the parent row's idx, import
        that row below parent; the leaves created are those of the plan, in its order. */
    method CreateChildsFromDf(childs: map<int, seq<Row>>, parent: LabelLeaf, parentRow: Row, fuel: nat)
      requires dbm.Valid() && parent.idx in dbm.recs
      modifies this`tree, dbm`recs, dbm`next
      ensures dbm.Valid()
      ensures Imports(old(dbm.recs), dbm.recs, old(dbm.next), dbm.next,
                      Plan(childs, parentRow.idx, parent.idx, old(dbm.next), fuel))
      ensures tree == old(tree) + (dbm.recs - old(dbm.recs).Keys)
      decreases fuel, 1
    {
      ghost var first, r0 := dbm.next, dbm.recs;
      ghost var plan := Plan(childs, parentRow.idx, parent.idx, first, fuel);
      NoNewLeaves(tree, dbm.recs);
      ImportsNothing(dbm.recs, first);
      if fuel == 0 || parentRow.idx !in childs {
        assert plan == [];
        return;
      }
      var rows := childs[parentRow.idx];
      ghost var done: seq<Entry> := [];
      assert rows[0..] == rows;
      var i := 0;
      while i < |rows|
        invariant 0 <= i <= |rows|
        invariant dbm.Valid() && parent.idx in dbm.recs
        invariant done + PlanList(childs, rows[i..], parent.idx, dbm.next, fuel - 1) == plan
        invariant Imports(r0, dbm.recs, first, dbm.next, done)
        invariant tree == old(tree) + (dbm.recs - r0.Keys)
      {
        ghost var c := dbm.next;
        PlanListStep(childs, rows, i, parent.idx, c, fuel - 1);
        ImportRowAfter(childs, parent, rows[i], fuel - 1, r0, first, done, old(tree));
        ghost var l := [Entry(rows[i], parent.idx)] + Plan(childs, rows[i].idx, c, c + 1, fuel - 1);
        ConcatShift(done, PlanList(childs, rows[i..], parent.idx, c, fuel - 1), l,
                    PlanList(childs, rows[i + 1..], parent.idx, dbm.next, fuel - 1), plan);
        done := done + l;
        i := i + 1;
      }
      assert rows[|rows|..] == [];
      assert PlanList(childs, rows[i..], parent.idx, dbm.next, fuel - 1) == [];
      assert done == plan;
    }

    /** ImportRow with what the loop of __create_childs_from_df imported before it: the
        leaves created since the loop began now include the row's ones. */
    method ImportRowAfter(childs: map<int, seq<Row>>, parent: LabelLeaf, row: Row, fuel: nat,
                          ghost r0: map<int, LabelLeaf>, ghost first: int, ghost done: seq<Entry>,
                          ghost t0: map<int, LabelLeaf>)
      requires dbm.Valid() && parent.idx in dbm.recs
      requires Imports(r0, dbm.recs, first, dbm.next, done)
      requires tree == t0 + (dbm.recs - r0.Keys)
      modifies this`tree, dbm`recs, dbm`next
      ensures dbm.Valid() && parent.idx in dbm.recs
      ensures dbm.next == old(dbm.next) + 1 + |Plan(childs, row.idx, old(dbm.next), old(dbm.next) + 1, fuel)|
      ensures Imports(r0, dbm.recs, first, dbm.next,
                      done + ([Entry(row, parent.idx)] + Plan(childs, row.idx, old(dbm.next), old(dbm.next) + 1, fuel)))
      ensures tree == t0 + (dbm.recs - r0.Keys)
      decreases fuel, 3
    {
      ghost var recs0, tree0, c := dbm.recs, tree, dbm.next;
      ghost var l := [Entry(row, parent.idx)] + Plan(childs, row.idx, c, c + 1, fuel);
      ImportRow(childs, parent, row, fuel);
      ImportsCompose(r0, recs0, dbm.recs, first, c, dbm.next, done, l);
      IndexGrows(t0, r0, recs0, tree0, dbm.recs, tree, c, dbm.next);
    }

    /** One pass of the loop of __create_childs_from_df: create the row's leaf under parent,
        copy the row's optional columns into it, and import the rows below it. */
    method ImportRow(childs: map<int, seq<Row>>, parent: LabelLeaf, row: Row, fuel: nat)
      requires dbm.Valid() && parent.idx in dbm.recs
      modifies this`tree, dbm`recs, dbm`next
      ensures dbm.Valid()
      ensures Imports(old(dbm.recs), dbm.recs, old(dbm.next), dbm.next,
                      [Entry(row, parent.idx)] + Plan(childs, row.idx, old(dbm.next), old(dbm.next) + 1, fuel))
      ensures tree == old(tree) + (dbm.recs - old(dbm.recs).Keys)
      decreases fuel, 2
    {
      ghost var c, r0 := dbm.next, dbm.recs;
      var child := CreateChild(parent.idx, row.name, Null);
      DfRowToLeaf(row, child);
      IndexAddOne(old(tree), r0, c, child);
      ghost var recs1, tree1 := dbm.recs, tree;
      ghost var e := Entry(row, parent.idx);
      assert Imports(r0, recs1, c, c + 1, [e]) by {
        assert ImportedAt(recs1, c, e);
        assert [e][1..] == [];
      }
      ghost var below := Plan(childs, row.idx, c, c + 1, fuel);
      CreateChildsFromDf(childs, child, row, fuel);
      ImportsCompose(r0, recs1, dbm.recs, c, c + 1, dbm.next, [e], below);
      IndexGrows(old(tree), r0, recs1, tree1, dbm.recs, tree, c + 1, dbm.next);
    }

    /** The part of import_df after the root row is known: create the root from it, copy
        its optional columns, group the other rows by parent id, and create the children. */
    method ImportTree(df: seq<Row>, rootRow: Row)
      requires dbm.Valid()
      modifies this`root, this`tree, dbm`recs, dbm`next
      ensures dbm.Valid() && root != null && fresh(root)
      ensures TreeImported(old(dbm.recs), old(dbm.next), old(tree), dbm.recs, dbm.next, tree, root, rootRow, df)
    {
      ghost var r0, c := dbm.recs, dbm.next;
      var rootLeaf := CreateRoot(rootRow.name, Null);
      DfRowToLeaf(rootRow, rootLeaf);
      IndexAddOne(old(tree), r0, c, rootLeaf);
      ghost var recs1, tree1 := dbm.recs, tree;
      var childs := GroupByParent(df);
      CreateChildsFromDf(childs, rootLeaf, rootRow, |df|);
      assert ImportPlan(df, rootRow, c) == Plan(childs, rootRow.idx, c, c + 1, |df|);
      IndexGrows(old(tree), r0, recs1, tree1, dbm.recs, tree, c + 1, dbm.next);
    }

    /** import_df as written: a ValueError unless exactly one row has no parent; otherwise
        the root is created and then looked up by index label 0, a KeyError when the root
        row is not the table's first row. */
    method ImportDfAsWritten(df: seq<Row>) returns (outcome: ImportOutcome)
      requires dbm.Valid()
      modifies this`root, this`tree, dbm`recs, dbm`next
      ensures dbm.Valid()
      ensures outcome == ValueError <==> |RootPositions(df)| != 1
      ensures outcome == KeyError <==> |RootPositions(df)| == 1 && RootByLabel(df).None?
      ensures outcome == ValueError ==>
        && root == old(root) && tree == old(tree) && dbm.recs == old(dbm.recs) && dbm.next == old(dbm.next)
      ensures outcome == KeyError ==>
        && FirstRoot(df).Some? && root != null && fresh(root) && root.idx == old(dbm.next)
        && root.name == FirstRoot(df).value.name && root.isRoot && root.parentLeafId == None
        && root.abbreviation == Null && root.description == Null && root.timestamp == Null
        && root.externalId == Null && root.isDeleted == Null
        && dbm.recs == old(dbm.recs)[root.idx := root] && dbm.next == old(dbm.next) + 1
        && tree == old(tree)[root.idx := root]
      ensures outcome == Done ==> FirstRoot(df).Some? && root != null && fresh(root)
      ensures outcome == Done ==>
        && TreeImported(old(dbm.recs), old(dbm.next), old(tree), dbm.recs, dbm.next, tree, root, FirstRoot(df).value, df)
        && ImportPlanned(df, FirstRoot(df).value, root.idx)
    {
      var ps := RootPositions(df);
      if |ps| != 1 {
        return ValueError;
      }
      assert df[ps[0]].parentLeafId.None?;
      var byLabel := RootByLabel(df);
      if byLabel.None? {
        var rootLeaf := CreateRoot(FirstRoot(df).value.name, Null);
        return KeyError;
      }
      ImportTree(df, byLabel.value);
      ImportPlannedHolds(df, byLabel.value, root.idx);
      outcome := Done;
    }

    /** import_df with the root row taken by position (root.iloc[0]): a ValueError unless
        exactly one row has no parent, and otherwise the whole tree is imported. */
    method ImportDf(df: seq<Row>) returns (outcome: ImportOutcome)
      requires dbm.Valid()
      modifies this`root, this`tree, dbm`recs, dbm`next
      ensures dbm.Valid() && outcome != KeyError
      ensures outcome == ValueError <==> |RootPositions(df)| != 1
      ensures outcome == ValueError ==>
        && root == old(root) && tree == old(tree) && dbm.recs == old(dbm.recs) && dbm.next == old(dbm.next)
      ensures outcome == Done ==> FirstRoot(df).Some? && root != null && fresh(root)
      ensures outcome == Done ==>
        && TreeImported(old(dbm.recs), old(dbm.next), old(tree), dbm.recs, dbm.next, tree, root, FirstRoot(df).value, df)
        && ImportPlanned(df, FirstRoot(df).value, root.idx)
    {
      var ps := RootPositions(df);
      if |ps| != 1 {
        return ValueError;
      }
      assert df[ps[0]].parentLeafId.None?;
      var rootRow := FirstRoot(df).value;
      ImportTree(df, rootRow);
      ImportPlannedHolds(df, rootRow, root.idx);
      outcome := Done;
    }
  }
}
