/** The row-table form of a label tree that import_df reads, and what the import
    is meant to create from it. */
module LabelRows {
  import opened Opt
  import opened LabelStore

  /** One row of the DataFrame. optional holds the optional columns present in the table:
      abbreviation, description, timestamp, external_id and is_deleted. A row's position
      in the table is its index label. */
  datatype Row = Row(idx: int, parentLeafId: Option<int>, name: string, optional: map<string, Cell>)

  /** row[key] when the table has that column, and the leaf's current value otherwise. */
  function AttrFrom(row: Row, key: string, current: Cell): (v: Cell)
    ensures key in row.optional ==> v == row.optional[key]
    ensures key !in row.optional ==> v == current
  {
    if key in row.optional then row.optional[key] else current
  }

  /** The positions of the rows whose parent_leaf_id is null, in table order. */
  function RootPositions(df: seq<Row>): (ps: seq<nat>)
    ensures forall i :: 0 <= i < |ps| ==> ps[i] < |df| && df[ps[i]].parentLeafId.None?
    ensures forall k :: 0 <= k < |df| && df[k].parentLeafId.None? ==> k in ps
    ensures forall i, j :: 0 <= i < j < |ps| ==> ps[i] < ps[j]
  {
    if df == [] then []
    else
      var n := |df| - 1;
      RootPositions(df[..n]) + (if df[n].parentLeafId.None? then [n] else [])
  }

  /** The rows whose parent_leaf_id is p, in table order. */
  function RowsWithParent(df: seq<Row>, p: int): seq<Row> {
    if df == [] then []
    else
      var n := |df| - 1;
      RowsWithParent(df[..n], p) + (if df[n].parentLeafId == Some(p) then [df[n]] else [])
  }

  /** A group holds exactly the rows of the table with that parent id. */
  lemma {:induction false} RowsWithParentSpec(df: seq<Row>, p: int)
    ensures var rs := RowsWithParent(df, p);
      && (forall i :: 0 <= i < |rs| ==> rs[i] in df && rs[i].parentLeafId == Some(p))
      && (forall k :: 0 <= k < |df| && df[k].parentLeafId == Some(p) ==> df[k] in rs)
  {
    if df != [] {
      var n := |df| - 1;
      RowsWithParentSpec(df[..n], p);
      var rs := RowsWithParent(df, p);
      var init := RowsWithParent(df[..n], p);
      forall i | 0 <= i < |rs| ensures rs[i] in df && rs[i].parentLeafId == Some(p) {
        if i < |init| {
          assert rs[i] == init[i];
          var k :| 0 <= k < n && df[..n][k] == init[i];
          assert df[k] == init[i];
        }
      }
      forall k | 0 <= k < |df| && df[k].parentLeafId == Some(p) ensures df[k] in rs {
        if k < n {
          assert df[..n][k] == df[k];
          assert df[k] in init;
        }
      }
    }
  }

  /** The non-null parent ids of the table. */
  ghost function ParentIds(df: seq<Row>): set<int> {
    if df == [] then {}
    else
      var n := |df| - 1;
      ParentIds(df[..n]) + (if df[n].parentLeafId.Some? then {df[n].parentLeafId.value} else {})
  }

  /** The child dictionary import_df builds: non-root rows grouped by parent id. */
  ghost function Grouped(df: seq<Row>): map<int, seq<Row>> {
    map p | p in ParentIds(df) :: RowsWithParent(df, p)
  }

  /** Extending the table by one row adds at most that row's parent id. */
  lemma ParentIdsSnoc(df: seq<Row>, i: int)
    requires 0 <= i < |df|
    ensures ParentIds(df[..i + 1])
            == ParentIds(df[..i]) + (if df[i].parentLeafId.Some? then {df[i].parentLeafId.value} else {})
  {
    assert df[..i + 1][..i] == df[..i];
  }

  /** Extending the table by one row extends each group by at most that row. */
  lemma RowsWithParentSnoc(df: seq<Row>, i: int, p: int)
    requires 0 <= i < |df|
    ensures RowsWithParent(df[..i + 1], p)
            == RowsWithParent(df[..i], p) + (if df[i].parentLeafId == Some(p) then [df[i]] else [])
  {
    assert df[..i + 1][..i] == df[..i];
  }

  /** A parent id that no row of the table has has an empty group. */
  lemma NoRowsWithoutParentId(df: seq<Row>, p: int)
    requires p !in ParentIds(df)
    ensures RowsWithParent(df, p) == []
  {
  }

  /** Grouping one more row appends it to the group of its parent id, if it has one. */
  lemma GroupedSnoc(df: seq<Row>, i: int)
    requires 0 <= i < |df|
    ensures var g, row := Grouped(df[..i]), df[i];
      Grouped(df[..i + 1])
      == if row.parentLeafId.None? then g
         else
           var p := row.parentLeafId.value;
           g[p := (if p in g then g[p] else []) + [row]]
  {
    var g, g', row := Grouped(df[..i]), Grouped(df[..i + 1]), df[i];
    ParentIdsSnoc(df, i);
    var h := if row.parentLeafId.None? then g
             else g[row.parentLeafId.value := (if row.parentLeafId.value in g then g[row.parentLeafId.value] else []) + [row]];
    forall p | p in g' ensures p in h && g'[p] == h[p] {
      RowsWithParentSnoc(df, i, p);
      if p !in g {
        NoRowsWithoutParentId(df[..i], p);
      }
    }
  }

  /** Every list of a child dictionary holds rows of the table whose parent is its key. */
  ghost predicate GroupsOf(childs: map<int, seq<Row>>, df: seq<Row>) {
    forall p :: p in childs ==>
      forall i :: 0 <= i < |childs[p]| ==> childs[p][i] in df && childs[p][i].parentLeafId == Some(p)
  }

  lemma GroupedIsGroups(df: seq<Row>)
    ensures GroupsOf(Grouped(df), df)
  {
    forall p | p in Grouped(df) {
      RowsWithParentSpec(df, p);
    }
  }

  /** One leaf to create: the row it comes from and the store idx of the leaf it hangs
      under (the parent_leaf_id create_child is given). */
  datatype Entry = Entry(row: Row, parentIdx: int)

  /** The leaves __create_childs_from_df creates below the row with idx key, whose leaf has
      store idx parentIdx, when the store hands out the idx offset next: for each row of
      childs[key] in order, its leaf and then everything below it. The leaves get the
      consecutive idx values offset, offset + 1, ... in this order. fuel bounds the depth. */
  function Plan(childs: map<int, seq<Row>>, key: int, parentIdx: int, offset: int, fuel: nat): seq<Entry>
    decreases fuel, 0
  {
    if fuel == 0 || key !in childs then []
    else PlanList(childs, childs[key], parentIdx, offset, fuel - 1)
  }

  function PlanList(childs: map<int, seq<Row>>, rows: seq<Row>, parentIdx: int, offset: int, fuel: nat): seq<Entry>
    decreases fuel, |rows| + 1
  {
    if rows == [] then []
    else
      var below := Plan(childs, rows[0].idx, offset, offset + 1, fuel);
      [Entry(rows[0], parentIdx)] + below + PlanList(childs, rows[1..], parentIdx, offset + 1 + |below|, fuel)
  }

  /** The entry at j hangs under an earlier entry of l whose row's idx is its parent_leaf_id
      (the entries of l get the store idx values offset, offset + 1, ...). */
  ghost predicate LinkedToEarlier(l: seq<Entry>, j: int, offset: int)
    requires 0 <= j < |l|
  {
    && offset <= l[j].parentIdx < offset + j
    && l[j].row.parentLeafId == Some(l[l[j].parentIdx - offset].row.idx)
  }

  /** Every entry of l comes from a row of df and hangs either under the leaf at parentIdx,
      its row's parent_leaf_id being key, or under an earlier entry of l. */
  ghost predicate HangsFrom(l: seq<Entry>, df: seq<Row>, key: int, parentIdx: int, offset: int) {
    forall j :: 0 <= j < |l| ==>
      && l[j].row in df
      && ((l[j].parentIdx == parentIdx && l[j].row.parentLeafId == Some(key)) || LinkedToEarlier(l, j, offset))
  }

  /** Every leaf the import creates comes from a row of the table and hangs either under
      the leaf of the row with idx key or under an earlier created leaf whose row's idx is
      its parent_leaf_id: only rows reachable from key through idx links are imported. */
  lemma {:induction false} PlanReachable(df: seq<Row>, childs: map<int, seq<Row>>, key: int,
                                         parentIdx: int, offset: int, fuel: nat)
    requires GroupsOf(childs, df)
    ensures HangsFrom(Plan(childs, key, parentIdx, offset, fuel), df, key, parentIdx, offset)
    decreases fuel, 0
  {
    if fuel > 0 && key in childs {
      PlanListReachable(df, childs, key, childs[key], parentIdx, offset, fuel - 1);
    }
  }

  lemma {:induction false} PlanListReachable(df: seq<Row>, childs: map<int, seq<Row>>, key: int,
                                             rows: seq<Row>, parentIdx: int, offset: int, fuel: nat)
    requires GroupsOf(childs, df)
    requires forall i :: 0 <= i < |rows| ==> rows[i] in df && rows[i].parentLeafId == Some(key)
    ensures HangsFrom(PlanList(childs, rows, parentIdx, offset, fuel), df, key, parentIdx, offset)
    decreases fuel, |rows| + 1
  {
    if rows != [] {
      var below := Plan(childs, rows[0].idx, offset, offset + 1, fuel);
      var off' := offset + 1 + |below|;
      var rest := PlanList(childs, rows[1..], parentIdx, off', fuel);
      var l := [Entry(rows[0], parentIdx)] + below + rest;
      assert l == PlanList(childs, rows, parentIdx, offset, fuel);
      PlanReachable(df, childs, rows[0].idx, offset, offset + 1, fuel);
      PlanListReachable(df, childs, key, rows[1..], parentIdx, off', fuel);
      forall j | 0 <= j < |l|
        ensures l[j].row in df
        ensures (l[j].parentIdx == parentIdx && l[j].row.parentLeafId == Some(key)) || LinkedToEarlier(l, j, offset)
      {
        if j == 0 {
        } else if j <= |below| {
          assert l[j] == below[j - 1];
          if below[j - 1].parentIdx == offset && below[j - 1].row.parentLeafId == Some(rows[0].idx) {
            assert l[0].row.idx == rows[0].idx;
          } else {
            assert LinkedToEarlier(below, j - 1, offset + 1);
            assert l[below[j - 1].parentIdx - offset] == below[below[j - 1].parentIdx - offset - 1];
          }
        } else {
          var t := j - 1 - |below|;
          assert l[j] == rest[t];
          if rest[t].parentIdx == parentIdx && rest[t].row.parentLeafId == Some(key) {
          } else {
            assert LinkedToEarlier(rest, t, off');
            assert l[rest[t].parentIdx - offset] == rest[rest[t].parentIdx - off'];
          }
        }
      }
    }
  }

  /** The leaf created from a row: the row's name, the given parent, not a root, and its
      optional attributes taken from the row where present and NULL otherwise. */
  ghost predicate Imported(leaf: LabelLeaf, row: Row, parentIdx: int)
    reads leaf
  {
    && leaf.name == row.name
    && leaf.parentLeafId == Some(parentIdx)
    && !leaf.isRoot
    && leaf.abbreviation == AttrFrom(row, "abbreviation", Null)
    && leaf.description == AttrFrom(row, "description", Null)
    && leaf.timestamp == AttrFrom(row, "timestamp", Null)
    && leaf.externalId == AttrFrom(row, "external_id", Null)
    && leaf.isDeleted == AttrFrom(row, "is_deleted", Null)
  }

  /** The leaves first, first + 1, ... of recs were created, in order, for the entries of l. */
  ghost predicate ImportedFrom(recs: map<int, LabelLeaf>, first: int, l: seq<Entry>)
    reads recs.Values
    decreases |l|
  {
    l == [] || (ImportedAt(recs, first, l[0]) && ImportedFrom(recs, first + 1, l[1..]))
  }

  /** The leaf stored under k was created for entry e. */
  ghost predicate ImportedAt(recs: map<int, LabelLeaf>, k: int, e: Entry)
    reads recs.Values
  {
    k in recs && Imported(recs[k], e.row, e.parentIdx)
  }

  lemma {:induction false} ImportedFromConcat(recs: map<int, LabelLeaf>, first: int, a: seq<Entry>, b: seq<Entry>)
    requires ImportedFrom(recs, first, a) && ImportedFrom(recs, first + |a|, b)
    ensures ImportedFrom(recs, first, a + b)
    decreases |a|
  {
    if a != [] {
      assert (a + b)[0] == a[0] && (a + b)[1..] == a[1..] + b;
      ImportedFromConcat(recs, first + 1, a[1..], b);
    } else {
      assert a + b == b;
    }
  }

  /** One step of PlanList: the next row's entry, the entries below it, then the rest. */
  lemma PlanListStep(childs: map<int, seq<Row>>, rows: seq<Row>, i: int, parentIdx: int, offset: int, fuel: nat)
    requires 0 <= i < |rows|
    ensures var below := Plan(childs, rows[i].idx, offset, offset + 1, fuel);
      PlanList(childs, rows[i..], parentIdx, offset, fuel)
      == [Entry(rows[i], parentIdx)] + below + PlanList(childs, rows[i + 1..], parentIdx, offset + 1 + |below|, fuel)
  {
  }

  /** Leaves created earlier stay created when the store only gains leaves. */
  lemma {:induction false} ImportedFromGrows(r0: map<int, LabelLeaf>, r1: map<int, LabelLeaf>, first: int, l: seq<Entry>)
    requires ImportedFrom(r0, first, l)
    requires forall k :: k in r0 ==> k in r1 && r1[k] == r0[k]
    ensures ImportedFrom(r1, first, l)
    decreases |l|
  {
    if l != [] {
      ImportedFromGrows(r0, r1, first + 1, l[1..]);
    }
  }

  /** root.loc[0] as import_df writes it: the root row whose index label is 0. With the
      table's default index that is the first row, and only when the first row is a root. */
  function RootByLabel(df: seq<Row>): (r: Option<Row>)
    ensures r.Some? <==> (RootPositions(df) != [] && RootPositions(df)[0] == 0)
    ensures r.Some? ==> r.value == df[0] && r.value.parentLeafId.None?
  {
    if |df| > 0 && df[0].parentLeafId.None? then Some(df[0]) else None
  }

  /** root.iloc[0], what import_df evidently means: the first root row of the table. */
  function FirstRoot(df: seq<Row>): (r: Option<Row>)
    ensures r.Some? <==> exists k :: 0 <= k < |df| && df[k].parentLeafId.None?
    ensures r.Some? ==> r.value in df && r.value.parentLeafId.None?
    ensures r.Some? ==> exists k :: 0 <= k < |df| && df[k] == r.value &&
                          forall j :: 0 <= j < k ==> df[j].parentLeafId.Some?
  {
    if df == [] then None
    else if df[0].parentLeafId.None? then Some(df[0])
    else
      var r := FirstRoot(df[1..]);
      assert r.Some? ==> exists k :: 0 <= k < |df| && df[k] == r.value &&
                           forall j :: 0 <= j < k ==> df[j].parentLeafId.Some? by {
        if r.Some? {
          var k :| 0 <= k < |df| - 1 && df[1..][k] == r.value &&
                   forall j :: 0 <= j < k ==> df[1..][j].parentLeafId.Some?;
          assert forall j :: 0 <= j < k + 1 ==> df[j].parentLeafId.Some? by {
            forall j | 0 <= j < k + 1 ensures df[j].parentLeafId.Some? {
              if j > 0 { assert df[j] == df[1..][j - 1]; }
            }
          }
        }
      }
      assert (exists k :: 0 <= k < |df| && df[k].parentLeafId.None?) ==>
             (exists k :: 0 <= k < |df| - 1 && df[1..][k].parentLeafId.None?) by {
        if exists k :: 0 <= k < |df| && df[k].parentLeafId.None? {
          var k :| 0 <= k < |df| && df[k].parentLeafId.None?;
          assert df[1..][k - 1] == df[k];
        }
      }
      r
  }

  /** The label lookup misses the only root whenever it is not the table's first row,
      although the table is a valid tree table; the positional lookup finds it. */
  lemma RootByLabelMissesLaterRoot(df: seq<Row>, p: int)
    requires 0 < p < |df| && RootPositions(df) == [p]
    ensures RootByLabel(df).None?
    ensures FirstRoot(df) == Some(df[p])
  {
    assert 0 !in RootPositions(df);
  }

  /** A table such as [cat under 1, animal (root, idx 1)]: one root, not at position 0. */
  lemma RootLastExample()
    ensures var df := [Row(2, Some(1), "cat", map[]), Row(1, None, "animal", map[])];
      RootPositions(df) == [1] && RootByLabel(df).None? && FirstRoot(df) == Some(df[1])
  {
  }

  /** The rows of the entries of l that hang under the leaf with store idx pos, in order. */
  function Direct(l: seq<Entry>, pos: int): seq<Row> {
    if l == [] then []
    else (if l[0].parentIdx == pos then [l[0].row] else []) + Direct(l[1..], pos)
  }

  lemma {:induction false} DirectConcat(a: seq<Entry>, b: seq<Entry>, pos: int)
    ensures Direct(a + b, pos) == Direct(a, pos) + Direct(b, pos)
    decreases |a|
  {
    if a == [] {
      assert a + b == b;
    } else {
      var ab := a + b;
      assert ab[0] == a[0];
      assert ab[1..] == a[1..] + b;
      DirectConcat(a[1..], b, pos);
      var h: seq<Row> := if a[0].parentIdx == pos then [a[0].row] else [];
      calc {
        Direct(ab, pos);
        h + Direct(a[1..] + b, pos);
        h + (Direct(a[1..], pos) + Direct(b, pos));
        (h + Direct(a[1..], pos)) + Direct(b, pos);
        Direct(a, pos) + Direct(b, pos);
      }
    }
  }

  /** Entries that all hang under leaves other than pos contribute nothing. */
  lemma {:induction false} DirectNone(l: seq<Entry>, pos: int)
    requires forall j :: 0 <= j < |l| ==> l[j].parentIdx != pos
    ensures Direct(l, pos) == []
    decreases |l|
  {
    if l != [] {
      DirectNone(l[1..], pos);
    }
  }

  /** The leaves created directly below the leaf at parentIdx are, in order, one per row
      listed under key: rows listed further down hang under later leaves. */
  lemma {:induction false} PlanDirect(df: seq<Row>, childs: map<int, seq<Row>>, key: int,
                                      parentIdx: int, offset: int, fuel: nat)
    requires GroupsOf(childs, df) && parentIdx < offset && fuel > 0
    ensures Direct(Plan(childs, key, parentIdx, offset, fuel), parentIdx)
            == if key in childs then childs[key] else []
  {
    if key in childs {
      PlanListDirect(df, childs, childs[key], parentIdx, offset, fuel - 1);
    }
  }

  lemma {:induction false} PlanListDirect(df: seq<Row>, childs: map<int, seq<Row>>, rows: seq<Row>,
                                          parentIdx: int, offset: int, fuel: nat)
    requires GroupsOf(childs, df) && parentIdx < offset
    ensures Direct(PlanList(childs, rows, parentIdx, offset, fuel), parentIdx) == rows
    decreases |rows|
  {
    if rows != [] {
      var below := Plan(childs, rows[0].idx, offset, offset + 1, fuel);
      var off' := offset + 1 + |below|;
      var rest := PlanList(childs, rows[1..], parentIdx, off', fuel);
      PlanListDirect(df, childs, rows[1..], parentIdx, off', fuel);
      PlanReachable(df, childs, rows[0].idx, offset, offset + 1, fuel);
      forall j | 0 <= j < |below| ensures below[j].parentIdx != parentIdx {
        if below[j].parentIdx != offset {
          assert LinkedToEarlier(below, j, offset + 1);
        }
      }
      DirectNone(below, parentIdx);
      DirectConcat([Entry(rows[0], parentIdx)], below, parentIdx);
      DirectConcat([Entry(rows[0], parentIdx)] + below, rest, parentIdx);
      assert Direct([Entry(rows[0], parentIdx)], parentIdx) == [rows[0]];
      assert rows == [rows[0]] + rows[1..];
    }
  }

  /** The rows listed under key in a child dictionary, none when key is absent. */
  function Kids(childs: map<int, seq<Row>>, key: int): (rs: seq<Row>)
    ensures key !in childs ==> rs == []
  {
    if key in childs then childs[key] else []
  }

  /** Every chain of rows below key, each listed under the previous one's idx, has at
      most n rows: the recursion of __create_childs_from_df below key is at most n deep. */
  ghost predicate Bounded(childs: map<int, seq<Row>>, key: int, n: nat)
    decreases n
  {
    if n == 0 then Kids(childs, key) == []
    else forall i :: 0 <= i < |Kids(childs, key)| ==> Bounded(childs, Kids(childs, key)[i].idx, n - 1)
  }

  /** The leaves created directly below the j-th leaf of the plan are, in order, one per row
      listed under that leaf's row's idx, provided fuel reaches below the deepest chain. */
  lemma {:induction false} PlanAllDirect(df: seq<Row>, childs: map<int, seq<Row>>, key: int,
                                         parentIdx: int, offset: int, fuel: nat, n: nat, j: int)
    requires GroupsOf(childs, df) && parentIdx < offset
    requires Bounded(childs, key, n) && n <= fuel
    requires 0 <= j < |Plan(childs, key, parentIdx, offset, fuel)|
    ensures var l := Plan(childs, key, parentIdx, offset, fuel);
      Direct(l, offset + j) == Kids(childs, l[j].row.idx)
    decreases fuel, 0, 0
  {
    var ks := Kids(childs, key);
    assert n > 0 && ks == childs[key];
    PlanListAllDirect(df, childs, key, ks, parentIdx, offset, fuel - 1, n - 1, j);
  }

  lemma {:induction false} PlanListAllDirect(df: seq<Row>, childs: map<int, seq<Row>>, key: int, rows: seq<Row>,
                                             parentIdx: int, offset: int, fuel: nat, n: nat, j: int)
    requires GroupsOf(childs, df) && parentIdx < offset && n <= fuel
    requires forall i :: 0 <= i < |rows| ==> rows[i] in df && rows[i].parentLeafId == Some(key)
    requires forall i :: 0 <= i < |rows| ==> Bounded(childs, rows[i].idx, n)
    requires 0 <= j < |PlanList(childs, rows, parentIdx, offset, fuel)|
    ensures var l := PlanList(childs, rows, parentIdx, offset, fuel);
      Direct(l, offset + j) == Kids(childs, l[j].row.idx)
    decreases fuel, |rows| + 1, 1
  {
    var e := Entry(rows[0], parentIdx);
    var below := Plan(childs, rows[0].idx, offset, offset + 1, fuel);
    if j <= |below| {
      PlanListHeadDirect(df, childs, key, rows, parentIdx, offset, fuel, n, j);
    } else {
      var off' := offset + 1 + |below|;
      var rest := PlanList(childs, rows[1..], parentIdx, off', fuel);
      var l := [e] + below + rest;
      assert l == PlanList(childs, rows, parentIdx, offset, fuel);
      var pos, t := offset + j, j - 1 - |below|;
      PlanListAllDirect(df, childs, key, rows[1..], parentIdx, off', fuel, n, t);
      assert off' + t == pos && l[j] == rest[t];
      PlanReachable(df, childs, rows[0].idx, offset, offset + 1, fuel);
      BlockTail(df, rows[0].idx, e, below, rest, offset, pos);
      assert Direct(l, pos) == Kids(childs, l[j].row.idx);
    }
  }

  /** PlanListAllDirect for the first row's leaf and the leaves below it. */
  lemma {:induction false} PlanListHeadDirect(df: seq<Row>, childs: map<int, seq<Row>>, key: int, rows: seq<Row>,
                                              parentIdx: int, offset: int, fuel: nat, n: nat, j: int)
    requires GroupsOf(childs, df) && parentIdx < offset && n <= fuel
    requires forall i :: 0 <= i < |rows| ==> rows[i] in df && rows[i].parentLeafId == Some(key)
    requires forall i :: 0 <= i < |rows| ==> Bounded(childs, rows[i].idx, n)
    requires rows != [] && 0 <= j <= |Plan(childs, rows[0].idx, offset, offset + 1, fuel)|
    ensures var l := PlanList(childs, rows, parentIdx, offset, fuel);
      j < |l| && Direct(l, offset + j) == Kids(childs, l[j].row.idx)
    decreases fuel, |rows| + 1, 0
  {
    var e := Entry(rows[0], parentIdx);
    var below := Plan(childs, rows[0].idx, offset, offset + 1, fuel);
    var off' := offset + 1 + |below|;
    var rest := PlanList(childs, rows[1..], parentIdx, off', fuel);
    var l := [e] + below + rest;
    assert l == PlanList(childs, rows, parentIdx, offset, fuel);
    var pos := offset + j;
    PlanListReachable(df, childs, key, rows[1..], parentIdx, off', fuel);
    BlockHead(df, key, e, below, rest, offset, pos);
    if j == 0 {
      FirstChildDirect(df, childs, rows[0], offset, fuel, n);
      assert l[0] == e;
    } else {
      PlanAllDirect(df, childs, rows[0].idx, offset, offset + 1, fuel, n, j - 1);
      assert offset + 1 + (j - 1) == pos && l[j] == below[j - 1];
    }
    assert Direct(l, pos) == Kids(childs, l[j].row.idx);
  }

  /** Within a block of the plan (an entry, the entries below it, the rest), the leaves
      under the entry or under one of the entries below it are all in the middle part. */
  lemma BlockHead(df: seq<Row>, key: int, e: Entry, below: seq<Entry>, rest: seq<Entry>, offset: int, pos: int)
    requires e.parentIdx < offset <= pos < offset + 1 + |below|
    requires HangsFrom(rest, df, key, e.parentIdx, offset + 1 + |below|)
    ensures Direct([e] + below + rest, pos) == Direct(below, pos)
  {
    DirectBlock(e, below, rest, pos);
    DirectNone(rest, pos);
  }

  /** Within a block of the plan, the leaves under an entry of the rest are all in the rest. */
  lemma BlockTail(df: seq<Row>, key: int, e: Entry, below: seq<Entry>, rest: seq<Entry>, offset: int, pos: int)
    requires e.parentIdx < offset && offset + 1 + |below| <= pos
    requires HangsFrom(below, df, key, offset, offset + 1)
    ensures Direct([e] + below + rest, pos) == Direct(rest, pos)
  {
    DirectBlock(e, below, rest, pos);
    DirectNone(below, pos);
  }

  /** The rows hanging under pos in a block of the plan: its first entry's, those of the
      entries below it, and those of the rest. */
  lemma DirectBlock(e: Entry, below: seq<Entry>, rest: seq<Entry>, pos: int)
    requires e.parentIdx != pos
    ensures Direct([e] + below + rest, pos) == Direct(below, pos) + Direct(rest, pos)
  {
    assert [e][1..] == [];
    assert Direct([e], pos) == [];
    DirectConcat([e], below, pos);
    DirectConcat([e] + below, rest, pos);
    calc {
      Direct([e] + below + rest, pos);
      Direct([e] + below, pos) + Direct(rest, pos);
      (Direct([e], pos) + Direct(below, pos)) + Direct(rest, pos);
      { assert Direct([e], pos) + Direct(below, pos) == Direct(below, pos); }
      Direct(below, pos) + Direct(rest, pos);
    }
  }

  /** The leaves directly below a new leaf at offset are its row's listed rows. */
  lemma FirstChildDirect(df: seq<Row>, childs: map<int, seq<Row>>, row: Row, offset: int, fuel: nat, n: nat)
    requires GroupsOf(childs, df) && Bounded(childs, row.idx, n) && n <= fuel
    ensures Direct(Plan(childs, row.idx, offset, offset + 1, fuel), offset) == Kids(childs, row.idx)
  {
    if fuel > 0 {
      PlanDirect(df, childs, row.idx, offset, offset + 1, fuel);
    }
  }

  /** Plans whose fuel both reach below the deepest chain are the same plan: more fuel
      adds nothing. */
  lemma {:induction false} PlanFuelEnough(childs: map<int, seq<Row>>, key: int, parentIdx: int, offset: int,
                                          fuel: nat, fuel': nat, n: nat)
    requires Bounded(childs, key, n) && n <= fuel && n <= fuel'
    ensures Plan(childs, key, parentIdx, offset, fuel) == Plan(childs, key, parentIdx, offset, fuel')
    decreases fuel, 0
  {
    if key in childs && n > 0 {
      var ks := Kids(childs, key);
      assert ks == childs[key];
      PlanListFuelEnough(childs, ks, parentIdx, offset, fuel - 1, fuel' - 1, n - 1);
    }
  }

  lemma {:induction false} PlanListFuelEnough(childs: map<int, seq<Row>>, rows: seq<Row>, parentIdx: int, offset: int,
                                              fuel: nat, fuel': nat, n: nat)
    requires forall i :: 0 <= i < |rows| ==> Bounded(childs, rows[i].idx, n)
    requires n <= fuel && n <= fuel'
    ensures PlanList(childs, rows, parentIdx, offset, fuel) == PlanList(childs, rows, parentIdx, offset, fuel')
    decreases fuel, |rows| + 1
  {
    if rows != [] {
      PlanFuelEnough(childs, rows[0].idx, offset, offset + 1, fuel, fuel', n);
      var below := Plan(childs, rows[0].idx, offset, offset + 1, fuel);
      PlanListFuelEnough(childs, rows[1..], parentIdx, offset + 1 + |below|, fuel, fuel', n);
    }
  }

  /** rs is a chain of rows of df, each listed under the previous one's idx. */
  ghost predicate IsPath(df: seq<Row>, rs: seq<Row>) {
    && (forall i :: 0 <= i < |rs| ==> rs[i] in df)
    && (forall i :: 0 < i < |rs| ==> rs[i].parentLeafId == Some(rs[i - 1].idx))
  }

  /** No chain of rows that starts with a row listed under key meets the same row twice:
      no cycle of idx links can be reached from key. From a key with such a reachable
      cycle, __create_childs_from_df never stops; cycles elsewhere in the table are never
      visited. */
  ghost predicate NoCycleBelow(df: seq<Row>, key: int) {
    forall rs: seq<Row>, a: int, b: int :: IsPath(df, rs) && 0 <= a < b < |rs| && rs[0].parentLeafId == Some(key) ==> rs[a] != rs[b]
  }

  /** A chain of n + 1 rows below a key that is not bounded by n. */
  lemma {:induction false} LongPath(df: seq<Row>, childs: map<int, seq<Row>>, key: int, n: nat) returns (rs: seq<Row>)
    requires GroupsOf(childs, df) && !Bounded(childs, key, n)
    ensures |rs| == n + 1 && IsPath(df, rs) && rs[0].parentLeafId == Some(key)
    decreases n
  {
    var ks := Kids(childs, key);
    if n == 0 {
      rs := [ks[0]];
    } else {
      var i :| 0 <= i < |ks| && !Bounded(childs, ks[i].idx, n - 1);
      var tail := LongPath(df, childs, ks[i].idx, n - 1);
      rs := [ks[i]] + tail;
      assert forall k :: 0 < k < |rs| ==> rs[k] == tail[k - 1];
    }
  }

  lemma SubsetSize<T>(a: set<T>, b: set<T>)
    requires a <= b
    ensures |a| <= |b|
    decreases a
  {
    if a != {} {
      var x :| x in a;
      SubsetSize(a - {x}, b - {x});
    }
  }

  /** A sequence has at most as many distinct elements as it is long, and exactly as many
      when no element repeats. */
  lemma {:induction false} SeqSetSize<T>(s: seq<T>)
    ensures |set x | x in s| <= |s|
    ensures (forall i, j :: 0 <= i < j < |s| ==> s[i] != s[j]) ==> |set x | x in s| == |s|
  {
    if s != [] {
      var n := |s| - 1;
      SeqSetSize(s[..n]);
      assert (set x | x in s) == (set x | x in s[..n]) + {s[n]};
      if forall i, j :: 0 <= i < j < |s| ==> s[i] != s[j] {
        assert s[n] !in (set x | x in s[..n]);
      }
    }
  }

  /** More rows in a chain than in the table means some row repeats. */
  lemma Pigeonhole(df: seq<Row>, rs: seq<Row>) returns (a: int, b: int)
    requires forall i :: 0 <= i < |rs| ==> rs[i] in df
    requires |rs| > |df|
    ensures 0 <= a < b < |rs| && rs[a] == rs[b]
  {
    SeqSetSize(rs);
    SeqSetSize(df);
    SubsetSize(set x | x in rs, set x | x in df);
    a, b :| 0 <= a < b < |rs| && rs[a] == rs[b];
  }

  /** Without a cycle reachable from key no chain below key has more rows than the table,
      so the depth |df| that the model gives the recursion of import_df is never reached. */
  lemma NoCycleBounded(df: seq<Row>, key: int)
    requires NoCycleBelow(df, key)
    ensures Bounded(Grouped(df), key, |df|)
  {
    if !Bounded(Grouped(df), key, |df|) {
      GroupedIsGroups(df);
      var rs := LongPath(df, Grouped(df), key, |df|);
      var a, b := Pigeonhole(df, rs);
      assert false;
    }
  }

  /** A table whose only cycle (a row listed under its own idx) hangs off no row reachable
      from the root: the import creates nothing below the root and never meets the cycle,
      which is reachable from idx 5 only. */
  lemma UnreachableLoopExample()
    ensures var df := [Row(1, None, "root", map[]), Row(5, Some(5), "loop", map[])];
      && NoCycleBelow(df, 1) && !NoCycleBelow(df, 5)
      && ImportPlan(df, df[0], 10) == []
  {
    var df := [Row(1, None, "root", map[]), Row(5, Some(5), "loop", map[])];
    var loop := [df[1], df[1]];
    assert IsPath(df, loop) && loop[0].parentLeafId == Some(5) && loop[0] == loop[1];
    assert ParentIds(df) == {5} by {
      assert df[..1] == [df[0]] && [df[0]][..0] == [];
    }
  }

  /** The leaves import_df creates below the root row, its leaf having store idx rootIdx,
      when the recursion is cut at depth fuel. */
  ghost function ImportPlanWith(df: seq<Row>, rootRow: Row, rootIdx: int, fuel: nat): seq<Entry> {
    Plan(Grouped(df), rootRow.idx, rootIdx, rootIdx + 1, fuel)
  }

  /** The leaves import_df creates, with the depth cut at |df|. */
  ghost function ImportPlan(df: seq<Row>, rootRow: Row, rootIdx: int): seq<Entry> {
    ImportPlanWith(df, rootRow, rootIdx, |df|)
  }

  /** Without a cycle reachable from the root row, what import_df creates: one leaf
      directly under each created leaf per row naming that leaf's row's idx as parent, in
      table order; and no more depth would create anything else. */
  ghost predicate ImportComplete(df: seq<Row>, rootRow: Row, rootIdx: int) {
    && (forall j :: 0 <= j < |ImportPlan(df, rootRow, rootIdx)| ==>
          Direct(ImportPlan(df, rootRow, rootIdx), rootIdx + 1 + j)
          == RowsWithParent(df, ImportPlan(df, rootRow, rootIdx)[j].row.idx))
    && (forall fuel: nat :: fuel >= |df| ==>
          ImportPlanWith(df, rootRow, rootIdx, fuel) == ImportPlan(df, rootRow, rootIdx))
  }

  /** What the import of df below a root leaf rootIdx creates: only rows reachable from the
      root row through idx links; directly under the root, the rows naming it as parent in
      table order; and, when no cycle is reachable from the root row, the same at every
      level, with no depth cut. */
  ghost predicate ImportPlanned(df: seq<Row>, rootRow: Row, rootIdx: int) {
    && HangsFrom(ImportPlan(df, rootRow, rootIdx), df, rootRow.idx, rootIdx, rootIdx + 1)
    && Direct(ImportPlan(df, rootRow, rootIdx), rootIdx) == RowsWithParent(df, rootRow.idx)
    && (NoCycleBelow(df, rootRow.idx) ==> ImportComplete(df, rootRow, rootIdx))
  }

  /** Without a cycle reachable from the root row the import plan is complete at every level. */
  lemma ImportCompleteHolds(df: seq<Row>, rootRow: Row, rootIdx: int)
    requires NoCycleBelow(df, rootRow.idx)
    ensures ImportComplete(df, rootRow, rootIdx)
  {
    NoCycleBounded(df, rootRow.idx);
    GroupedIsGroups(df);
    var plan := ImportPlan(df, rootRow, rootIdx);
    forall j | 0 <= j < |plan|
      ensures Direct(plan, rootIdx + 1 + j) == RowsWithParent(df, plan[j].row.idx)
    {
      ImportDirectAt(df, rootRow, rootIdx, j);
    }
    forall fuel: nat | fuel >= |df|
      ensures ImportPlanWith(df, rootRow, rootIdx, fuel) == plan
    {
      PlanFuelEnough(Grouped(df), rootRow.idx, rootIdx, rootIdx + 1, fuel, |df|, |df|);
    }
  }

  /** The leaves directly under the j-th leaf the import creates are its row's children. */
  lemma ImportDirectAt(df: seq<Row>, rootRow: Row, rootIdx: int, j: int)
    requires GroupsOf(Grouped(df), df) && Bounded(Grouped(df), rootRow.idx, |df|)
    requires 0 <= j < |ImportPlan(df, rootRow, rootIdx)|
    ensures var plan := ImportPlan(df, rootRow, rootIdx);
      Direct(plan, rootIdx + 1 + j) == RowsWithParent(df, plan[j].row.idx)
  {
    var childs := Grouped(df);
    var plan := Plan(childs, rootRow.idx, rootIdx, rootIdx + 1, |df|);
    assert plan == ImportPlan(df, rootRow, rootIdx);
    PlanAllDirect(df, childs, rootRow.idx, rootIdx, rootIdx + 1, |df|, |df|, j);
    if plan[j].row.idx !in childs {
      NoRowsWithoutParentId(df, plan[j].row.idx);
    }
  }

  /** The import plan of any table below any root leaf has the properties above. */
  lemma ImportPlannedHolds(df: seq<Row>, rootRow: Row, rootIdx: int)
    ensures ImportPlanned(df, rootRow, rootIdx)
  {
    var childs := Grouped(df);
    GroupedIsGroups(df);
    PlanReachable(df, childs, rootRow.idx, rootIdx, rootIdx + 1, |df|);
    if rootRow.idx !in childs {
      NoRowsWithoutParentId(df, rootRow.idx);
    }
    if |df| > 0 {
      PlanDirect(df, childs, rootRow.idx, rootIdx, rootIdx + 1, |df|);
    }
    if NoCycleBelow(df, rootRow.idx) {
      ImportCompleteHolds(df, rootRow, rootIdx);
    }
  }
}
