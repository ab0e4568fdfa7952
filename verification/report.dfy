/** The summary report of `get_output_stats`: one row per sku with tracked
    objects, labelled by the chosen label mode, and, for every mode other than
    the sku code, rows sharing a label collapsed into one. The reference
    catalog is a plain map from sku to its attribute record. */
module Report {
  import opened Numeric
  import opened Stats
  import opened Order

  /** sku -> (attribute name -> attribute value), e.g. "brand" -> "X". */
  type Catalog = map<Sku, map<string, string>>

  /** The label modes the tracker recognises: the sku code and the four
      catalog attributes. Both the constructor and the application's mode
      selector only ever set one of these. */
  const ValidLabelModes: set<string> := {"sku_code", "item_name", "brand", "sub_category", "category"}

  /** The label mode under which rows are labelled by the sku itself and
      never grouped. */
  const SkuCodeMode: string := "sku_code"

  /** The label of a sku's row: the sku itself in sku-code mode, otherwise the
      catalog attribute named by the mode, degrading to the sku when the
      catalog has no entry for it or the entry lacks that attribute. */
  function ResolveLabel(mode: string, catalog: Catalog, sku: Sku): (key: string)
    ensures key == sku || (sku in catalog && mode in catalog[sku] && key == catalog[sku][mode])
    ensures (mode == SkuCodeMode || sku !in catalog || mode !in catalog[sku]) ==> key == sku
    ensures (mode != SkuCodeMode && sku in catalog && mode in catalog[sku]) ==> key == catalog[sku][mode]
  {
    if mode == SkuCodeMode then sku
    else if sku in catalog && mode in catalog[sku] then catalog[sku][mode]
    else sku
  }

  /** One line of the report. Percentages are whole numbers. */
  datatype Row = Row(key: string, count: nat, confidencePct: int, presencePct: int)

  function RowKeys(rows: seq<Row>): (ls: seq<string>)
    ensures |ls| == |rows|
    ensures forall i :: 0 <= i < |rows| ==> ls[i] == rows[i].key
  {
    seq(|rows|, i requires 0 <= i < |rows| => rows[i].key)
  }

  /** Sum of the `count` column. */
  function TotalCount(rows: seq<Row>): nat
    decreases |rows|
  {
    if |rows| == 0 then 0 else TotalCount(rows[..|rows| - 1]) + rows[|rows| - 1].count
  }

  function ConfidencePercents(rows: seq<Row>): (ps: seq<real>)
    ensures |ps| == |rows|
    ensures forall i :: 0 <= i < |rows| ==> ps[i] == rows[i].confidencePct as real
  {
    seq(|rows|, i requires 0 <= i < |rows| => rows[i].confidencePct as real)
  }

  function PresencePercents(rows: seq<Row>): (ps: seq<real>)
    ensures |ps| == |rows|
    ensures forall i :: 0 <= i < |rows| ==> ps[i] == rows[i].presencePct as real
  {
    seq(|rows|, i requires 0 <= i < |rows| => rows[i].presencePct as real)
  }

  /* ---------------------------------------------------------------------- */
  /* Per-sku rows                                                            */
  /* ---------------------------------------------------------------------- */

  /** The row of one sku that has tracked objects. Its count is the number of
      unique tracker ids; its confidence is the rounded mean of its samples in
      percent; its presence is its appearance count over the frame count in
      percent, which, because appearances are only counted on a first
      sighting, is the unique-object count per frame and may exceed 100. */
  function SkuRow(st: Store, mode: string, catalog: Catalog, sku: Sku): (row: Row)
    requires Valid(st) && st.frameCount > 0 && |Ids(st, sku)| > 0
    ensures row.key == ResolveLabel(mode, catalog, sku)
    ensures row.count == |Ids(st, sku)| == Appearances(st, sku)
    ensures |Samples(st, sku)| == row.count
  {
    var samples := if sku in st.confidence then st.confidence[sku] else [0.0];
    Row(
      ResolveLabel(mode, catalog, sku),
      |st.trackedIds[sku]|,
      RoundHalfEven(Mean(samples) * 100.0),
      RoundHalfEven(st.appearances[sku] as real / st.frameCount as real * 100.0))
  }

  /** The percentages of a sku's row: the rounded mean of its recorded
      samples, and its unique-object count over the frame count, in percent. */
  lemma SkuRowPercents(st: Store, mode: string, catalog: Catalog, sku: Sku)
    requires Valid(st) && st.frameCount > 0 && |Ids(st, sku)| > 0
    ensures SkuRow(st, mode, catalog, sku).confidencePct == RoundHalfEven(Mean(Samples(st, sku)) * 100.0)
    ensures SkuRow(st, mode, catalog, sku).presencePct
            == RoundHalfEven(|Ids(st, sku)| as real / st.frameCount as real * 100.0)
  {
  }

  /** The keys, in order, whose id set is non-empty. */
  function ActiveSkus(st: Store, keys: seq<Sku>): (ks: seq<Sku>)
    ensures forall s :: s in ks <==> s in keys && |Ids(st, s)| > 0
    ensures Distinct(keys) ==> Distinct(ks)
    decreases |keys|
  {
    if |keys| == 0 then []
    else
      var init := ActiveSkus(st, keys[..|keys| - 1]);
      var last := keys[|keys| - 1];
      assert Distinct(keys) ==> last !in keys[..|keys| - 1];
      if |Ids(st, last)| > 0 then init + [last] else init
  }

  /** The rows of the given active skus, in the same order. */
  function RowsFor(st: Store, mode: string, catalog: Catalog, ks: seq<Sku>): (rows: seq<Row>)
    requires Valid(st) && st.frameCount > 0
    requires forall i :: 0 <= i < |ks| ==> |Ids(st, ks[i])| > 0
    ensures |rows| == |ks|
    ensures forall i :: 0 <= i < |ks| ==> rows[i] == SkuRow(st, mode, catalog, ks[i])
    decreases |ks|
  {
    if |ks| == 0 then []
    else RowsFor(st, mode, catalog, ks[..|ks| - 1]) + [SkuRow(st, mode, catalog, ks[|ks| - 1])]
  }

  /** The rows built by the loop over the id dictionary, before grouping. */
  function PerSkuRows(st: Store, mode: string, catalog: Catalog): (rows: seq<Row>)
    requires Valid(st) && st.frameCount > 0
  {
    RowsFor(st, mode, catalog, ActiveSkus(st, st.skuOrder))
  }

  /** Under the invariant, the active keys are exactly the skus with tracked
      objects, each listed once. */
  lemma ActiveSkusExact(st: Store)
    requires Valid(st)
    ensures forall s :: s in ActiveSkus(st, st.skuOrder) <==> |Ids(st, s)| > 0
    ensures Distinct(ActiveSkus(st, st.skuOrder))
  {
  }

  /** Exactly one row per sku with tracked objects, in the store's key order:
      the i-th row is the row of the i-th such sku, and those skus are
      listed once each. */
  lemma PerSkuRowsExact(st: Store, mode: string, catalog: Catalog)
    requires Valid(st) && st.frameCount > 0
    ensures |PerSkuRows(st, mode, catalog)| == |ActiveSkus(st, st.skuOrder)|
    ensures forall i :: 0 <= i < |ActiveSkus(st, st.skuOrder)| ==>
              PerSkuRows(st, mode, catalog)[i] == SkuRow(st, mode, catalog, ActiveSkus(st, st.skuOrder)[i])
    ensures forall s :: s in ActiveSkus(st, st.skuOrder) <==> |Ids(st, s)| > 0
    ensures Distinct(ActiveSkus(st, st.skuOrder))
  {
    ActiveSkusExact(st);
  }

  /** When every key has tracked objects the loop skips none of them. */
  lemma {:induction false} ActiveSkusAll(st: Store, keys: seq<Sku>)
    requires forall i :: 0 <= i < |keys| ==> |Ids(st, keys[i])| > 0
    ensures ActiveSkus(st, keys) == keys
    decreases |keys|
  {
    if |keys| > 0 {
      var init, last := keys[..|keys| - 1], keys[|keys| - 1];
      assert forall i :: 0 <= i < |init| ==> init[i] == keys[i];
      ActiveSkusAll(st, init);
      assert |Ids(st, last)| > 0;
      SplitLast(keys);
    }
  }

  lemma SplitLast(keys: seq<Sku>)
    requires |keys| > 0
    ensures keys == keys[..|keys| - 1] + [keys[|keys| - 1]]
  {
  }

  /** Sum of the id-set sizes of the given skus. */
  function SumSizes(st: Store, keys: seq<Sku>): nat
    decreases |keys|
  {
    if |keys| == 0 then 0 else SumSizes(st, keys[..|keys| - 1]) + |Ids(st, keys[|keys| - 1])|
  }

  /** Number of unique (sku, tracker id) pairs recorded in the store. */
  function UniqueObjects(st: Store): nat
  {
    SumSizes(st, st.skuOrder)
  }

  lemma {:induction false} ActiveSkusSizes(st: Store, keys: seq<Sku>)
    ensures SumSizes(st, ActiveSkus(st, keys)) == SumSizes(st, keys)
    decreases |keys|
  {
    if |keys| > 0 {
      var init := keys[..|keys| - 1];
      var last := keys[|keys| - 1];
      ActiveSkusSizes(st, init);
      var a := ActiveSkus(st, init);
      if |Ids(st, last)| > 0 {
        assert (a + [last])[..|a|] == a;
      }
    }
  }

  lemma {:induction false} RowsForTotal(st: Store, mode: string, catalog: Catalog, ks: seq<Sku>)
    requires Valid(st) && st.frameCount > 0
    requires forall i :: 0 <= i < |ks| ==> |Ids(st, ks[i])| > 0
    ensures TotalCount(RowsFor(st, mode, catalog, ks)) == SumSizes(st, ks)
    decreases |ks|
  {
    if |ks| > 0 {
      var init := ks[..|ks| - 1];
      assert forall i :: 0 <= i < |init| ==> init[i] == ks[i];
      RowsForTotal(st, mode, catalog, init);
      var pre := RowsFor(st, mode, catalog, init);
      var last := SkuRow(st, mode, catalog, ks[|ks| - 1]);
      assert RowsFor(st, mode, catalog, ks) == pre + [last];
      TotalCountAppend(pre, last);
      assert SumSizes(st, ks) == SumSizes(st, init) + last.count;
    }
  }

  /** Before grouping, the counts add up to the number of unique objects. */
  lemma PerSkuRowsTotal(st: Store, mode: string, catalog: Catalog)
    requires Valid(st) && st.frameCount > 0
    ensures TotalCount(PerSkuRows(st, mode, catalog)) == UniqueObjects(st)
  {
    RowsForTotal(st, mode, catalog, ActiveSkus(st, st.skuOrder));
    ActiveSkusSizes(st, st.skuOrder);
  }

  /* ---------------------------------------------------------------------- */
  /* Grouping by label                                                       */
  /* ---------------------------------------------------------------------- */

  /** The rows carrying label l, in order: every input row with that label,
      as often as it occurs, and nothing else. */
  function RowsWithKey(rows: seq<Row>, l: string): (sel: seq<Row>)
    ensures forall i :: 0 <= i < |sel| ==> sel[i].key == l
    ensures |sel| > 0 <==> l in RowKeys(rows)
    ensures |sel| <= |rows|
    decreases |rows|
  {
    if |rows| == 0 then []
    else
      var init := RowsWithKey(rows[..|rows| - 1], l);
      assert RowKeys(rows) == RowKeys(rows[..|rows| - 1]) + [rows[|rows| - 1].key];
      if rows[|rows| - 1].key == l then init + [rows[|rows| - 1]] else init
  }

  /** The selection is exactly the input rows with label l, each as often as
      it occurs in the input: no row is invented, dropped or duplicated. */
  lemma {:induction false} RowsWithKeySelects(rows: seq<Row>, l: string)
    ensures forall r :: multiset(RowsWithKey(rows, l))[r] == (if r.key == l then multiset(rows)[r] else 0)
    decreases |rows|
  {
    if |rows| > 0 {
      var init := rows[..|rows| - 1];
      var last := rows[|rows| - 1];
      RowsWithKeySelects(init, l);
      assert rows == init + [last];
      assert multiset(rows) == multiset(init) + multiset{last};
      RowsWithKeyAppend(init, last, l);
    }
  }

  /** The distinct labels of the rows, in order of first occurrence. */
  function FirstKeys(rows: seq<Row>): (ls: seq<string>)
    ensures Distinct(ls)
    ensures forall l :: l in ls <==> l in RowKeys(rows)
    decreases |rows|
  {
    if |rows| == 0 then []
    else
      var init := FirstKeys(rows[..|rows| - 1]);
      var last := rows[|rows| - 1].key;
      assert RowKeys(rows) == RowKeys(rows[..|rows| - 1]) + [last];
      if last in init then init else init + [last]
  }

  /** The single row standing for a group: the summed count and the rounded
      unweighted means of the members' whole-number percentages. */
  function Collapse(l: string, members: seq<Row>): (row: Row)
    requires |members| > 0
  {
    Row(
      l,
      TotalCount(members),
      RoundHalfEven(Mean(ConfidencePercents(members))),
      RoundHalfEven(Mean(PresencePercents(members))))
  }

  /** The `groupby(label).agg(...)` step: one row per distinct label, the
      labels in increasing order (pandas sorts the group keys). */
  function GroupRows(rows: seq<Row>): (out: seq<Row>)
    ensures Distinct(RowKeys(out))
    ensures Sorted(RowKeys(out))
    ensures forall l :: l in RowKeys(out) <==> l in RowKeys(rows)
  {
    var ls := SortKeys(FirstKeys(rows));
    var out := seq(|ls|, i requires 0 <= i < |ls| => Collapse(ls[i], RowsWithKey(rows, ls[i])));
    assert RowKeys(out) == ls;
    SortKeysSorted(FirstKeys(rows));
    SortedDistinct(ls);
    out
  }

  /** Each grouped row stands for the non-empty set of rows carrying its
      label: its count is their total, its percentages the rounded means of
      theirs. */
  lemma GroupRowsMembers(rows: seq<Row>)
    ensures forall i :: 0 <= i < |GroupRows(rows)| ==>
              && |RowsWithKey(rows, GroupRows(rows)[i].key)| > 0
              && GroupRows(rows)[i] == Collapse(GroupRows(rows)[i].key, RowsWithKey(rows, GroupRows(rows)[i].key))
  {
    var ls := SortKeys(FirstKeys(rows));
    assert forall i :: 0 <= i < |ls| ==> ls[i] in RowKeys(rows);
  }

  /** Sum, over the given labels, of the counts of the rows carrying each. */
  function SumWithKeys(rows: seq<Row>, ls: seq<string>): nat
    decreases |ls|
  {
    if |ls| == 0 then 0
    else SumWithKeys(rows, ls[..|ls| - 1]) + TotalCount(RowsWithKey(rows, ls[|ls| - 1]))
  }

  lemma TotalCountAppend(rows: seq<Row>, r: Row)
    ensures TotalCount(rows + [r]) == TotalCount(rows) + r.count
  {
    assert (rows + [r])[..|rows|] == rows;
  }

  lemma RowsWithKeyAppend(rows: seq<Row>, r: Row, l: string)
    ensures RowsWithKey(rows + [r], l) == RowsWithKey(rows, l) + (if r.key == l then [r] else [])
  {
    assert (rows + [r])[..|rows|] == rows;
  }

  /** Adding one row to the input adds its count to the label sum exactly
      when its label is among the (distinct) labels summed over. */
  lemma {:induction false} SumWithKeysAppend(rows: seq<Row>, r: Row, ls: seq<string>)
    requires Distinct(ls)
    ensures SumWithKeys(rows + [r], ls) == SumWithKeys(rows, ls) + (if r.key in ls then r.count else 0)
    decreases |ls|
  {
    if |ls| > 0 {
      var init := ls[..|ls| - 1];
      var l := ls[|ls| - 1];
      SumWithKeysAppend(rows, r, init);
      RowsWithKeyAppend(rows, r, l);
      if r.key == l {
        TotalCountAppend(RowsWithKey(rows, l), r);
        assert r.key !in init;
      }
      assert r.key in ls <==> r.key in init || r.key == l;
    }
  }

  lemma {:induction false} SumWithKeysFirstKeys(rows: seq<Row>)
    ensures SumWithKeys(rows, FirstKeys(rows)) == TotalCount(rows)
    decreases |rows|
  {
    if |rows| > 0 {
      var p := rows[..|rows| - 1];
      var r := rows[|rows| - 1];
      assert rows == p + [r];
      SumWithKeysFirstKeys(p);
      var fl := FirstKeys(p);
      SumWithKeysAppend(p, r, fl);
      assert SumWithKeys(rows, fl) == TotalCount(p) + (if r.key in fl then r.count else 0);
      assert TotalCount(rows) == TotalCount(p) + r.count;
      if r.key !in fl {
        SumWithKeysNewKey(rows, fl, r.key);
        RowsWithKeyAppend(p, r, r.key);
        assert RowsWithKey(p, r.key) == [];
        TotalCountSingleton(r);
      }
    }
  }

  lemma SumWithKeysNewKey(rows: seq<Row>, ls: seq<string>, k: string)
    ensures SumWithKeys(rows, ls + [k]) == SumWithKeys(rows, ls) + TotalCount(RowsWithKey(rows, k))
  {
    assert (ls + [k])[..|ls|] == ls;
  }

  lemma TotalCountSingleton(r: Row)
    ensures TotalCount([r]) == r.count
  {
    assert [r][..0] == [];
  }

  lemma {:induction false} CollapsedTotal(rows: seq<Row>, ls: seq<string>)
    requires forall i :: 0 <= i < |ls| ==> ls[i] in RowKeys(rows)
    ensures TotalCount(seq(|ls|, i requires 0 <= i < |ls| => Collapse(ls[i], RowsWithKey(rows, ls[i]))))
            == SumWithKeys(rows, ls)
    decreases |ls|
  {
    if |ls| > 0 {
      var init := ls[..|ls| - 1];
      CollapsedTotal(rows, init);
      var out := seq(|ls|, i requires 0 <= i < |ls| => Collapse(ls[i], RowsWithKey(rows, ls[i])));
      var outInit := seq(|init|, i requires 0 <= i < |init| => Collapse(init[i], RowsWithKey(rows, init[i])));
      assert out[..|out| - 1] == outInit;
    }
  }

  /** Grouping neither loses nor invents objects: the counts of the grouped
      rows add up to the counts of the rows grouped. */
  lemma GroupPreservesTotal(rows: seq<Row>)
    ensures TotalCount(GroupRows(rows)) == TotalCount(rows)
  {
    var ls := FirstKeys(rows);
    CollapsedTotal(rows, SortKeys(ls));
    SumWithKeysSortKeys(rows, ls);
    SumWithKeysFirstKeys(rows);
  }

  lemma {:induction false} SumWithKeysConcat(rows: seq<Row>, a: seq<string>, b: seq<string>)
    ensures SumWithKeys(rows, a + b) == SumWithKeys(rows, a) + SumWithKeys(rows, b)
    decreases |b|
  {
    if |b| > 0 {
      var bi := b[..|b| - 1];
      assert (a + b)[..|a + b| - 1] == a + bi;
      assert (a + b)[|a + b| - 1] == b[|b| - 1];
      SumWithKeysConcat(rows, a, bi);
    } else {
      assert a + b == a;
    }
  }

  /** Inserting a label anywhere adds that label's rows to the sum. */
  lemma SumWithKeysInsert(rows: seq<Row>, l: string, s: seq<string>)
    ensures SumWithKeys(rows, Insert(l, s)) == SumWithKeys(rows, s) + TotalCount(RowsWithKey(rows, l))
  {
    var k := Position(l, s);
    var front := s[..k];
    var back := s[k..];
    InsertParts(l, s);
    SumWithKeysConcat(rows, front + [l], back);
    SumWithKeysNewKey(rows, front, l);
    SumWithKeysConcat(rows, front, back);
  }

  /** The label sum does not depend on the order the labels are summed in. */
  lemma {:induction false} SumWithKeysSortKeys(rows: seq<Row>, ls: seq<string>)
    ensures SumWithKeys(rows, SortKeys(ls)) == SumWithKeys(rows, ls)
    decreases |ls|
  {
    if |ls| > 0 {
      var init := ls[..|ls| - 1];
      var l := ls[|ls| - 1];
      SumWithKeysSortKeys(rows, init);
      SumWithKeysInsert(rows, l, SortKeys(init));
      assert SortKeys(ls) == Insert(l, SortKeys(init));
    }
  }

  lemma {:induction false} FirstKeysOfDistinct(rows: seq<Row>)
    requires Distinct(RowKeys(rows))
    ensures FirstKeys(rows) == RowKeys(rows)
    decreases |rows|
  {
    if |rows| > 0 {
      var p := rows[..|rows| - 1];
      assert RowKeys(rows) == RowKeys(p) + [rows[|rows| - 1].key];
      FirstKeysOfDistinct(p);
      assert rows[|rows| - 1].key !in RowKeys(p);
    }
  }

  lemma {:induction false} RowsWithKeyOfDistinct(rows: seq<Row>, k: int)
    requires Distinct(RowKeys(rows)) && 0 <= k < |rows|
    ensures RowsWithKey(rows, rows[k].key) == [rows[k]]
    decreases |rows|
  {
    var p := rows[..|rows| - 1];
    var r := rows[|rows| - 1];
    assert rows == p + [r];
    assert RowKeys(rows) == RowKeys(p) + [r.key];
    RowsWithKeyAppend(p, r, rows[k].key);
    if k == |rows| - 1 {
      assert r.key !in RowKeys(p);
      assert RowsWithKey(p, r.key) == [];
    } else {
      assert rows[k] == p[k];
      RowsWithKeyOfDistinct(p, k);
    }
  }

  lemma CollapseSingleton(r: Row)
    ensures Collapse(r.key, [r]) == r
  {
    assert [r][..0] == [];
    assert TotalCount([r]) == r.count;
    MeanSingleton(r.confidencePct as real);
    MeanSingleton(r.presencePct as real);
    assert ConfidencePercents([r]) == [r.confidencePct as real];
    assert PresencePercents([r]) == [r.presencePct as real];
    RoundHalfEvenUnique(r.confidencePct as real, r.confidencePct);
    RoundHalfEvenUnique(r.presencePct as real, r.presencePct);
  }

  /** Rows whose labels are already distinct and in increasing order come
      through grouping unchanged. */
  lemma GroupSortedIsIdentity(rows: seq<Row>)
    requires Sorted(RowKeys(rows))
    ensures GroupRows(rows) == rows
  {
    SortedDistinct(RowKeys(rows));
    FirstKeysOfDistinct(rows);
    SortKeysOfSorted(RowKeys(rows));
    var out := GroupRows(rows);
    GroupRowsMembers(rows);
    forall i | 0 <= i < |rows|
      ensures out[i] == rows[i]
    {
      RowsWithKeyOfDistinct(rows, i);
      CollapseSingleton(rows[i]);
    }
  }

  /** Rows whose labels are already distinct are only reordered by grouping:
      the same rows come out, each once, sorted by label. */
  lemma GroupDistinctReorders(rows: seq<Row>)
    requires Distinct(RowKeys(rows))
    ensures |GroupRows(rows)| == |rows|
    ensures forall r :: r in GroupRows(rows) <==> r in rows
  {
    FirstKeysOfDistinct(rows);
    var out := GroupRows(rows);
    GroupRowsMembers(rows);
    forall i | 0 <= i < |out|
      ensures out[i] in rows
    {
      var j :| 0 <= j < |rows| && rows[j].key == out[i].key;
      RowsWithKeyOfDistinct(rows, j);
      CollapseSingleton(rows[j]);
    }
    forall j | 0 <= j < |rows|
      ensures rows[j] in out
    {
      assert rows[j].key in RowKeys(rows);
      var i :| 0 <= i < |out| && out[i].key == rows[j].key;
      RowsWithKeyOfDistinct(rows, j);
      CollapseSingleton(rows[j]);
    }
  }

  /** Grouping twice is grouping once. */
  lemma GroupIdempotent(rows: seq<Row>)
    ensures GroupRows(GroupRows(rows)) == GroupRows(rows)
  {
    GroupSortedIsIdentity(GroupRows(rows));
  }

  /** Grouped percentages stay within any whole-number range that holds all
      the per-sku percentages. */
  lemma GroupPercentBounds(rows: seq<Row>, lo: int, hi: int)
    requires forall i :: 0 <= i < |rows| ==> lo <= rows[i].confidencePct <= hi
    requires forall i :: 0 <= i < |rows| ==> lo <= rows[i].presencePct
    ensures forall i :: 0 <= i < |GroupRows(rows)| ==>
              lo <= GroupRows(rows)[i].confidencePct <= hi && lo <= GroupRows(rows)[i].presencePct
  {
    var out := GroupRows(rows);
    GroupRowsMembers(rows);
    forall i | 0 <= i < |out|
      ensures lo <= out[i].confidencePct <= hi && lo <= out[i].presencePct
    {
      var members := RowsWithKey(rows, out[i].key);
      RowsWithKeyWithin(rows, out[i].key, lo, hi);
      MeanBounds(ConfidencePercents(members), lo as real, hi as real);
      RoundWithin(Mean(ConfidencePercents(members)), lo, hi);
      var top := MaxPresence(members);
      MeanBounds(PresencePercents(members), lo as real, top as real);
      RoundWithin(Mean(PresencePercents(members)), lo, top);
    }
  }

  /** The largest presence percentage of a non-empty list of rows. */
  function MaxPresence(rows: seq<Row>): (m: int)
    requires |rows| > 0
    ensures forall i :: 0 <= i < |rows| ==> rows[i].presencePct <= m
    decreases |rows|
  {
    if |rows| == 1 then rows[0].presencePct
    else
      var m := MaxPresence(rows[..|rows| - 1]);
      if rows[|rows| - 1].presencePct > m then rows[|rows| - 1].presencePct else m
  }

  lemma {:induction false} RowsWithKeyWithin(rows: seq<Row>, l: string, lo: int, hi: int)
    requires forall i :: 0 <= i < |rows| ==> lo <= rows[i].confidencePct <= hi
    requires forall i :: 0 <= i < |rows| ==> lo <= rows[i].presencePct
    ensures forall i :: 0 <= i < |RowsWithKey(rows, l)| ==>
              lo <= RowsWithKey(rows, l)[i].confidencePct <= hi && lo <= RowsWithKey(rows, l)[i].presencePct
    decreases |rows|
  {
    if |rows| > 0 {
      RowsWithKeyWithin(rows[..|rows| - 1], l, lo, hi);
    }
  }

  /* ---------------------------------------------------------------------- */
  /* The report                                                              */
  /* ---------------------------------------------------------------------- */

  /** `get_output_stats`: nothing before the first frame; otherwise the
      per-sku rows, grouped by label unless the mode is the sku code. */
  function GetOutputStats(st: Store, mode: string, catalog: Catalog): (rows: seq<Row>)
    requires Valid(st) && mode in ValidLabelModes
    ensures st.frameCount == 0 ==> rows == []
    ensures Distinct(RowKeys(rows))
    ensures mode != SkuCodeMode ==> Sorted(RowKeys(rows))
  {
    if st.frameCount == 0 then []
    else
      var perSku := PerSkuRows(st, mode, catalog);
      if mode != SkuCodeMode && |perSku| > 0 then GroupRows(perSku)
      else
        assert mode == SkuCodeMode ==> RowKeys(perSku) == ActiveSkus(st, st.skuOrder);
        perSku
  }

  /** When no two skus with tracked objects share a label, as in sku-code
      mode, the report holds exactly the per-sku rows: in the skus' order in
      sku-code mode, sorted by label otherwise. */
  lemma ReportOfDistinctLabels(st: Store, mode: string, catalog: Catalog)
    requires Valid(st) && st.frameCount > 0 && mode in ValidLabelModes
    requires Distinct(RowKeys(PerSkuRows(st, mode, catalog)))
    ensures |GetOutputStats(st, mode, catalog)| == |PerSkuRows(st, mode, catalog)|
    ensures forall r :: r in GetOutputStats(st, mode, catalog) <==> r in PerSkuRows(st, mode, catalog)
    ensures mode == SkuCodeMode || Sorted(RowKeys(PerSkuRows(st, mode, catalog))) ==>
              GetOutputStats(st, mode, catalog) == PerSkuRows(st, mode, catalog)
  {
    var perSku := PerSkuRows(st, mode, catalog);
    var report := GetOutputStats(st, mode, catalog);
    if mode != SkuCodeMode && |perSku| > 0 {
      assert report == GroupRows(perSku);
      GroupDistinctReorders(perSku);
      if Sorted(RowKeys(perSku)) {
        GroupSortedIsIdentity(perSku);
      }
    } else {
      assert report == perSku;
    }
  }

  /** The report accounts for every unique tracked object exactly once, in
      every label mode. */
  lemma ReportTotal(st: Store, mode: string, catalog: Catalog)
    requires Valid(st) && mode in ValidLabelModes
    ensures TotalCount(GetOutputStats(st, mode, catalog)) == (if st.frameCount == 0 then 0 else UniqueObjects(st))
  {
    if st.frameCount > 0 {
      PerSkuRowsTotal(st, mode, catalog);
      GroupPreservesTotal(PerSkuRows(st, mode, catalog));
    }
  }

  /** In sku-code mode the report has one row per sku of the live summary,
      labelled by that sku, with the live summary's count. */
  lemma ReportBySkuMatchesLiveSummary(st: Store, catalog: Catalog)
    requires Valid(st) && st.frameCount > 0
    ensures forall s :: s in LiveSummary(st) <==> s in RowKeys(GetOutputStats(st, SkuCodeMode, catalog))
    ensures forall i :: 0 <= i < |GetOutputStats(st, SkuCodeMode, catalog)| ==>
              GetOutputStats(st, SkuCodeMode, catalog)[i].count == LiveSummary(st)[GetOutputStats(st, SkuCodeMode, catalog)[i].key]
  {
    var rows := GetOutputStats(st, SkuCodeMode, catalog);
    assert rows == PerSkuRows(st, SkuCodeMode, catalog);
    assert RowKeys(rows) == ActiveSkus(st, st.skuOrder);
    PerSkuCountsLive(st, catalog);
  }

  lemma PerSkuCountsLive(st: Store, catalog: Catalog)
    requires Valid(st) && st.frameCount > 0
    ensures forall r :: r in PerSkuRows(st, SkuCodeMode, catalog) ==>
              r.key in LiveSummary(st) && r.count == LiveSummary(st)[r.key]
  {
    var ks := ActiveSkus(st, st.skuOrder);
    PerSkuRowsExact(st, SkuCodeMode, catalog);
    forall r | r in PerSkuRows(st, SkuCodeMode, catalog)
      ensures r.key in LiveSummary(st) && r.count == LiveSummary(st)[r.key]
    {
      var i :| 0 <= i < |ks| && PerSkuRows(st, SkuCodeMode, catalog)[i] == r;
      assert r == SkuRow(st, SkuCodeMode, catalog, ks[i]);
    }
  }

  /** In sku-code mode the rows come in the store's key order, which is the
      order Python iterates the id dictionary in, when no key has an empty
      id set. */
  lemma ReportBySkuOrder(st: Store, catalog: Catalog)
    requires Valid(st) && NoEmptyIds(st) && st.frameCount > 0
    ensures RowKeys(GetOutputStats(st, SkuCodeMode, catalog)) == st.skuOrder
  {
    assert forall i :: 0 <= i < |st.skuOrder| ==> |Ids(st, st.skuOrder[i])| > 0;
    ActiveSkusAll(st, st.skuOrder);
    ReportBySkuKeys(st, catalog);
  }

  /** In sku-code mode nothing is grouped and each row is labelled by its sku. */
  lemma ReportBySkuKeys(st: Store, catalog: Catalog)
    requires Valid(st) && st.frameCount > 0
    ensures RowKeys(GetOutputStats(st, SkuCodeMode, catalog)) == ActiveSkus(st, st.skuOrder)
  {
    assert GetOutputStats(st, SkuCodeMode, catalog) == PerSkuRows(st, SkuCodeMode, catalog);
    PerSkuKeysBySku(st, catalog);
  }

  lemma PerSkuKeysBySku(st: Store, catalog: Catalog)
    requires Valid(st) && st.frameCount > 0
    ensures RowKeys(PerSkuRows(st, SkuCodeMode, catalog)) == ActiveSkus(st, st.skuOrder)
  {
    var ks := ActiveSkus(st, st.skuOrder);
    var rows := RowsFor(st, SkuCodeMode, catalog, ks);
    forall i | 0 <= i < |ks|
      ensures rows[i].key == ks[i]
    {
      assert rows[i] == SkuRow(st, SkuCodeMode, catalog, ks[i]);
    }
  }

  /** In any other mode the report has one row per label that some sku
      with tracked objects resolves to, and no other rows. */
  lemma ReportGroupedLabels(st: Store, mode: string, catalog: Catalog)
    requires Valid(st) && st.frameCount > 0 && mode in ValidLabelModes && mode != SkuCodeMode
    ensures forall l :: l in RowKeys(GetOutputStats(st, mode, catalog)) <==>
              exists s :: |Ids(st, s)| > 0 && ResolveLabel(mode, catalog, s) == l
  {
    var perSku := PerSkuRows(st, mode, catalog);
    PerSkuKeys(st, mode, catalog);
    if |perSku| > 0 {
      assert GetOutputStats(st, mode, catalog) == GroupRows(perSku);
    } else {
      assert GetOutputStats(st, mode, catalog) == perSku;
    }
  }

  /** The labels of the per-sku rows are the labels the active skus resolve to. */
  lemma PerSkuKeys(st: Store, mode: string, catalog: Catalog)
    requires Valid(st) && st.frameCount > 0
    ensures forall l :: l in RowKeys(PerSkuRows(st, mode, catalog)) <==>
              exists s :: |Ids(st, s)| > 0 && ResolveLabel(mode, catalog, s) == l
  {
    forall l | l in RowKeys(PerSkuRows(st, mode, catalog))
      ensures exists s :: |Ids(st, s)| > 0 && ResolveLabel(mode, catalog, s) == l
    {
      PerSkuKeySound(st, mode, catalog, l);
    }
    forall l | exists s :: |Ids(st, s)| > 0 && ResolveLabel(mode, catalog, s) == l
      ensures l in RowKeys(PerSkuRows(st, mode, catalog))
    {
      var s :| |Ids(st, s)| > 0 && ResolveLabel(mode, catalog, s) == l;
      PerSkuKeyComplete(st, mode, catalog, s);
    }
  }

  lemma PerSkuKeySound(st: Store, mode: string, catalog: Catalog, l: string)
    requires Valid(st) && st.frameCount > 0
    requires l in RowKeys(PerSkuRows(st, mode, catalog))
    ensures exists s :: |Ids(st, s)| > 0 && ResolveLabel(mode, catalog, s) == l
  {
    var ks := ActiveSkus(st, st.skuOrder);
    var perSku := PerSkuRows(st, mode, catalog);
    PerSkuRowsExact(st, mode, catalog);
    var i :| 0 <= i < |perSku| && RowKeys(perSku)[i] == l;
    assert ks[i] in ks;
    assert ResolveLabel(mode, catalog, ks[i]) == l;
  }

  lemma PerSkuKeyComplete(st: Store, mode: string, catalog: Catalog, s: Sku)
    requires Valid(st) && st.frameCount > 0 && |Ids(st, s)| > 0
    ensures ResolveLabel(mode, catalog, s) in RowKeys(PerSkuRows(st, mode, catalog))
  {
    var ks := ActiveSkus(st, st.skuOrder);
    var perSku := PerSkuRows(st, mode, catalog);
    PerSkuRowsExact(st, mode, catalog);
    var i :| 0 <= i < |ks| && ks[i] == s;
    assert RowKeys(perSku)[i] == ResolveLabel(mode, catalog, s);
  }

  /** A sku whose samples lie in [0, 1] gets a confidence between 0 and
      100 percent and a non-negative presence. */
  lemma SkuRowBounds(st: Store, mode: string, catalog: Catalog, s: Sku)
    requires Valid(st) && st.frameCount > 0 && |Ids(st, s)| > 0 && ConfidencesInUnit(st)
    ensures 0 <= SkuRow(st, mode, catalog, s).confidencePct <= 100
    ensures 0 <= SkuRow(st, mode, catalog, s).presencePct
  {
    var row := SkuRow(st, mode, catalog, s);
    SkuRowPercents(st, mode, catalog, s);
    var xs := Samples(st, s);
    assert forall j :: 0 <= j < |xs| ==> 0.0 <= xs[j] <= 1.0;
    MeanBounds(xs, 0.0, 1.0);
    RoundWithin(Mean(xs) * 100.0, 0, 100);
    var p := row.count as real / st.frameCount as real * 100.0;
    assert p >= 0.0;
    RoundWithin(p, 0, p.Floor + 1);
  }

  /** Every confidence lies in [0, 100] percent and no presence is negative. */
  predicate PercentsInRange(rows: seq<Row>)
  {
    forall i :: 0 <= i < |rows| ==> 0 <= rows[i].confidencePct <= 100 && 0 <= rows[i].presencePct
  }

  lemma PerSkuPercentBounds(st: Store, mode: string, catalog: Catalog)
    requires Valid(st) && st.frameCount > 0 && ConfidencesInUnit(st)
    ensures PercentsInRange(PerSkuRows(st, mode, catalog))
  {
    var perSku := PerSkuRows(st, mode, catalog);
    var ks := ActiveSkus(st, st.skuOrder);
    forall i | 0 <= i < |perSku|
      ensures 0 <= perSku[i].confidencePct <= 100 && 0 <= perSku[i].presencePct
    {
      SkuRowBounds(st, mode, catalog, ks[i]);
    }
  }

  lemma GroupKeepsRange(rows: seq<Row>)
    requires PercentsInRange(rows)
    ensures PercentsInRange(GroupRows(rows))
  {
    GroupPercentBounds(rows, 0, 100);
  }

  /** With confidences between 0 and 1, every reported confidence lies
      between 0 and 100 percent; presence is never negative (but has no upper
      bound). */
  lemma ReportPercentBounds(st: Store, mode: string, catalog: Catalog)
    requires Valid(st) && mode in ValidLabelModes && ConfidencesInUnit(st)
    ensures PercentsInRange(GetOutputStats(st, mode, catalog))
  {
    if st.frameCount > 0 {
      var perSku := PerSkuRows(st, mode, catalog);
      assert PercentsInRange(perSku) by {
        PerSkuPercentBounds(st, mode, catalog);
      }
      if mode != SkuCodeMode && |perSku| > 0 {
        assert GetOutputStats(st, mode, catalog) == GroupRows(perSku);
        GroupKeepsRange(perSku);
      } else {
        assert GetOutputStats(st, mode, catalog) == perSku;
      }
    }
  }
}
