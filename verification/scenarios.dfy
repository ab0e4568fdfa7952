/** Worked examples of the tracker's behaviour, each proved about the model. */
module Scenarios {
  import opened Numeric
  import opened Stats
  import opened Report

  lemma ObserveAllOne(st: Store, d: Detection)
    ensures ObserveAll(st, [d]) == Observe(st, d)
  {
    assert [d][1..] == [];
    assert ObserveAll(st, [d]) == ObserveAll(Observe(st, d), []);
  }

  lemma StepOne(st: Store, d: Detection)
    ensures Step(st, [d]) == Observe(st.(frameCount := st.frameCount + 1), d)
  {
    ObserveAllOne(st.(frameCount := st.frameCount + 1), d);
  }

  lemma StepTwo(st: Store, d1: Detection, d2: Detection)
    ensures Step(st, [d1, d2]) == Observe(Observe(st.(frameCount := st.frameCount + 1), d1), d2)
  {
    var st' := st.(frameCount := st.frameCount + 1);
    assert [d1, d2][1..] == [d2];
    assert ObserveAll(st', [d1, d2]) == ObserveAll(Observe(st', d1), [d2]);
    ObserveAllOne(Observe(st', d1), d2);
  }

  lemma MeanPair(a: real, b: real)
    ensures Mean([a, b]) == (a + b) / 2.0
  {
    assert [a, b][..1] == [a] && [a][..0] == [];
    assert Sum([a]) == a;
    assert Sum([a, b]) == a + b;
  }

  /** A first sighting in a fresh store (frame counter already advanced). */
  lemma FirstSighting(n: nat, sku: Sku, id: TrackId, c: real)
    ensures Observe(Empty.(frameCount := n), Detection(sku, id, c))
         == Store(n, [sku], map[sku := {id}], map[sku := 1], map[sku := [c]])
  {
    var e := Empty.(frameCount := n);
    assert Ids(e, sku) == {} && Appearances(e, sku) == 0 && Samples(e, sku) == [];
    assert [] + [sku] == [sku];
    assert {} + {id} == {id};
    assert [] + [c] == [c];
  }

  /** A second, new tracker id for a sku already holding one. */
  lemma SecondSighting(n: nat, sku: Sku, id1: TrackId, c1: real, id2: TrackId, c2: real)
    requires id1 != id2
    ensures Observe(Store(n, [sku], map[sku := {id1}], map[sku := 1], map[sku := [c1]]), Detection(sku, id2, c2))
         == Store(n, [sku], map[sku := {id1, id2}], map[sku := 2], map[sku := [c1, c2]])
  {
    var s := Store(n, [sku], map[sku := {id1}], map[sku := 1], map[sku := [c1]]);
    assert Ids(s, sku) + {id2} == {id1, id2};
    assert Samples(s, sku) + [c2] == [c1, c2];
  }

  /** The first sighting of a second sku next to a store holding one. */
  lemma OtherSkuSighting(n: nat, s1: Sku, id1: TrackId, c1: real, s2: Sku, id2: TrackId, c2: real)
    requires s1 != s2
    ensures Observe(Store(n, [s1], map[s1 := {id1}], map[s1 := 1], map[s1 := [c1]]), Detection(s2, id2, c2))
         == Store(n, [s1, s2], map[s1 := {id1}, s2 := {id2}], map[s1 := 1, s2 := 1], map[s1 := [c1], s2 := [c2]])
  {
    var s := Store(n, [s1], map[s1 := {id1}], map[s1 := 1], map[s1 := [c1]]);
    assert Ids(s, s2) == {} && Appearances(s, s2) == 0 && Samples(s, s2) == [];
    assert [s1] + [s2] == [s1, s2];
    assert {} + {id2} == {id2};
    assert [] + [c2] == [c2];
  }

  lemma OneSkuValid(n: nat, sku: Sku, ids: set<TrackId>, cs: seq<real>)
    requires |cs| == |ids|
    ensures Valid(Store(n, [sku], map[sku := ids], map[sku := |ids|], map[sku := cs]))
  {
  }

  lemma TwoSkuValid(n: nat, s1: Sku, i1: TrackId, c1: real, s2: Sku, i2: TrackId, c2: real)
    requires s1 != s2
    ensures Valid(Store(n, [s1, s2], map[s1 := {i1}, s2 := {i2}], map[s1 := 1, s2 := 1], map[s1 := [c1], s2 := [c2]]))
  {
  }

  /** A store holding a single sku reports exactly that sku's row. */
  lemma SingleSkuRows(st: Store, mode: string, catalog: Catalog, sku: Sku)
    requires st.skuOrder == [sku] && st.frameCount > 0 && |Ids(st, sku)| > 0
    requires Valid(st)
    ensures PerSkuRows(st, mode, catalog) == [SkuRow(st, mode, catalog, sku)]
  {
    assert ActiveSkus(st, [sku]) == [sku] by {
      assert [sku][..0] == [];
    }
  }

  /** In sku-code mode such a store's report is that one row. */
  lemma SingleSkuReport(st: Store, catalog: Catalog, sku: Sku)
    requires st.skuOrder == [sku] && st.frameCount > 0 && |Ids(st, sku)| > 0
    requires Valid(st)
    ensures GetOutputStats(st, SkuCodeMode, catalog) == [SkuRow(st, SkuCodeMode, catalog, sku)]
  {
    SingleSkuRows(st, SkuCodeMode, catalog, sku);
  }

  /** Three frames: track a of a sku, then track a again (a repeat, with
      another confidence) next to a new track b, then an empty frame. Three
      frames are counted, the sku holds {a, b} with the two first-sighting
      confidences, and the sku-code report has one row with count 2 and
      presence round(2/3 * 100) = 67. */
  lemma ThreeFrameStream(sku: Sku, a: TrackId, b: TrackId, ca: real, ca': real, cb: real, catalog: Catalog)
    requires a != b
    ensures var st := RunFrames(Empty, [[Detection(sku, a, ca)],
                                        [Detection(sku, a, ca'), Detection(sku, b, cb)],
                                        []]);
            && st.frameCount == 3
            && Ids(st, sku) == {a, b}
            && Appearances(st, sku) == 2
            && Samples(st, sku) == [ca, cb]
            && Valid(st)
            && GetOutputStats(st, SkuCodeMode, catalog)
               == [Row(sku, 2, RoundHalfEven(Mean([ca, cb]) * 100.0), 67)]
  {
    var st := Store(3, [sku], map[sku := {a, b}], map[sku := 2], map[sku := [ca, cb]]);
    ThreeFrameStore(sku, a, b, ca, ca', cb, st);
    assert |{a, b}| == 2;
    OneSkuValid(3, sku, {a, b}, [ca, cb]);
    SingleSkuReport(st, catalog, sku);
    ThreeFrameRow(st, sku, a, b, ca, cb, catalog);
  }

  lemma ThreeFrameStore(sku: Sku, a: TrackId, b: TrackId, ca: real, ca': real, cb: real, st: Store)
    requires a != b
    requires st == Store(3, [sku], map[sku := {a, b}], map[sku := 2], map[sku := [ca, cb]])
    ensures RunFrames(Empty, [[Detection(sku, a, ca)],
                              [Detection(sku, a, ca'), Detection(sku, b, cb)],
                              []]) == st
  {
    var f1 := [Detection(sku, a, ca)];
    var f2 := [Detection(sku, a, ca'), Detection(sku, b, cb)];
    var f3: Frame := [];
    var s1 := Store(1, [sku], map[sku := {a}], map[sku := 1], map[sku := [ca]]);
    var s2 := Store(2, [sku], map[sku := {a, b}], map[sku := 2], map[sku := [ca, cb]]);
    StepOne(Empty, f1[0]);
    FirstSighting(1, sku, a, ca);
    assert Step(Empty, f1) == s1;
    StepTwo(s1, f2[0], f2[1]);
    assert Observe(s1.(frameCount := 2), f2[0]) == s1.(frameCount := 2);
    SecondSighting(2, sku, a, ca, b, cb);
    assert Step(s1, f2) == s2;
    assert Step(s2, f3) == st;
    var frames := [f1, f2, f3];
    assert frames[..2] == [f1, f2] && [f1, f2][..1] == [f1] && [f1][..0] == [];
    assert RunFrames(Empty, [f1]) == s1;
    assert RunFrames(Empty, [f1, f2]) == s2;
  }

  lemma ThreeFrameRow(st: Store, sku: Sku, a: TrackId, b: TrackId, ca: real, cb: real, catalog: Catalog)
    requires a != b
    requires st == Store(3, [sku], map[sku := {a, b}], map[sku := 2], map[sku := [ca, cb]])
    requires Valid(st)
    ensures SkuRow(st, SkuCodeMode, catalog, sku) == Row(sku, 2, RoundHalfEven(Mean([ca, cb]) * 100.0), 67)
  {
    assert |Ids(st, sku)| == 2;
    assert Samples(st, sku) == [ca, cb];
    SkuRowPercents(st, SkuCodeMode, catalog, sku);
    RoundHalfEvenUnique(|Ids(st, sku)| as real / st.frameCount as real * 100.0, 67);
  }

  /** The confidence of the three-frame example with samples 0.9 and 0.7. */
  lemma ThreeFrameConfidence()
    ensures RoundHalfEven(Mean([0.9, 0.7]) * 100.0) == 80
  {
    MeanPair(0.9, 0.7);
    RoundHalfEvenUnique(80.0, 80);
  }

  /** Two skus with the same catalog label, one object each in a single
      frame, collapse into one row for that label: count 2, confidence the
      rounded mean of the two per-sku percentages, presence 100. */
  lemma GroupingSharedLabel(s1: Sku, s2: Sku, i1: TrackId, i2: TrackId, c1: real, c2: real,
                            mode: string, catalog: Catalog, lbl: string)
    requires s1 != s2 && mode in ValidLabelModes && mode != SkuCodeMode
    requires s1 in catalog && mode in catalog[s1] && catalog[s1][mode] == lbl
    requires s2 in catalog && mode in catalog[s2] && catalog[s2][mode] == lbl
    ensures var st := Step(Empty, [Detection(s1, i1, c1), Detection(s2, i2, c2)]);
            && Valid(st)
            && GetOutputStats(st, mode, catalog)
               == [Row(lbl, 2,
                       RoundHalfEven(Mean([RoundHalfEven(c1 * 100.0) as real, RoundHalfEven(c2 * 100.0) as real])),
                       100)]
  {
    var st := Step(Empty, [Detection(s1, i1, c1), Detection(s2, i2, c2)]);
    TwoSkuStore(s1, i1, c1, s2, i2, c2);
    SharedLabelReport(st, s1, s2, i1, i2, c1, c2, mode, catalog, lbl);
  }

  lemma SharedLabelReport(st: Store, s1: Sku, s2: Sku, i1: TrackId, i2: TrackId, c1: real, c2: real,
                          mode: string, catalog: Catalog, lbl: string)
    requires s1 != s2 && mode in ValidLabelModes && mode != SkuCodeMode
    requires s1 in catalog && mode in catalog[s1] && catalog[s1][mode] == lbl
    requires s2 in catalog && mode in catalog[s2] && catalog[s2][mode] == lbl
    requires Valid(st) && st.frameCount == 1 && st.skuOrder == [s1, s2]
    requires Ids(st, s1) == {i1} && Samples(st, s1) == [c1]
    requires Ids(st, s2) == {i2} && Samples(st, s2) == [c2]
    ensures GetOutputStats(st, mode, catalog)
            == [Row(lbl, 2,
                    RoundHalfEven(Mean([RoundHalfEven(c1 * 100.0) as real, RoundHalfEven(c2 * 100.0) as real])),
                    100)]
  {
    var r1 := Row(lbl, 1, RoundHalfEven(c1 * 100.0), 100);
    var r2 := Row(lbl, 1, RoundHalfEven(c2 * 100.0), 100);
    var rows := PerSkuRows(st, mode, catalog);
    assert rows == [r1, r2] by {
      SharedLabelRows(st, s1, s2, i1, i2, c1, c2, mode, catalog, lbl);
    }
    assert GetOutputStats(st, mode, catalog) == GroupRows(rows) by {
      GroupedReport(st, mode, catalog);
    }
    GroupPair(rows, lbl, 1, 1, RoundHalfEven(c1 * 100.0), RoundHalfEven(c2 * 100.0),
              Row(lbl, 2, RoundHalfEven(Mean([RoundHalfEven(c1 * 100.0) as real, RoundHalfEven(c2 * 100.0) as real])), 100));
  }

  /** Outside sku-code mode, a non-empty report is the grouped per-sku rows. */
  lemma GroupedReport(st: Store, mode: string, catalog: Catalog)
    requires Valid(st) && st.frameCount > 0 && mode in ValidLabelModes && mode != SkuCodeMode
    requires |PerSkuRows(st, mode, catalog)| > 0
    ensures GetOutputStats(st, mode, catalog) == GroupRows(PerSkuRows(st, mode, catalog))
  {
  }

  /** One frame holding one object each of two skus. */
  lemma TwoSkuStore(s1: Sku, i1: TrackId, c1: real, s2: Sku, i2: TrackId, c2: real)
    requires s1 != s2
    ensures var st := Step(Empty, [Detection(s1, i1, c1), Detection(s2, i2, c2)]);
            && Valid(st) && st.frameCount == 1 && st.skuOrder == [s1, s2]
            && Ids(st, s1) == {i1} && Samples(st, s1) == [c1]
            && Ids(st, s2) == {i2} && Samples(st, s2) == [c2]
  {
    var lit := Store(1, [s1, s2], map[s1 := {i1}, s2 := {i2}], map[s1 := 1, s2 := 1], map[s1 := [c1], s2 := [c2]]);
    assert Step(Empty, [Detection(s1, i1, c1), Detection(s2, i2, c2)]) == lit by {
      StepTwo(Empty, Detection(s1, i1, c1), Detection(s2, i2, c2));
      FirstSighting(1, s1, i1, c1);
      OtherSkuSighting(1, s1, i1, c1, s2, i2, c2);
    }
    TwoSkuValid(1, s1, i1, c1, s2, i2, c2);
    TwoSkuLookups(lit, s1, i1, c1, s2, i2, c2);
  }

  lemma TwoSkuLookups(st: Store, s1: Sku, i1: TrackId, c1: real, s2: Sku, i2: TrackId, c2: real)
    requires s1 != s2
    requires st == Store(1, [s1, s2], map[s1 := {i1}, s2 := {i2}], map[s1 := 1, s2 := 1], map[s1 := [c1], s2 := [c2]])
    ensures Ids(st, s1) == {i1} && Samples(st, s1) == [c1]
    ensures Ids(st, s2) == {i2} && Samples(st, s2) == [c2]
  {
  }

  lemma SharedLabelRows(st: Store, s1: Sku, s2: Sku, i1: TrackId, i2: TrackId, c1: real, c2: real,
                        mode: string, catalog: Catalog, lbl: string)
    requires s1 != s2 && mode in ValidLabelModes && mode != SkuCodeMode
    requires s1 in catalog && mode in catalog[s1] && catalog[s1][mode] == lbl
    requires s2 in catalog && mode in catalog[s2] && catalog[s2][mode] == lbl
    requires Valid(st) && st.frameCount == 1 && st.skuOrder == [s1, s2]
    requires Ids(st, s1) == {i1} && Samples(st, s1) == [c1]
    requires Ids(st, s2) == {i2} && Samples(st, s2) == [c2]
    ensures PerSkuRows(st, mode, catalog)
            == [Row(lbl, 1, RoundHalfEven(c1 * 100.0), 100), Row(lbl, 1, RoundHalfEven(c2 * 100.0), 100)]
  {
    assert PerSkuRows(st, mode, catalog) == [SkuRow(st, mode, catalog, s1), SkuRow(st, mode, catalog, s2)] by {
      ActiveTwo(st, s1, s2);
      RowsForTwo(st, mode, catalog, s1, s2);
    }
    SingleObjectRow(st, s1, i1, c1, mode, catalog);
    SingleObjectRow(st, s2, i2, c2, mode, catalog);
  }

  lemma RowsForTwo(st: Store, mode: string, catalog: Catalog, s1: Sku, s2: Sku)
    requires Valid(st) && st.frameCount > 0 && |Ids(st, s1)| > 0 && |Ids(st, s2)| > 0
    ensures RowsFor(st, mode, catalog, [s1, s2]) == [SkuRow(st, mode, catalog, s1), SkuRow(st, mode, catalog, s2)]
  {
  }

  lemma ActiveTwo(st: Store, s1: Sku, s2: Sku)
    requires |Ids(st, s1)| > 0 && |Ids(st, s2)| > 0
    ensures ActiveSkus(st, [s1, s2]) == [s1, s2]
  {
    assert [s1, s2][..1] == [s1] && [s1][..0] == [];
    assert ActiveSkus(st, [s1]) == [s1];
  }

  /** The row of a sku seen once in a one-frame store. */
  lemma SingleObjectRow(st: Store, s: Sku, i: TrackId, c: real, mode: string, catalog: Catalog)
    requires Valid(st) && st.frameCount == 1
    requires Ids(st, s) == {i} && Samples(st, s) == [c]
    ensures SkuRow(st, mode, catalog, s) == Row(ResolveLabel(mode, catalog, s), 1, RoundHalfEven(c * 100.0), 100)
  {
    SkuRowPercents(st, mode, catalog, s);
    MeanSingleton(c);
    RoundHalfEvenUnique(Mean(Samples(st, s)) * 100.0, RoundHalfEven(c * 100.0));
    RoundHalfEvenUnique(|Ids(st, s)| as real / st.frameCount as real * 100.0, 100);
  }

  /** Two rows with one label collapse into one: counts add, percentages
      are averaged and rounded; a presence of 100 for both stays 100. */
  lemma GroupPair(rows: seq<Row>, k: string, n1: nat, n2: nat, p1: int, p2: int, r: Row)
    requires rows == [Row(k, n1, p1, 100), Row(k, n2, p2, 100)]
    requires r == Row(k, n1 + n2, RoundHalfEven(Mean([p1 as real, p2 as real])), 100)
    ensures GroupRows(rows) == [r]
  {
    var r1 := Row(k, n1, p1, 100);
    var r2 := Row(k, n2, p2, 100);
    assert FirstKeys(rows) == [k] && RowsWithKey(rows, k) == rows by {
      PairKeys(r1, r2);
    }
    assert GroupRows(rows) == [Collapse(k, rows)] by {
      GroupRowsOneKey(rows, k);
    }
    CollapsePair(k, n1, n2, p1, p2);
  }

  lemma PairKeys(r1: Row, r2: Row)
    requires r1.key == r2.key
    ensures FirstKeys([r1, r2]) == [r1.key]
    ensures RowsWithKey([r1, r2], r1.key) == [r1, r2]
  {
    assert [r1, r2][..1] == [r1] && [r1][..0] == [];
    assert RowKeys([r1]) == [r1.key];
    assert FirstKeys([r1]) == [r1.key];
    assert RowsWithKey([r1], r1.key) == [r1];
  }

  lemma GroupRowsOneKey(rows: seq<Row>, k: string)
    requires FirstKeys(rows) == [k]
    ensures GroupRows(rows) == [Collapse(k, RowsWithKey(rows, k))]
  {
  }

  lemma CollapsePair(k: string, n1: nat, n2: nat, p1: int, p2: int)
    ensures Collapse(k, [Row(k, n1, p1, 100), Row(k, n2, p2, 100)])
            == Row(k, n1 + n2, RoundHalfEven(Mean([p1 as real, p2 as real])), 100)
  {
    var r1 := Row(k, n1, p1, 100);
    var r2 := Row(k, n2, p2, 100);
    assert [r1, r2][..1] == [r1] && [r1][..0] == [];
    assert TotalCount([r1]) == n1;
    assert TotalCount([r1, r2]) == n1 + n2;
    assert ConfidencePercents([r1, r2]) == [p1 as real, p2 as real];
    assert PresencePercents([r1, r2]) == [100.0, 100.0];
    MeanPair(100.0, 100.0);
    RoundHalfEvenUnique(100.0, 100);
  }

  /** The brand example: confidences 0.8 and 0.6 give 80% and 60% per sku
      and 70% for the group. */
  lemma GroupingConfidence()
    ensures RoundHalfEven(Mean([RoundHalfEven(0.8 * 100.0) as real, RoundHalfEven(0.6 * 100.0) as real])) == 70
  {
    RoundHalfEvenUnique(80.0, 80);
    RoundHalfEvenUnique(60.0, 60);
    MeanPair(80.0, 60.0);
    RoundHalfEvenUnique(70.0, 70);
  }

  /** A sku missing from the catalog is reported under its own code, in
      every label mode. */
  lemma MissingCatalogEntryFallsBack(sku: Sku, id: TrackId, c: real, mode: string, catalog: Catalog)
    requires sku !in catalog && mode in ValidLabelModes
    ensures var st := Step(Empty, [Detection(sku, id, c)]);
            Valid(st) && RowKeys(GetOutputStats(st, mode, catalog)) == [sku]
  {
    OneSkuStore(sku, id, c);
    MissingCatalogRows(Step(Empty, [Detection(sku, id, c)]), sku, mode, catalog);
  }

  /** One frame holding a single object. */
  lemma OneSkuStore(sku: Sku, id: TrackId, c: real)
    ensures var st := Step(Empty, [Detection(sku, id, c)]);
            && Valid(st) && st.frameCount == 1 && st.skuOrder == [sku]
            && Ids(st, sku) == {id} && Samples(st, sku) == [c]
  {
    var lit := Store(1, [sku], map[sku := {id}], map[sku := 1], map[sku := [c]]);
    assert Step(Empty, [Detection(sku, id, c)]) == lit by {
      StepOne(Empty, Detection(sku, id, c));
      FirstSighting(1, sku, id, c);
    }
    OneSkuValid(1, sku, {id}, [c]);
  }

  lemma MissingCatalogRows(st: Store, sku: Sku, mode: string, catalog: Catalog)
    requires sku !in catalog && mode in ValidLabelModes
    requires st.skuOrder == [sku] && st.frameCount > 0 && |Ids(st, sku)| > 0
    requires Valid(st)
    ensures RowKeys(GetOutputStats(st, mode, catalog)) == [sku]
  {
    MissingCatalogKeys(st, sku, mode, catalog);
    ReportOfDistinctLabels(st, mode, catalog);
  }

  lemma MissingCatalogKeys(st: Store, sku: Sku, mode: string, catalog: Catalog)
    requires sku !in catalog
    requires st.skuOrder == [sku] && st.frameCount > 0 && |Ids(st, sku)| > 0
    requires Valid(st)
    ensures RowKeys(PerSkuRows(st, mode, catalog)) == [sku]
  {
    SingleSkuRows(st, mode, catalog, sku);
  }

  /** Presence is unique objects per frame, not the share of frames a sku
      appears in: two objects of one sku in a single frame give 200%. */
  lemma PresenceCanExceedHundred(sku: Sku, a: TrackId, b: TrackId, ca: real, cb: real)
    requires a != b
    ensures var st := Step(Empty, [Detection(sku, a, ca), Detection(sku, b, cb)]);
            && Valid(st)
            && |GetOutputStats(st, SkuCodeMode, map[])| == 1
            && GetOutputStats(st, SkuCodeMode, map[])[0].presencePct == 200
  {
    TwoObjectStore(sku, a, b, ca, cb);
    TwoObjectReport(Step(Empty, [Detection(sku, a, ca), Detection(sku, b, cb)]), sku);
  }

  /** One frame holding two objects of one sku. */
  lemma TwoObjectStore(sku: Sku, a: TrackId, b: TrackId, ca: real, cb: real)
    requires a != b
    ensures var st := Step(Empty, [Detection(sku, a, ca), Detection(sku, b, cb)]);
            && Valid(st) && st.frameCount == 1 && st.skuOrder == [sku] && |Ids(st, sku)| == 2
  {
    var lit := Store(1, [sku], map[sku := {a, b}], map[sku := 2], map[sku := [ca, cb]]);
    assert Step(Empty, [Detection(sku, a, ca), Detection(sku, b, cb)]) == lit by {
      StepTwo(Empty, Detection(sku, a, ca), Detection(sku, b, cb));
      FirstSighting(1, sku, a, ca);
      SecondSighting(1, sku, a, ca, b, cb);
    }
    assert |{a, b}| == 2;
    OneSkuValid(1, sku, {a, b}, [ca, cb]);
  }

  lemma TwoObjectReport(st: Store, sku: Sku)
    requires Valid(st) && st.frameCount == 1 && st.skuOrder == [sku] && |Ids(st, sku)| == 2
    ensures |GetOutputStats(st, SkuCodeMode, map[])| == 1
    ensures GetOutputStats(st, SkuCodeMode, map[])[0].presencePct == 200
  {
    SingleSkuReport(st, map[], sku);
    TwoObjectPresence(st, sku);
  }

  lemma TwoObjectPresence(st: Store, sku: Sku)
    requires Valid(st) && st.frameCount == 1 && |Ids(st, sku)| == 2
    ensures SkuRow(st, SkuCodeMode, map[], sku).presencePct == 200
  {
    SkuRowPercents(st, SkuCodeMode, map[], sku);
    var x := |Ids(st, sku)| as real / st.frameCount as real * 100.0;
    assert x == 200.0 by {
      assert st.frameCount as real == 1.0 && |Ids(st, sku)| as real == 2.0;
    }
    RoundHalfEvenUnique(x, 200);
  }
}
