/** The aggregation store of the inventory tracker and its per-frame
    bookkeeping: de-duplication of detections by (sku, tracker id), the frame
    counter, and the live summary. The detector and tracker are replaced by
    the list of detection events each frame yields. */
module Stats {
  import opened Order

  type Sku = string
  type TrackId = int

  /** One tracked object seen in one frame. */
  datatype Detection = Detection(sku: Sku, trackId: TrackId, confidence: real)

  /** The detections the tracker reports for one frame, in its order. */
  type Frame = seq<Detection>

  /** The four statistics fields of the tracker. `skuOrder` lists the keys of
      the three per-sku dictionaries in insertion order, which is the order
      in which Python iterates them; all three dictionaries gain a key in the
      same iteration, so they share that order. */
  datatype Store = Store(
    frameCount: nat,
    skuOrder: seq<Sku>,
    trackedIds: map<Sku, set<TrackId>>,
    appearances: map<Sku, nat>,
    confidence: map<Sku, seq<real>>)

  /** The store right after `reset_output_stats`. */
  const Empty: Store := Store(0, [], map[], map[], map[])

  /** Lookups with the `defaultdict` defaults: a sku never seen has no ids,
      no appearances and no samples. */
  function Ids(st: Store, s: Sku): set<TrackId>
  {
    if s in st.trackedIds then st.trackedIds[s] else {}
  }

  function Appearances(st: Store, s: Sku): nat
  {
    if s in st.appearances then st.appearances[s] else 0
  }

  function Samples(st: Store, s: Sku): seq<real>
  {
    if s in st.confidence then st.confidence[s] else []
  }

  /** The store invariant: the three dictionaries have the same keys, which
      `skuOrder` lists once each, and they grow in lockstep. */
  ghost predicate Valid(st: Store)
  {
    && st.appearances.Keys == st.trackedIds.Keys
    && st.confidence.Keys == st.trackedIds.Keys
    && (forall s :: s in st.skuOrder <==> s in st.trackedIds)
    && Distinct(st.skuOrder)
    && (forall s :: s in st.trackedIds ==>
          st.appearances[s] == |st.trackedIds[s]| && |st.confidence[s]| == |st.trackedIds[s]|)
  }

  /** The invariant read with the default lookups: for every sku whatsoever,
      its appearance count, the size of its id set and the number of its
      confidence samples agree. */
  lemma ValidLockstep(st: Store)
    requires Valid(st)
    ensures forall s :: Appearances(st, s) == |Ids(st, s)| && |Samples(st, s)| == |Ids(st, s)|
  {
  }

  lemma EmptyValid()
    ensures Valid(Empty)
  {
  }

  /** The de-duplication rule for one detection: a tracker id already on
      record for the sku changes nothing; a new one is added to the sku's id
      set, counted once, and its confidence appended as a sample. */
  function Observe(st: Store, d: Detection): (r: Store)
    ensures r.frameCount == st.frameCount
    ensures d.trackId in Ids(st, d.sku) ==> r == st
    ensures d.trackId !in Ids(st, d.sku) ==>
              && Ids(r, d.sku) == Ids(st, d.sku) + {d.trackId}
              && Appearances(r, d.sku) == Appearances(st, d.sku) + 1
              && Samples(r, d.sku) == Samples(st, d.sku) + [d.confidence]
    ensures forall s :: s != d.sku ==>
              && Ids(r, s) == Ids(st, s)
              && Appearances(r, s) == Appearances(st, s)
              && Samples(r, s) == Samples(st, s)
  {
    if d.trackId in Ids(st, d.sku) then st
    else
      Store(
        st.frameCount,
        if d.sku in st.trackedIds then st.skuOrder else st.skuOrder + [d.sku],
        st.trackedIds[d.sku := Ids(st, d.sku) + {d.trackId}],
        st.appearances[d.sku := Appearances(st, d.sku) + 1],
        st.confidence[d.sku := Samples(st, d.sku) + [d.confidence]])
  }

  /** The tracker ids a frame reports for one sku. */
  function IdsOf(frame: Frame, s: Sku): set<TrackId>
    decreases |frame|
  {
    if |frame| == 0 then {}
    else (if frame[0].sku == s then {frame[0].trackId} else {}) + IdsOf(frame[1..], s)
  }

  lemma {:induction false} IdsOfMembers(frame: Frame, s: Sku, id: TrackId)
    ensures id in IdsOf(frame, s) <==>
              exists i :: 0 <= i < |frame| && frame[i].sku == s && frame[i].trackId == id
    decreases |frame|
  {
    if |frame| > 0 {
      IdsOfMembers(frame[1..], s, id);
      if id in IdsOf(frame[1..], s) {
        var i :| 0 <= i < |frame[1..]| && frame[1..][i].sku == s && frame[1..][i].trackId == id;
        assert frame[i + 1] == frame[1..][i];
      }
      if exists i :: 0 <= i < |frame| && frame[i].sku == s && frame[i].trackId == id {
        var i :| 0 <= i < |frame| && frame[i].sku == s && frame[i].trackId == id;
        if i > 0 {
          assert frame[1..][i - 1] == frame[i];
        }
      }
    }
  }

  /** The de-duplication rule keeps the store invariant, and a sku joins
      the key order, at its end, exactly when it is detected for the first
      time. */
  lemma ObservePreservesValid(st: Store, d: Detection)
    requires Valid(st)
    ensures Valid(Observe(st, d))
    ensures d.sku !in st.skuOrder ==> Observe(st, d).skuOrder == st.skuOrder + [d.sku]
    ensures d.sku in st.skuOrder ==> Observe(st, d).skuOrder == st.skuOrder
  {
    if d.trackId !in Ids(st, d.sku) {
      if d.sku in st.trackedIds {
        ObserveKnownSkuValid(st, d);
      } else {
        ObserveNewSkuValid(st, d);
      }
    }
  }

  lemma ObserveKnownSkuValid(st: Store, d: Detection)
    requires Valid(st) && d.sku in st.trackedIds && d.trackId !in st.trackedIds[d.sku]
    ensures Valid(Observe(st, d))
  {
    var r := Observe(st, d);
    assert r.skuOrder == st.skuOrder;
    assert r.trackedIds.Keys == st.trackedIds.Keys;
  }

  lemma ObserveNewSkuValid(st: Store, d: Detection)
    requires Valid(st) && d.sku !in st.trackedIds
    ensures Valid(Observe(st, d))
  {
    var r := Observe(st, d);
    assert r.skuOrder == st.skuOrder + [d.sku];
    assert r.trackedIds.Keys == st.trackedIds.Keys + {d.sku};
    assert d.sku !in st.skuOrder;
  }

  /** Apply the de-duplication rule to each detection of a frame in turn. */
  function ObserveAll(st: Store, frame: Frame): (r: Store)
    ensures r.frameCount == st.frameCount
    decreases |frame|
  {
    if |frame| == 0 then st else ObserveAll(Observe(st, frame[0]), frame[1..])
  }

  lemma {:induction false} ObserveAllIds(st: Store, frame: Frame)
    ensures forall s :: Ids(ObserveAll(st, frame), s) == Ids(st, s) + IdsOf(frame, s)
    decreases |frame|
  {
    if |frame| > 0 {
      ObserveAllIds(Observe(st, frame[0]), frame[1..]);
    }
  }

  lemma {:induction false} ObserveAllPreservesValid(st: Store, frame: Frame)
    requires Valid(st)
    ensures Valid(ObserveAll(st, frame))
    decreases |frame|
  {
    if |frame| > 0 {
      ObservePreservesValid(st, frame[0]);
      ObserveAllPreservesValid(Observe(st, frame[0]), frame[1..]);
    }
  }

  /** The per-frame bookkeeping of `track_picture_stream`: count the frame,
      then de-duplicate its detections. The counter moves by exactly one
      whether or not the frame has detections. */
  function Step(st: Store, frame: Frame): (r: Store)
    ensures r.frameCount == st.frameCount + 1
  {
    ObserveAll(st.(frameCount := st.frameCount + 1), frame)
  }

  /** A frame adds to each sku's id set exactly the ids it reports for it. */
  lemma StepIds(st: Store, frame: Frame)
    ensures forall s :: Ids(Step(st, frame), s) == Ids(st, s) + IdsOf(frame, s)
  {
    ObserveAllIds(st.(frameCount := st.frameCount + 1), frame);
  }

  /** A frame keeps the store invariant. */
  lemma StepPreservesValid(st: Store, frame: Frame)
    requires Valid(st)
    ensures Valid(Step(st, frame))
  {
    ObserveAllPreservesValid(st.(frameCount := st.frameCount + 1), frame);
  }

  /** The live summary: every sku with a non-empty id set, mapped to the
      size of that set. */
  function LiveSummary(st: Store): (m: map<Sku, nat>)
    ensures forall s :: s in m <==> |Ids(st, s)| > 0
    ensures forall s :: s in m ==> m[s] == |Ids(st, s)|
    ensures Valid(st) ==> forall s :: s in m ==> m[s] == Appearances(st, s)
  {
    map s | s in st.trackedIds && |st.trackedIds[s]| > 0 :: |st.trackedIds[s]|
  }

  /** Steps the store once per frame, in order. */
  function RunFrames(st: Store, frames: seq<Frame>): Store
    decreases |frames|
  {
    if |frames| == 0 then st
    else Step(RunFrames(st, frames[..|frames| - 1]), frames[|frames| - 1])
  }

  /** Every tracker id reported for a sku in any of the frames. */
  function AllIds(frames: seq<Frame>, s: Sku): set<TrackId>
    decreases |frames|
  {
    if |frames| == 0 then {}
    else AllIds(frames[..|frames| - 1], s) + IdsOf(frames[|frames| - 1], s)
  }

  /** Each frame counts once, with or without detections. */
  lemma {:induction false} RunFramesCount(st: Store, frames: seq<Frame>)
    ensures RunFrames(st, frames).frameCount == st.frameCount + |frames|
    decreases |frames|
  {
    if |frames| > 0 {
      RunFramesCount(st, frames[..|frames| - 1]);
    }
  }

  /** Any number of frames preserves the store invariant. */
  lemma {:induction false} RunFramesValid(st: Store, frames: seq<Frame>)
    requires Valid(st)
    ensures Valid(RunFrames(st, frames))
    decreases |frames|
  {
    if |frames| > 0 {
      RunFramesValid(st, frames[..|frames| - 1]);
      StepPreservesValid(RunFrames(st, frames[..|frames| - 1]), frames[|frames| - 1]);
    }
  }

  /** The id sets only grow, and by exactly the ids the frames report. */
  lemma {:induction false} RunFramesIds(st: Store, frames: seq<Frame>)
    ensures forall s :: Ids(RunFrames(st, frames), s) == Ids(st, s) + AllIds(frames, s)
    decreases |frames|
  {
    if |frames| > 0 {
      RunFramesIds(st, frames[..|frames| - 1]);
      StepIds(RunFrames(st, frames[..|frames| - 1]), frames[|frames| - 1]);
    }
  }

  /** No sku is on record without a tracker id: a key only ever arrives
      together with the id that caused it. */
  ghost predicate NoEmptyIds(st: Store)
  {
    forall s :: s in st.trackedIds ==> |st.trackedIds[s]| > 0
  }

  lemma {:induction false} ObserveAllNoEmptyIds(st: Store, frame: Frame)
    requires NoEmptyIds(st)
    ensures NoEmptyIds(ObserveAll(st, frame))
    decreases |frame|
  {
    if |frame| > 0 {
      var next := Observe(st, frame[0]);
      assert NoEmptyIds(next);
      ObserveAllNoEmptyIds(next, frame[1..]);
    }
  }

  /** From a fresh store, every sku on record has at least one tracker id. */
  lemma {:induction false} RunFramesNoEmptyIds(frames: seq<Frame>)
    ensures NoEmptyIds(RunFrames(Empty, frames))
    decreases |frames|
  {
    if |frames| > 0 {
      var r := RunFrames(Empty, frames[..|frames| - 1]);
      RunFramesNoEmptyIds(frames[..|frames| - 1]);
      ObserveAllNoEmptyIds(r.(frameCount := r.frameCount + 1), frames[|frames| - 1]);
    }
  }

  /* ---------------------------------------------------------------------- */
  /* First-detection order                                                   */
  /* ---------------------------------------------------------------------- */

  /** The sku of each detection, in order. */
  function SkusOf(ds: seq<Detection>): (ss: seq<Sku>)
    ensures |ss| == |ds|
    ensures forall i :: 0 <= i < |ds| ==> ss[i] == ds[i].sku
  {
    seq(|ds|, i requires 0 <= i < |ds| => ds[i].sku)
  }

  /** Every detection of a stream, frame after frame. */
  function Detections(frames: seq<Frame>): seq<Detection>
    decreases |frames|
  {
    if |frames| == 0 then [] else Detections(frames[..|frames| - 1]) + frames[|frames| - 1]
  }

  /** Where sku s is detected for the first time. */
  function FirstIndex(ds: seq<Detection>, s: Sku): (k: nat)
    requires s in SkusOf(ds)
    ensures k < |ds| && ds[k].sku == s
    ensures forall j :: 0 <= j < k ==> ds[j].sku != s
    decreases |ds|
  {
    var init := ds[..|ds| - 1];
    assert SkusOf(ds) == SkusOf(init) + [ds[|ds| - 1].sku];
    if s in SkusOf(init) then FirstIndex(init, s) else |ds| - 1
  }

  /** The distinct skus of the detections, each listed once. */
  function FirstSkus(ds: seq<Detection>): (fs: seq<Sku>)
    ensures Distinct(fs)
    ensures forall s :: s in fs <==> s in SkusOf(ds)
    decreases |ds|
  {
    if |ds| == 0 then []
    else
      var init := FirstSkus(ds[..|ds| - 1]);
      var s := ds[|ds| - 1].sku;
      assert SkusOf(ds) == SkusOf(ds[..|ds| - 1]) + [s];
      if s in init then init else init + [s]
  }

  /** FirstSkus lists the skus in order of their first detection. */
  lemma {:induction false} FirstSkusOrdered(ds: seq<Detection>)
    ensures forall i, j :: 0 <= i < j < |FirstSkus(ds)| ==>
              FirstIndex(ds, FirstSkus(ds)[i]) < FirstIndex(ds, FirstSkus(ds)[j])
    decreases |ds|
  {
    if |ds| > 0 {
      var init := ds[..|ds| - 1];
      var fi := FirstSkus(init);
      var fs := FirstSkus(ds);
      FirstSkusOrdered(init);
      assert SkusOf(ds) == SkusOf(init) + [ds[|ds| - 1].sku];
      forall i, j | 0 <= i < j < |fs|
        ensures FirstIndex(ds, fs[i]) < FirstIndex(ds, fs[j])
      {
        assert fs[i] == fi[i] && fs[i] in SkusOf(init);
        if j < |fi| {
          assert fs[j] == fi[j] && fs[j] in SkusOf(init);
        } else {
          assert fs[j] !in SkusOf(init);
        }
      }
    }
  }

  /** Appending a detection adds its sku at the end exactly when it is new. */
  lemma FirstSkusSnoc(seen: seq<Detection>, d: Detection)
    ensures FirstSkus(seen + [d]) == if d.sku in FirstSkus(seen) then FirstSkus(seen) else FirstSkus(seen) + [d.sku]
  {
    assert (seen + [d])[..|seen|] == seen;
  }

  lemma ObserveOrderStep(st: Store, seen: seq<Detection>, d: Detection)
    requires Valid(st) && st.skuOrder == FirstSkus(seen)
    ensures Valid(Observe(st, d)) && Observe(st, d).skuOrder == FirstSkus(seen + [d])
  {
    ObservePreservesValid(st, d);
    FirstSkusSnoc(seen, d);
  }

  lemma ShiftFirst(seen: seq<Detection>, frame: Frame)
    requires |frame| > 0
    ensures (seen + [frame[0]]) + frame[1..] == seen + frame
  {
    assert frame == [frame[0]] + frame[1..];
  }

  /** Observing detections one by one extends the key order just as the
      first-detection order grows when they are appended to those seen so
      far. */
  lemma {:induction false} ObserveAllOrder(st: Store, seen: seq<Detection>, frame: Frame)
    requires Valid(st) && st.skuOrder == FirstSkus(seen)
    ensures ObserveAll(st, frame).skuOrder == FirstSkus(seen + frame)
    decreases |frame|
  {
    if |frame| == 0 {
      assert seen + frame == seen;
    } else {
      var d := frame[0];
      var next := Observe(st, d);
      ObserveOrderStep(st, seen, d);
      ObserveAllOrder(next, seen + [d], frame[1..]);
      ShiftFirst(seen, frame);
      assert ObserveAll(st, frame) == ObserveAll(next, frame[1..]);
    }
  }

  /** From a fresh store, the key order, and with it the order in which
      Python iterates the three dictionaries, is the order in which the skus
      were first detected in the stream. */
  lemma {:induction false} RunFramesOrder(frames: seq<Frame>)
    ensures RunFrames(Empty, frames).skuOrder == FirstSkus(Detections(frames))
    decreases |frames|
  {
    if |frames| > 0 {
      var init := frames[..|frames| - 1];
      var last := frames[|frames| - 1];
      var r := RunFrames(Empty, init);
      var counted := r.(frameCount := r.frameCount + 1);
      assert Valid(counted) && counted.skuOrder == FirstSkus(Detections(init)) by {
        RunFramesOrder(init);
        EmptyValid();
        RunFramesValid(Empty, init);
      }
      ObserveAllOrder(counted, Detections(init), last);
      assert RunFrames(Empty, frames) == ObserveAll(counted, last);
    }
  }

  /** From a fresh store, a sku's appearance count is the number of DISTINCT
      tracker ids reported for it: a (sku, id) pair seen in any number of
      frames, any number of times, contributes exactly one. */
  lemma DistinctIdsCounted(frames: seq<Frame>, s: Sku)
    ensures Appearances(RunFrames(Empty, frames), s) == |AllIds(frames, s)|
    ensures |Ids(RunFrames(Empty, frames), s)| == |AllIds(frames, s)|
  {
    RunFramesValid(Empty, frames);
    RunFramesIds(Empty, frames);
    ValidLockstep(RunFrames(Empty, frames));
  }

  /** A frame made only of repeat sightings leaves everything but the frame
      counter unchanged. */
  lemma {:induction false} RepeatSightingsOnlyCountTheFrame(st: Store, frame: Frame)
    requires forall i :: 0 <= i < |frame| ==> frame[i].trackId in Ids(st, frame[i].sku)
    ensures Step(st, frame) == st.(frameCount := st.frameCount + 1)
  {
    RepeatSightingsChangeNothing(st.(frameCount := st.frameCount + 1), frame);
  }

  lemma {:induction false} RepeatSightingsChangeNothing(st: Store, frame: Frame)
    requires forall i :: 0 <= i < |frame| ==> frame[i].trackId in Ids(st, frame[i].sku)
    ensures ObserveAll(st, frame) == st
    decreases |frame|
  {
    if |frame| > 0 {
      assert Observe(st, frame[0]) == st;
      assert forall i :: 0 <= i < |frame[1..]| ==> frame[1..][i] == frame[i + 1];
      RepeatSightingsChangeNothing(st, frame[1..]);
    }
  }

  /** Seeing a (sku, id) pair a second time, with any confidence, is a no-op. */
  lemma ObserveIdempotent(st: Store, d: Detection, c: real)
    ensures Observe(Observe(st, d), Detection(d.sku, d.trackId, c)) == Observe(st, d)
  {
  }

  /** Every recorded confidence sample lies in [0, 1]. */
  ghost predicate ConfidencesInUnit(st: Store)
  {
    forall s, j :: s in st.confidence && 0 <= j < |st.confidence[s]| ==> 0.0 <= st.confidence[s][j] <= 1.0
  }

  ghost predicate FrameInUnit(frame: Frame)
  {
    forall i :: 0 <= i < |frame| ==> 0.0 <= frame[i].confidence <= 1.0
  }

  /** Samples are only ever copied from detections, so a frame whose
      confidences lie in [0, 1] keeps all samples in [0, 1]. */
  lemma {:induction false} StepKeepsUnit(st: Store, frame: Frame)
    requires ConfidencesInUnit(st) && FrameInUnit(frame)
    ensures ConfidencesInUnit(Step(st, frame))
  {
    ObserveAllKeepsUnit(st.(frameCount := st.frameCount + 1), frame);
  }

  lemma {:induction false} ObserveAllKeepsUnit(st: Store, frame: Frame)
    requires ConfidencesInUnit(st) && FrameInUnit(frame)
    ensures ConfidencesInUnit(ObserveAll(st, frame))
    decreases |frame|
  {
    if |frame| > 0 {
      var d := frame[0];
      var st' := Observe(st, d);
      if d.trackId !in Ids(st, d.sku) {
        forall s, j | s in st'.confidence && 0 <= j < |st'.confidence[s]|
          ensures 0.0 <= st'.confidence[s][j] <= 1.0
        {
          if s == d.sku && j == |Samples(st, d.sku)| {
            assert st'.confidence[s][j] == d.confidence;
          }
        }
      }
      assert FrameInUnit(frame[1..]) by {
        assert forall i :: 0 <= i < |frame[1..]| ==> frame[1..][i] == frame[i + 1];
      }
      ObserveAllKeepsUnit(st', frame[1..]);
    }
  }

  /** Every confidence of a stream lies in [0, 1]. */
  ghost predicate StreamInUnit(frames: seq<Frame>)
  {
    forall k :: 0 <= k < |frames| ==> FrameInUnit(frames[k])
  }

  /** A stream whose confidences lie in [0, 1] keeps every stored sample in
      [0, 1], however many frames it has. */
  lemma {:induction false} RunFramesKeepsUnit(st: Store, frames: seq<Frame>)
    requires ConfidencesInUnit(st) && StreamInUnit(frames)
    ensures ConfidencesInUnit(RunFrames(st, frames))
    decreases |frames|
  {
    if |frames| > 0 {
      var init := frames[..|frames| - 1];
      assert StreamInUnit(init) by {
        assert forall k :: 0 <= k < |init| ==> init[k] == frames[k];
      }
      RunFramesKeepsUnit(st, init);
      StepKeepsUnit(RunFrames(st, init), frames[|frames| - 1]);
    }
  }
}
