/** The `InventoryTracker` object with its detector replaced by per-frame
    detection lists: label-mode validation at construction, resetting the
    statistics, the per-frame step with its live summary, the stream driver,
    and the summary report under the tracker's own label mode. */
module InventoryTracker {
  import opened Stats
  import Order
  import Report

  /** The mode an unrecognised request falls back to. */
  const FallbackLabelMode: string := "item_name"

  datatype Tracker = Tracker(labelMode: string, stats: Store)

  /** Label-mode validation in the constructor: a recognised mode is kept as
      given, anything else falls back to "item_name" (with a warning, which
      is not modelled) instead of being rejected. */
  function InitLabelMode(requested: string): (mode: string)
    ensures mode in Report.ValidLabelModes
    ensures requested in Report.ValidLabelModes ==> mode == requested
    ensures requested !in Report.ValidLabelModes ==> mode == FallbackLabelMode
  {
    if requested in Report.ValidLabelModes then requested else FallbackLabelMode
  }

  /** The constructor: a validated label mode and empty statistics. */
  function New(requestedMode: string): (t: Tracker)
    ensures t.labelMode in Report.ValidLabelModes
    ensures requestedMode in Report.ValidLabelModes ==> t.labelMode == requestedMode
    ensures t.stats.frameCount == 0
    ensures forall s :: Ids(t.stats, s) == {} && Appearances(t.stats, s) == 0 && Samples(t.stats, s) == []
    ensures Valid(t.stats)
  {
    Tracker(InitLabelMode(requestedMode), Empty)
  }

  /** `reset_output_stats`: whatever the prior statistics, the frame counter
      is zero and no sku has ids, appearances or samples; the label mode is
      untouched. */
  function ResetOutputStats(t: Tracker): (r: Tracker)
    ensures r.labelMode == t.labelMode
    ensures r.stats.frameCount == 0
    ensures forall s :: Ids(r.stats, s) == {} && Appearances(r.stats, s) == 0 && Samples(r.stats, s) == []
    ensures r.stats.skuOrder == []
    ensures Valid(r.stats)
  {
    t.(stats := Empty)
  }

  /** The bookkeeping of `track_picture_stream` for one frame: the frame is
      counted, the ids the frame reports join their skus' id sets, and the
      returned live summary maps each sku with tracked objects to how many. */
  function TrackPicture(t: Tracker, frame: Frame): (res: (Tracker, map<Sku, nat>))
    ensures res.0.labelMode == t.labelMode
    ensures res.0.stats == Step(t.stats, frame) && res.1 == LiveSummary(res.0.stats)
    ensures res.0.stats.frameCount == t.stats.frameCount + 1
    ensures forall s :: Ids(res.0.stats, s) == Ids(t.stats, s) + IdsOf(frame, s)
    ensures forall s :: s in res.1 <==> |Ids(res.0.stats, s)| > 0
    ensures forall s :: s in res.1 ==> res.1[s] == |Ids(res.0.stats, s)|
  {
    StepIds(t.stats, frame);
    var stats := Step(t.stats, frame);
    (t.(stats := stats), LiveSummary(stats))
  }

  /** The live summaries a stream yields from a fresh store, one per frame. */
  function StreamSummaries(frames: seq<Frame>): (sums: seq<map<Sku, nat>>)
    ensures |sums| == |frames|
    decreases |frames|
  {
    if |frames| == 0 then []
    else StreamSummaries(frames[..|frames| - 1]) + [LiveSummary(RunFrames(Empty, frames))]
  }

  /** The i-th yielded summary is the live summary after the first i+1 frames. */
  lemma {:induction false} StreamSummariesAt(frames: seq<Frame>, i: nat)
    requires i < |frames|
    ensures StreamSummaries(frames)[i] == LiveSummary(RunFrames(Empty, frames[..i + 1]))
    decreases |frames|
  {
    var init := frames[..|frames| - 1];
    var sums := StreamSummaries(frames);
    assert sums == StreamSummaries(init) + [LiveSummary(RunFrames(Empty, frames))];
    if i == |frames| - 1 {
      assert frames[..i + 1] == frames;
    } else {
      assert sums[i] == StreamSummaries(init)[i];
      StreamSummariesAt(init, i);
      PrefixOfInit(frames, i);
    }
  }

  lemma PrefixOfInit(frames: seq<Frame>, i: nat)
    requires i + 1 < |frames|
    ensures frames[..|frames| - 1][..i + 1] == frames[..i + 1]
  {
  }

  /** `track_video_stream`: reset, then one step per frame, yielding the live
      summary after each. The lazily yielded pairs become the returned list
      of summaries; the annotated frames are not modelled. */
  method TrackVideoStream(t: Tracker, frames: seq<Frame>) returns (final: Tracker, summaries: seq<map<Sku, nat>>)
    ensures final.labelMode == t.labelMode
    ensures final.stats == RunFrames(Empty, frames)
    ensures final.stats.frameCount == |frames|
    ensures Valid(final.stats)
    ensures summaries == StreamSummaries(frames)
  {
    final := ResetOutputStats(t);
    summaries := [];
    var k := 0;
    while k < |frames|
      invariant 0 <= k <= |frames|
      invariant final.labelMode == t.labelMode
      invariant final.stats == RunFrames(Empty, frames[..k])
      invariant summaries == StreamSummaries(frames[..k])
    {
      RunFramesPrefix(frames, k);
      var step := TrackPicture(final, frames[k]);
      final := step.0;
      summaries := summaries + [step.1];
      k := k + 1;
    }
    assert frames[..k] == frames;
    RunFramesCount(Empty, frames);
    EmptyValid();
    RunFramesValid(Empty, frames);
  }

  lemma RunFramesPrefix(frames: seq<Frame>, k: nat)
    requires k < |frames|
    ensures RunFrames(Empty, frames[..k + 1]) == Step(RunFrames(Empty, frames[..k]), frames[k])
    ensures StreamSummaries(frames[..k + 1]) == StreamSummaries(frames[..k]) + [LiveSummary(RunFrames(Empty, frames[..k + 1]))]
  {
    assert frames[..k + 1][..k] == frames[..k];
  }

  /** After a stream, the tracker has counted exactly the stream's frames,
      and each sku's count is the number of distinct tracker ids reported for
      it anywhere in the stream. */
  lemma StreamCounts(t: Tracker, frames: seq<Frame>, s: Sku)
    ensures RunFrames(ResetOutputStats(t).stats, frames).frameCount == |frames|
    ensures Appearances(RunFrames(ResetOutputStats(t).stats, frames), s) == |AllIds(frames, s)|
  {
    RunFramesCount(Empty, frames);
    DistinctIdsCounted(frames, s);
  }

  /** After a stream, the sku-code report lists the skus in the order in
      which they were first detected. */
  lemma StreamReportOrder(frames: seq<Frame>, catalog: Report.Catalog)
    ensures Valid(RunFrames(Empty, frames))
    ensures Report.RowKeys(Report.GetOutputStats(RunFrames(Empty, frames), Report.SkuCodeMode, catalog))
            == FirstSkus(Detections(frames))
  {
    var st := RunFrames(Empty, frames);
    EmptyValid();
    RunFramesValid(Empty, frames);
    RunFramesCount(Empty, frames);
    if |frames| == 0 {
      assert Detections(frames) == [];
    } else {
      RunFramesNoEmptyIds(frames);
      RunFramesOrder(frames);
      Report.ReportBySkuOrder(st, catalog);
    }
  }

  /** After a stream whose confidences lie in [0, 1], every row of the report
      has a confidence between 0 and 100 percent and a presence that is not
      negative, in every recognised label mode. */
  lemma StreamPercentBounds(frames: seq<Frame>, mode: string, catalog: Report.Catalog)
    requires mode in Report.ValidLabelModes && StreamInUnit(frames)
    ensures Valid(RunFrames(Empty, frames))
    ensures Report.PercentsInRange(Report.GetOutputStats(RunFrames(Empty, frames), mode, catalog))
  {
    EmptyValid();
    RunFramesValid(Empty, frames);
    RunFramesKeepsUnit(Empty, frames);
    Report.ReportPercentBounds(RunFrames(Empty, frames), mode, catalog);
  }

  /** `get_output_stats` under the tracker's current label mode. */
  function GetOutputStats(t: Tracker, catalog: Report.Catalog): (rows: seq<Report.Row>)
    requires Valid(t.stats) && t.labelMode in Report.ValidLabelModes
    ensures t.stats.frameCount == 0 ==> rows == []
    ensures Order.Distinct(Report.RowKeys(rows))
    ensures t.labelMode != Report.SkuCodeMode ==> Order.Sorted(Report.RowKeys(rows))
  {
    Report.GetOutputStats(t.stats, t.labelMode, catalog)
  }
}
