# InventoryTracker aggregation core in Dafny

A model of the stateful aggregation engine of `InventoryTracker`. The engine turns a stream of per-frame
detections into inventory counts. Each detection carries a sku code, a
transient tracker id and a confidence. The engine:

- counts frames;
- de-duplicates detections by the pair (sku, tracker id);
- keeps, for each sku, the set of tracker ids seen, an appearance counter and the confidence of each first sighting;
- answers a live summary after every frame;
- produces a summary report labelled by a configurable *label mode*. The mode is the sku code itself, or a catalog attribute: item name, brand, sub-category or category. Under a catalog attribute, skus that share a label are collapsed into one row.

The object detector, the tracker and the frame annotators are outside the
model. Each frame becomes the list of detections the tracker reported for it.

Modules:

- `Numeric` (`numeric.dfy`): sums, means, and Python's `round`. `round` is
  round-half-to-even on exact reals; the model proves that result unique and bounded.
- `Order` (`order.dfy`): Python's ordering of strings, the sorting of
  labels that pandas applies to grouped rows, and the "no repeats" predicate
  the other modules share.
- `Stats` (`stats.dfy`): the statistics store.
  - The three `defaultdict`s and their shared insertion order.
  - The invariant every reachable store keeps.
  - The de-duplication rule, the frame step and the live summary.
- `Report` (`report.dfy`): `get_output_stats`. This covers label resolution, the
  per-sku rows, the grouping by label and the report as a whole.
- `InventoryTracker` (`tracker.dfy`): the object itself.
  - Label-mode validation at construction.
  - `reset_output_stats` and the per-frame `track_picture_stream`.
  - `track_video_stream`, written as a method with a loop.
  - The report under the tracker's own mode.
- `Scenarios` (`scenarios.dfy`): worked examples, each stated for arbitrary skus, ids and confidences.

Two behaviours of the code that the model fixes precisely:

- An unrecognised label mode is not rejected. The constructor warns and
  falls back to `"item_name"` (`InitLabelMode`).
- The order of the report's rows is determined.
  - In sku-code mode, rows come in the order in which their skus were first
    detected during the stream. That order is the insertion order of the id
    dictionary (`Stats.RunFramesOrder`, `InventoryTracker.StreamReportOrder`).
  - In every other mode, rows come sorted by label, because `groupby` sorts its keys.

## Model

| member | source | states |
|---|---|---|
| InventoryTracker.InitLabelMode | py/InventoryTracker.py:42-48 | The resulting mode is always one of the five recognised modes. A recognised request is kept as given. Anything else becomes "item_name". |
| InventoryTracker.New | py/InventoryTracker.py:42-50 | A new tracker has a recognised label mode (the requested one when valid). It has counted no frames, holds no ids, appearances or samples for any sku, and satisfies the store invariant. |
| InventoryTracker.ResetOutputStats | py/InventoryTracker.py:52-57 | Whatever the prior statistics, the reset sets the frame counter to zero and clears every sku's ids, appearances and samples. The store is valid afterwards and the label mode is untouched. |
| Stats.ValidLockstep | py/InventoryTracker.py:99-102 | In a valid store, every sku's appearance count and number of confidence samples equal the size of its id set. |
| Stats.Observe | py/InventoryTracker.py:98-102 | A (sku, id) pair already on record leaves the store unchanged. A new pair adds the id to the sku's set, adds one appearance and appends its confidence as a sample. Other skus and the frame counter are not affected. |
| Stats.ObserveIdempotent | py/InventoryTracker.py:99 | Seeing the same (sku, id) pair again, with any confidence, changes nothing. |
| Stats.ObservePreservesValid | py/InventoryTracker.py:98-102 | One detection keeps the store invariant: equal key sets, the key order listing each key once, and ids, appearances and samples growing in lockstep. A sku joins the end of the key order exactly when it has no entry yet; a known sku leaves the order unchanged. |
| Stats.Step | py/InventoryTracker.py:71 | Each frame adds exactly one to the frame counter. |
| Stats.StepIds | py/InventoryTracker.py:78-102 | A frame adds to each sku's id set exactly the ids it reports for that sku. |
| Stats.StepPreservesValid | py/InventoryTracker.py:71-102 | A whole frame keeps the store invariant. |
| Stats.IdsOfMembers | py/InventoryTracker.py:78-100 | An id is among those a frame reports for a sku if and only if some detection of the frame carries that sku and id. |
| Stats.LiveSummary | py/InventoryTracker.py:108 | The live summary holds exactly the skus with a non-empty id set. Each maps to the size of that set, which in a valid store is its appearance count. |
| Stats.RunFramesCount | py/InventoryTracker.py:71 | Running n frames adds n to the frame counter, with or without detections. |
| Stats.RunFramesValid | py/InventoryTracker.py:71-102 | Any number of frames keeps the store invariant. |
| Stats.RunFramesIds | py/InventoryTracker.py:98-102 | After a run, each sku's id set is the prior set joined with every id the frames reported for it. |
| Stats.FirstIndex | py/InventoryTracker.py:99-100 | The first detection of a sku in a stream carries that sku, and no earlier detection does. |
| Stats.FirstSkus | py/InventoryTracker.py:99-100 | The skus of a stream, each listed once: a sku is listed if and only if some detection carries it. |
| Stats.FirstSkusOrdered | py/InventoryTracker.py:99-100 | Those skus are listed in order of their first detection: a sku listed earlier was detected for the first time earlier. |
| Stats.RunFramesOrder | py/InventoryTracker.py:98-102 | From a fresh store, the key order after any stream is the stream's skus in order of first detection, frames taken in turn. |
| Stats.RunFramesNoEmptyIds | py/InventoryTracker.py:99-100 | From a fresh store, every sku with an entry holds at least one tracker id, because an entry is only created together with its first id. |
| Stats.DistinctIdsCounted | py/InventoryTracker.py:98-102 | From a fresh store, each sku's appearance count is the number of distinct tracker ids reported for it across the stream. A pair seen in many frames counts once. |
| Stats.RepeatSightingsOnlyCountTheFrame | py/InventoryTracker.py:71-102 | A frame made only of repeat sightings changes nothing but the frame counter. |
| Stats.RunFramesKeepsUnit | py/InventoryTracker.py:99-102 | A stream whose confidences all lie in [0, 1] keeps every stored sample in [0, 1], whatever the number of frames. |
| Stats.StepKeepsUnit | py/InventoryTracker.py:102 | Samples are only copied from detections. So if every confidence in the frame lies in [0, 1], every stored sample stays in [0, 1]. |
| InventoryTracker.TrackPicture | py/InventoryTracker.py:59-109 | The bookkeeping of one frame: the label mode is kept and the frame is counted. Each sku's id set grows by the frame's ids. The live summary returned lists exactly the skus with tracked objects, each with its unique count. |
| InventoryTracker.StreamSummariesAt | py/InventoryTracker.py:163-165 | The i-th summary yielded by a stream is the live summary after its first i+1 frames, starting from a reset store. |
| InventoryTracker.TrackVideoStream | py/InventoryTracker.py:152-165 | The stream first resets, then steps once per frame. The final store has counted exactly the stream's frames and is valid. The summaries are one per frame, as yielded. The label mode is kept. |
| InventoryTracker.StreamCounts | py/InventoryTracker.py:163-165 | Whatever the tracker held before, after a stream its frame count is the number of frames. Each sku's count is the number of distinct ids reported for it. |
| InventoryTracker.StreamReportOrder | py/InventoryTracker.py:152-165 | After any stream, the sku-code report lists the skus in the order of their first detection in the stream. An empty stream gives an empty report. |
| InventoryTracker.StreamPercentBounds | py/InventoryTracker.py:152-165 | After a stream whose confidences all lie in [0, 1], every report row has a confidence between 0 and 100 percent and a presence that is not negative, in every recognised mode. |
| InventoryTracker.GetOutputStats | py/InventoryTracker.py:111-150 | The report under the tracker's mode is empty before any frame and never repeats a label. Outside sku-code mode its labels are sorted. |
| Report.ResolveLabel | py/InventoryTracker.py:126-127 | A row's label is the sku itself in sku-code mode. Otherwise it is the catalog attribute the mode names. When the sku has no catalog entry, or the entry lacks that attribute, the label falls back to the sku. |
| Report.SkuRow | py/InventoryTracker.py:126-139 | A sku's row carries its resolved label, and its count is the number of unique ids. That count equals the appearance count and the number of samples. |
| Report.SkuRowPercents | py/InventoryTracker.py:131-138 | A sku's confidence is the Python-rounded mean of its samples in percent. Its presence is its unique count over the frame count in percent, rounded, with no cap at 100. |
| Report.ActiveSkusExact | py/InventoryTracker.py:123-125 | The skus that get a row are exactly those with a non-empty id set, each once. |
| Report.PerSkuRowsExact | py/InventoryTracker.py:123-139 | Before grouping there is exactly one row per sku with tracked objects, in the store's key order. The i-th row is the row of the i-th such sku. |
| Report.PerSkuRowsTotal | py/InventoryTracker.py:123-139 | Before grouping, the counts add up to the number of unique (sku, id) pairs in the store. |
| Report.RowsWithKey | py/InventoryTracker.py:144 | The selected rows all carry the label. There are some if and only if some row has that label. |
| Report.RowsWithKeySelects | py/InventoryTracker.py:144-147 | The rows of a group are exactly the input rows carrying its label, each as often as it occurs in the input: none is invented, dropped or duplicated. |
| Report.FirstKeys | py/InventoryTracker.py:144 | The group labels are distinct and are exactly the labels occurring among the rows. |
| Report.GroupRows | py/InventoryTracker.py:143-148 | Grouping yields one row per label present in the input and no other, with labels distinct and in increasing order. |
| Report.GroupRowsMembers | py/InventoryTracker.py:144-148 | Each grouped row stands for the non-empty set of input rows with its label. Its count is their sum; its confidence and presence are the rounded unweighted means of their whole-number percentages. |
| Report.GroupPreservesTotal | py/InventoryTracker.py:144-145 | Grouping neither loses nor invents objects: the grouped counts add up to the input counts. |
| Report.SumWithKeysSortKeys | py/InventoryTracker.py:144-145 | Summing counts label by label gives the same total in sorted order as in first-occurrence order. |
| Report.GroupSortedIsIdentity | py/InventoryTracker.py:143-148 | Rows whose labels are distinct and already increasing come through grouping unchanged. |
| Report.GroupDistinctReorders | py/InventoryTracker.py:143-148 | Rows whose labels are distinct are only reordered by grouping: the same rows come out, each once. |
| Report.GroupIdempotent | py/InventoryTracker.py:143-148 | Grouping a grouped report again changes nothing. |
| Report.GroupPercentBounds | py/InventoryTracker.py:146-147 | If every input confidence lies within [lo, hi], so does every grouped confidence. Likewise, presences that are at least lo stay at least lo. |
| Report.GetOutputStats | py/InventoryTracker.py:111-150 | The report is empty before any frame and never repeats a label. In every mode other than sku-code its labels are sorted. |
| Report.ReportOfDistinctLabels | py/InventoryTracker.py:141-150 | When no two active skus share a label, the report holds exactly the per-sku rows, each once. They are unchanged in sku-code mode or when the labels already increase, and otherwise reordered by label. |
| Report.ReportTotal | py/InventoryTracker.py:118-148 | In every mode, the report's counts add up to the number of unique tracked objects, and to zero before any frame. |
| Report.ReportBySkuMatchesLiveSummary | py/InventoryTracker.py:108-139 | In sku-code mode the report has a row exactly for each sku of the live summary, labelled by that sku and carrying the live summary's count. |
| Report.ReportBySkuOrder | py/InventoryTracker.py:123-139 | In sku-code mode, for a store where every sku with an entry holds an id, the report's labels are the store's keys in their insertion order. |
| Report.ReportGroupedLabels | py/InventoryTracker.py:123-148 | In any other mode the report's labels are exactly those that some sku with tracked objects resolves to. |
| Report.SkuRowBounds | py/InventoryTracker.py:131-138 | With samples in [0, 1], a sku's confidence lies between 0 and 100 percent and its presence is not negative. |
| Report.ReportPercentBounds | py/InventoryTracker.py:131-147 | With samples in [0, 1], every reported confidence lies between 0 and 100 percent and no presence is negative, in every mode. |
| Numeric.RoundHalfEven | py/InventoryTracker.py:137 | Python's `round` lands within one half of its argument, and on an exact half it picks the even neighbour. |
| Numeric.RoundHalfEvenUnique | py/InventoryTracker.py:137 | Those two properties single out the rounded value: any integer that has them is the result. |
| Numeric.MeanBounds | py/InventoryTracker.py:132 | The mean of values within [lo, hi] lies within [lo, hi]. |
| Order.StrLessTotal | py/InventoryTracker.py:144 | Python's string comparison orders any two different labels one way or the other. |
| Order.StrLessTransitive | py/InventoryTracker.py:144 | Python's string comparison is transitive. |
| Order.SortKeysSorted | py/InventoryTracker.py:144 | Sorting distinct labels yields them in strictly increasing order. |
| Order.SortKeysOfSorted | py/InventoryTracker.py:144 | Labels already in increasing order are left as they are. |
| Scenarios.ThreeFrameStream | py/InventoryTracker.py:71-139 | Three frames of one sku: the first has id a, the second has id a again plus a new id b, the third is empty. The store ends with 3 frames, ids {a, b}, 2 appearances and samples [ca, cb]. The sku-code report is one row with count 2, confidence round(mean(ca, cb) * 100) and presence 67. |
| Scenarios.ThreeFrameConfidence | py/InventoryTracker.py:132-137 | For confidences 0.9 and 0.7 that confidence is 80. |
| Scenarios.GroupingSharedLabel | py/InventoryTracker.py:123-148 | Two skus seen once each in one frame, both resolving to the same label, give one row. Its count is 2, its confidence the rounded mean of the two whole-number confidences, and its presence 100. |
| Scenarios.GroupingConfidence | py/InventoryTracker.py:137-146 | For confidences 0.8 and 0.6 the grouped confidence is 70. |
| Scenarios.MissingCatalogEntryFallsBack | py/InventoryTracker.py:126-127 | In every mode, a sku absent from the catalog is reported under its own code. |
| Scenarios.PresenceCanExceedHundred | py/InventoryTracker.py:129-138 | One frame holding two objects of one sku gives a presence of 200 percent. |

## Left out

- The YOLO model, the ByteTrack tracker and the annotators are foreign code. A frame is the list of (sku, tracker id, confidence) detections the tracker reported, and the annotated frame is not produced.
- Confidence extraction (lines 82-92) is left out. The model gives each detection its own confidence and always completes the frame. In the source, when a detection has no `conf` attribute, line 82 reads `results.boxes.conf[class_id]` with no guard, so the guarded lookup with its 0.0 default at line 92 is never reached. That read does one of two things:
  - When the class id is below the number of boxes, it returns the confidence of the box at that position. The position is a class index, not this detection's own index.
  - Otherwise it raises `IndexError`. The frame is then already counted (line 71), and its earlier detections are already recorded (lines 99-102). The exception also ends the `track_video_stream` generator.
- The frame label text (lines 94-96) and the warning print (line 45) are display-only and change no state.
- Loading the Excel catalog (lines 12-19) is I/O. The catalog is a map from sku to attribute name and value, passed as a parameter. Empty or non-string (NaN) cells are not modelled, and neither is pandas' dropping of NaN labels in `groupby`.
- The report is a list of rows rather than a DataFrame. Column names and the string formatting of percentages (`f"{int(...)}"`, parsed back with `float`) are not modelled. Percentages are kept as the integers those strings denote.
- Confidences and ratios are exact reals rather than floating point. Python's `round` is round-half-to-even on the exact value. Binary floating-point error near a .5 boundary is not modelled.
- Report.GetOutputStats: requires the store invariant. Every store the tracker can reach satisfies it (`New`, `ResetOutputStats`, `StepPreservesValid`). Outside it, the source's `np.mean([])` would give NaN and `int(round(nan))` would raise.
- `confidence_threshold` (line 35 and the parameters of lines 59 and 152) is never used by the aggregation, so it is not modelled.
- Reassigning `label_mode` on an existing tracker bypasses validation. The application's mode selector does this (app.py:88-91), but only with one of the five recognised modes. The model's tracker takes its mode through the constructor, and the report takes the mode as a parameter.
- Report.GetOutputStats: requires the label mode to be one of the five recognised modes, which is all the constructor (lines 42-48) and the application's selector (app.py:88-91) ever set. For other strings the source is not modelled: a mode named like a statistic column ("count", "confidence(%)", "frame_presence(%)") collides with that column in the row dictionary built at lines 134-139, and a mode naming some other catalog column resolves to that column.
- The lazy generator of `track_video_stream` is modelled as a method returning the list of summaries it would yield. The final statistics are what a full iteration leaves behind.
