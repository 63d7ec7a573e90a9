/** The standalone bandwidth ingester: the freshest of its candidates is
    merged into a single history that may not exist yet. Its merge has no
    freshness guard; the gap check always runs. */
module IngestData {
  import opened Wrappers
  import opened Tables
  import opened Time
  import opened MergeEngine
  import Assembly
  import Probe

  /** `merge_with_old`. `stored` is `None` when the history file does not
      exist; otherwise the gap check runs unconditionally. With an empty
      history or batch one of the two ends is NaT, so the check's comparison
      is false and the merge fails. */
  function MergeWithOld(stored: Option<Table>, batch: Table): (r: Result<Table, GapError>)
    ensures stored.None? ==> r == Success(batch)
    ensures stored.Some? ==>
              (r.Failure? <==> |stored.value| == 0 || |batch| == 0
                               || MinTs(batch) - MaxTs(stored.value) >= (MaxGapMinutes + 1) * MsPerMinute)
    ensures r.Failure? ==> r.error == DataGap(Bandwidth)
    ensures stored.Some? && r.Success? ==>
              && |stored.value| <= |r.value|
              && r.value[..|stored.value|] == stored.value
              && forall row :: row in r.value[|stored.value|..] <==> row in batch && row.ts > MaxTs(stored.value)
  {
    if stored.None? then Success(batch)
    else if |stored.value| == 0 || |batch| == 0 then Failure(DataGap(Bandwidth))
    else if WholeMinutes(MinTs(batch) - MaxTs(stored.value)) > MaxGapMinutes then Failure(DataGap(Bandwidth))
    else Success(Append(stored.value, batch))
  }

  /** A batch no later than the history passes the gap check (it starts
      before the history ends) and leaves the content as it was. */
  lemma StaleBatchKeepsContent(history: Table, batch: Table)
    requires |history| > 0 && |batch| > 0
    requires MaxTs(batch) <= MaxTs(history)
    ensures MergeWithOld(Some(history), batch) == Success(history)
  {
    var i :| 0 <= i < |batch| && batch[i].ts == MaxTs(batch);
    assert MinTs(batch) <= batch[i].ts;
    AppendStale(history, batch);
  }

  /** Merging the same non-empty batch twice gives the record of merging it
      once, from a first write as from an existing history. */
  lemma MergeIdempotent(stored: Option<Table>, batch: Table)
    requires |batch| > 0
    requires MergeWithOld(stored, batch).Success?
    ensures MergeWithOld(Some(MergeWithOld(stored, batch).value), batch) == MergeWithOld(stored, batch)
  {
    var once := MergeWithOld(stored, batch).value;
    if stored.Some? {
      AppendCovers(stored.value, batch);
    }
    var i :| 0 <= i < |batch| && batch[i].ts == MaxTs(batch);
    assert batch[i].ts <= MaxTs(once);
    StaleBatchKeepsContent(once, batch);
  }

  /** An empty batch is written as the first record, and the next merge
      of the same batch then fails: idempotence needs a non-empty batch. */
  lemma EmptyFirstWriteThenFails()
    ensures MergeWithOld(None, []) == Success([])
    ensures MergeWithOld(Some([]), []).Failure?
  {
  }

  /** A sorted batch merged into a sorted history leaves it sorted. */
  lemma MergeKeepsOrder(stored: Option<Table>, batch: Table)
    requires stored.Some? ==> Increasing(stored.value)
    requires Increasing(batch)
    requires MergeWithOld(stored, batch).Success?
    ensures Increasing(MergeWithOld(stored, batch).value)
  {
    if stored.Some? {
      AppendKeepsOrder(stored.value, batch);
    }
  }

  /** On non-empty tables this merge decides as the pipeline's bandwidth step
      does: the missing freshness guard makes no difference, because a batch
      that is not fresher starts before the history ends and adds no rows. */
  lemma AgreesWithPipeline(history: Table, batch: Table)
    requires |history| > 0 && |batch| > 0
    ensures MergeWithOld(Some(history), batch).Failure? <==> BandwidthStep(history, batch).Fail?
    ensures MergeWithOld(Some(history), batch).Success? ==>
              MergeWithOld(Some(history), batch).value == Apply(history, BandwidthStep(history, batch))
  {
    if !Fresher(history, batch) {
      StaleBatchKeepsContent(history, batch);
    } else {
      FreshBatchAgrees(history, batch);
    }
  }

  /** The fresher half of `AgreesWithPipeline`: the same gap check and the
      same append. */
  lemma FreshBatchAgrees(history: Table, batch: Table)
    requires Fresher(history, batch)
    ensures MergeWithOld(Some(history), batch) ==
              if BandwidthStep(history, batch).Fail? then Failure(DataGap(Bandwidth))
              else Success(Append(history, batch))
  {
  }

  /** Why the script stopped. */
  datatype IngestError = Fetch(cause: Probe.FetchError) | Gap(gap: GapError)

  /** The script's entry point: fetch the freshest candidate, then merge it. */
  method IngestOnce(stored: Option<Table>, candidates: seq<seq<Assembly.Series>>) returns (r: Result<Table, IngestError>)
    requires Probe.AllJoinable(candidates)
    ensures (r.Failure? && r.error.Fetch?) <==> |candidates| == 0 || Probe.SomeEmpty(candidates)
    ensures stored.None? && r.Failure? ==> r.error.Fetch?
    ensures r.Success? && stored.None? ==> exists k :: 0 <= k < |candidates| && Probe.ParseBatch(candidates[k]) == Success(r.value)
    ensures r.Success? && stored.Some? ==> |stored.value| <= |r.value| && r.value[..|stored.value|] == stored.value
    ensures r.Success? && (stored.Some? ==> Increasing(stored.value)) ==> Increasing(r.value)
    ensures !(r.Failure? && r.error.Fetch?) ==>
              && Probe.ParseAll(candidates).Success?
              && var parsed := Probe.ParseAll(candidates).value;
                 var merged := MergeWithOld(stored, parsed[Probe.Chosen(parsed, |candidates|).value]);
                 r == (if merged.Success? then Success(merged.value) else Failure(Gap(merged.error)))
  {
    var fetched := Probe.NewestCandidate(candidates);
    if fetched.Failure? {
      return Failure(Fetch(fetched.error));
    }
    var merged := MergeWithOld(stored, fetched.value);
    if merged.Failure? {
      return Failure(Gap(merged.error));
    }
    if stored.Some? ==> Increasing(stored.value) {
      MergeKeepsOrder(stored, fetched.value);
    }
    r := Success(merged.value);
  }
}
