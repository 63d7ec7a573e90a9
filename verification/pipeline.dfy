/** One run of the ingestion pipeline: fetch the freshest bandwidth batch, fetch
    the support batch, then merge both into the stored histories, bandwidth
    first. */
module Pipeline {
  import opened Wrappers
  import opened Tables
  import opened MergeEngine
  import Assembly
  import Probe

  /** The two persisted histories. */
  datatype Store = Store(bandwidth: Table, support: Table)

  /** Why a run stopped early. */
  datatype RunError = Fetch(cause: Probe.FetchError) | Gap(gap: GapError)

  /** The histories after a run, and the error that stopped it, if any. */
  datatype Outcome = Outcome(store: Store, error: Option<RunError>)

  /** `__merge_with_old`: the bandwidth history is merged and written before
      the support checks run, so a support gap leaves the bandwidth write in
      place, while a bandwidth gap stops the run before support is looked at. */
  function MergeWithOld(store: Store, bandwidth: Table, support: Table): (r: Outcome)
    ensures r.error.None? <==> !BandwidthStep(store.bandwidth, bandwidth).Fail? && !SupportStep(store.support, support).Fail?
    ensures r.error == Some(Gap(DataGap(Bandwidth))) <==> BandwidthStep(store.bandwidth, bandwidth).Fail?
    ensures BandwidthStep(store.bandwidth, bandwidth).Fail? ==> r.store == store
    ensures !BandwidthStep(store.bandwidth, bandwidth).Fail? ==>
              r.store.bandwidth == Apply(store.bandwidth, BandwidthStep(store.bandwidth, bandwidth))
    ensures r.error.None? ==> r.store.support == Apply(store.support, SupportStep(store.support, support))
    ensures r.error.Some? ==> r.store.support == store.support
    ensures !BandwidthStep(store.bandwidth, bandwidth).Fail? && SupportStep(store.support, support).Fail? ==>
              r.error == Some(Gap(DataGap(Support)))
  {
    var b := BandwidthStep(store.bandwidth, bandwidth);
    if b.Fail? then Outcome(store, Some(Gap(b.error)))
    else
      var written := store.(bandwidth := Apply(store.bandwidth, b));
      var s := SupportStep(store.support, support);
      if s.Fail? then Outcome(written, Some(Gap(s.error)))
      else Outcome(written.(support := Apply(store.support, s)), None)
  }

  /** A support gap does not undo the bandwidth append already written. */
  lemma SupportGapKeepsBandwidthWrite(store: Store, bandwidth: Table, support: Table)
    requires Fresher(store.bandwidth, bandwidth)
    requires !BandwidthStep(store.bandwidth, bandwidth).Fail?
    requires SupportStep(store.support, support).Fail?
    ensures MergeWithOld(store, bandwidth, support).error == Some(Gap(DataGap(Support)))
    ensures MergeWithOld(store, bandwidth, support).store ==
              Store(Append(store.bandwidth, bandwidth), store.support)
    ensures |MergeWithOld(store, bandwidth, support).store.bandwidth| > |store.bandwidth|
  {
  }

  /** Batches that are not fresher than the histories change nothing and
      raise nothing. */
  lemma StaleMergeIsNoop(store: Store, bandwidth: Table, support: Table)
    requires !Fresher(store.bandwidth, bandwidth) && !Fresher(store.support, support)
    ensures MergeWithOld(store, bandwidth, support) == Outcome(store, None)
  {
  }

  /** Merging the same two batches again after a clean merge changes nothing. */
  lemma RemergeIsNoop(store: Store, bandwidth: Table, support: Table)
    requires MergeWithOld(store, bandwidth, support).error.None?
    ensures var after := MergeWithOld(store, bandwidth, support).store;
            MergeWithOld(after, bandwidth, support) == Outcome(after, None)
  {
    BandwidthRemergeIsNoop(store.bandwidth, bandwidth);
    SupportRemergeIsNoop(store.support, support);
  }

  /** Sorted histories stay sorted, whatever the merge decides. */
  lemma MergeKeepsOrder(store: Store, bandwidth: Table, support: Table)
    requires Increasing(store.bandwidth) && Increasing(store.support)
    requires Increasing(bandwidth) && Increasing(support)
    ensures Increasing(MergeWithOld(store, bandwidth, support).store.bandwidth)
    ensures Increasing(MergeWithOld(store, bandwidth, support).store.support)
  {
    BandwidthKeepsOrder(store.bandwidth, bandwidth);
    SupportKeepsOrder(store.support, support);
  }

  /** `run`: the freshest bandwidth candidate, then the support series with
      their labels normalised to categories, then the merge. A fetch failure
      stops the run before anything is written. */
  method Run(store: Store, bandwidthCandidates: seq<seq<Assembly.Series>>, supportSeries: seq<Assembly.Series>)
    returns (r: Outcome)
    requires Probe.AllJoinable(bandwidthCandidates)
    requires Assembly.Joinable(Assembly.SupportSeries(supportSeries))
    ensures (r.error.Some? && r.error.value.Fetch?) <==>
              (|bandwidthCandidates| == 0 || Probe.SomeEmpty(bandwidthCandidates) || |supportSeries| == 0)
    ensures r.error.Some? && r.error.value.Fetch? ==> r.store == store
    ensures !(r.error.Some? && r.error.value.Fetch?) ==>
              && Probe.ParseAll(bandwidthCandidates).Success?
              && var parsed := Probe.ParseAll(bandwidthCandidates).value;
                 r == MergeWithOld(store, parsed[Probe.Chosen(parsed, |bandwidthCandidates|).value],
                                   Assembly.Assemble(Assembly.SupportSeries(supportSeries)))
    ensures Increasing(store.bandwidth) && Increasing(store.support) ==>
              Increasing(r.store.bandwidth) && Increasing(r.store.support)
  {
    var fetched := Probe.NewestCandidate(bandwidthCandidates);
    if fetched.Failure? {
      return Outcome(store, Some(Fetch(fetched.error)));
    }
    var named := Assembly.SupportSeries(supportSeries);
    var support := Probe.ParseBatch(named);
    if support.Failure? {
      return Outcome(store, Some(Fetch(support.error)));
    }
    r := MergeWithOld(store, fetched.value, support.value);
    if Increasing(store.bandwidth) && Increasing(store.support) {
      MergeKeepsOrder(store, fetched.value, support.value);
    }
  }
}
