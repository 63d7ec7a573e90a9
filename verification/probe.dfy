/** Fetching the newest batch: each cache-buster candidate yields a parsed
    table, and the loop keeps the one whose last timestamp is strictly the
    greatest seen so far. */
module Probe {
  import opened Wrappers
  import opened Tables
  import Assembly

  /** Why a fetch produced no batch. */
  datatype FetchError =
    /** `reduce` over an empty series list raises. */
    | NoSeries
    /** The candidate list was exhausted without a batch ("No data found"). */
    | NoData

  /** The last timestamp of a batch; `None` stands for pandas' NaT, the
      maximum of an empty column. */
  function LastTs(t: Table): (e: Option<int>)
    ensures e.None? <==> |t| == 0
    ensures e.Some? ==> e.value in Timestamps(t)
    ensures e.Some? ==> forall i :: 0 <= i < |t| ==> t[i].ts <= e.value
  {
    if |t| == 0 then None
    else
      var m := MaxTs(t);
      var i :| 0 <= i < |t| && t[i].ts == m;
      assert t[i].ts in Timestamps(t);
      Some(m)
  }

  /** `last_timestamp > most_recent_timestamp`: every comparison with NaT is
      false. */
  predicate Later(a: Option<int>, b: Option<int>)
  {
    a.Some? && b.Some? && a.value > b.value
  }

  /** Reference definition of the candidate loop: the index kept after
      looking at the first `n` batches. */
  function Chosen(batches: seq<Table>, n: int): (k: Option<int>)
    requires 0 <= n <= |batches|
    ensures k.None? <==> n == 0
    ensures k.Some? ==> 0 <= k.value < n
  {
    if n == 0 then None
    else
      var prev := Chosen(batches, n - 1);
      if prev.None? || Later(LastTs(batches[n - 1]), LastTs(batches[prev.value])) then Some(n - 1)
      else prev
  }

  /** Batch `k` is the first among the first `n` whose last timestamp is the
      greatest. */
  ghost predicate FirstFreshest(batches: seq<Table>, n: int, k: int)
    requires 0 <= n <= |batches|
    requires forall i :: 0 <= i < |batches| ==> |batches[i]| > 0
  {
    && 0 <= k < n
    && (forall i :: 0 <= i < n ==> MaxTs(batches[i]) <= MaxTs(batches[k]))
    && (forall i :: 0 <= i < k ==> MaxTs(batches[i]) < MaxTs(batches[k]))
  }

  /** With no empty batch, the loop keeps the first batch with the greatest
      last timestamp: a later batch replaces it only when strictly fresher. */
  lemma {:induction false} ChosenIsFirstFreshest(batches: seq<Table>, n: int)
    requires 0 < n <= |batches|
    requires forall i :: 0 <= i < |batches| ==> |batches[i]| > 0
    ensures FirstFreshest(batches, n, Chosen(batches, n).value)
  {
    if n > 1 {
      ChosenIsFirstFreshest(batches, n - 1);
    }
  }

  /** At most one index is the first freshest. */
  lemma FirstFreshestUnique(batches: seq<Table>, n: int, k1: int, k2: int)
    requires 0 <= n <= |batches|
    requires forall i :: 0 <= i < |batches| ==> |batches[i]| > 0
    requires FirstFreshest(batches, n, k1) && FirstFreshest(batches, n, k2)
    ensures k1 == k2
  {
    var m1, m2 := MaxTs(batches[k1]), MaxTs(batches[k2]);
    assert m1 <= m2 && m2 <= m1;
    assert k1 < k2 ==> m1 < m2;
    assert k2 < k1 ==> m2 < m1;
  }

  /** An empty first batch seeds the loop with NaT, and no later batch
      compares greater than NaT: it is kept whatever follows. */
  lemma {:induction false} EmptySeedIsKept(batches: seq<Table>, n: int)
    requires 0 < n <= |batches|
    requires |batches[0]| == 0
    ensures Chosen(batches, n) == Some(0)
  {
    if n > 1 {
      EmptySeedIsKept(batches, n - 1);
    }
  }

  /** The candidate loop of `__get_newest_bandwidth_data` and
      `get_new_data`, over batches already parsed. */
  method NewestBatch(batches: seq<Table>) returns (newest: Option<Table>)
    ensures newest.None? <==> |batches| == 0
    ensures newest.Some? ==> newest.value in batches
    ensures newest.Some? ==> newest.value == batches[Chosen(batches, |batches|).value]
    ensures (forall i :: 0 <= i < |batches| ==> |batches[i]| > 0) && newest.Some? ==>
              exists k :: FirstFreshest(batches, |batches|, k) && newest.value == batches[k]
  {
    newest := None;
    var recent: Option<int> := None;
    var i := 0;
    while i < |batches|
      invariant 0 <= i <= |batches|
      invariant newest.None? <==> i == 0
      invariant newest.Some? ==> newest.value == batches[Chosen(batches, i).value]
      invariant newest.Some? ==> recent == LastTs(newest.value)
    {
      var last := LastTs(batches[i]);
      if newest.None? || Later(last, recent) {
        recent := last;
        newest := Some(batches[i]);
        assert Chosen(batches, i + 1) == Some(i);
      } else {
        assert Chosen(batches, i + 1) == Chosen(batches, i);
      }
      i := i + 1;
    }
    if newest.Some? && forall j :: 0 <= j < |batches| ==> |batches[j]| > 0 {
      var k := Chosen(batches, |batches|).value;
      ChosenIsFirstFreshest(batches, |batches|);
      assert FirstFreshest(batches, |batches|, k) && newest.value == batches[k];
    }
  }

  /** One candidate's response, parsed: the outer join of its series, or
      `NoSeries` when there is none to reduce over. */
  function ParseBatch(ss: seq<Assembly.Series>): (r: Result<Table, FetchError>)
    requires Assembly.Joinable(ss)
    ensures r.Failure? <==> |ss| == 0
    ensures r.Failure? ==> r.error == NoSeries
    ensures r.Success? ==> Increasing(r.value) && Timestamps(r.value) == Assembly.PointTimes(ss, |ss|)
  {
    if |ss| == 0 then Failure(NoSeries) else Success(Assembly.Assemble(ss))
  }

  /** Every candidate's series can be joined. */
  ghost predicate AllJoinable(candidates: seq<seq<Assembly.Series>>)
  {
    forall i :: 0 <= i < |candidates| ==> Assembly.Joinable(candidates[i])
  }

  /** Some candidate's response holds no series at all. */
  predicate SomeEmpty(candidates: seq<seq<Assembly.Series>>)
  {
    exists i :: 0 <= i < |candidates| && |candidates[i]| == 0
  }

  /** Every candidate is parsed before any is compared; a parse failure ends
      the run, as the exception it is in the loop. */
  function ParseAll(candidates: seq<seq<Assembly.Series>>): (r: Result<seq<Table>, FetchError>)
    requires AllJoinable(candidates)
    ensures r.Failure? <==> SomeEmpty(candidates)
    ensures r.Success? ==> |r.value| == |candidates|
    ensures r.Success? ==> forall i :: 0 <= i < |candidates| ==>
              ParseBatch(candidates[i]) == Success(r.value[i])
  {
    if |candidates| == 0 then Success([])
    else
      var head := ParseBatch(candidates[0]);
      if head.Failure? then Failure(head.error)
      else
        var rest := ParseAll(candidates[1..]);
        assert SomeEmpty(candidates) <==> SomeEmpty(candidates[1..]) by {
          if SomeEmpty(candidates) {
            var i :| 0 <= i < |candidates| && |candidates[i]| == 0;
            assert candidates[1..][i - 1] == candidates[i];
          }
        }
        if rest.Failure? then Failure(rest.error)
        else
          assert forall i :: 1 <= i < |candidates| ==> candidates[i] == candidates[1..][i - 1];
          Success([head.value] + rest.value)
  }

  /** Fetch, parse and keep the freshest candidate; `NoData` when there are
      no candidates. */
  method NewestCandidate(candidates: seq<seq<Assembly.Series>>) returns (r: Result<Table, FetchError>)
    requires AllJoinable(candidates)
    ensures r.Failure? <==> |candidates| == 0 || SomeEmpty(candidates)
    ensures r.Failure? && |candidates| == 0 ==> r.error == NoData
    ensures r.Success? ==> Increasing(r.value)
    ensures r.Success? ==> exists k :: 0 <= k < |candidates| && ParseBatch(candidates[k]) == Success(r.value)
    ensures r.Success? ==>
              && ParseAll(candidates).Success?
              && r.value == ParseAll(candidates).value[Chosen(ParseAll(candidates).value, |candidates|).value]
  {
    var parsed := ParseAll(candidates);
    if parsed.Failure? {
      return Failure(parsed.error);
    }
    var newest := NewestBatch(parsed.value);
    if newest.None? {
      return Failure(NoData);
    }
    var k := Chosen(parsed.value, |parsed.value|).value;
    assert ParseBatch(candidates[k]) == Success(parsed.value[k]);
    r := Success(newest.value);
  }
}
