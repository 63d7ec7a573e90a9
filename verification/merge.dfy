/** The guarded append of a new batch to a stored history, for each of the two
    feeds: a freshness guard, the support feed's hour-of-day anchor, a gap
    check at the feed's granularity, and the filter-append itself. */
module MergeEngine {
  import opened Tables
  import opened Time

  /** Bandwidth points are ten minutes apart: a new batch may start at most
      this many whole minutes after the stored history ends. */
  const MaxGapMinutes: int := 10
  /** Support points are a day apart: a new batch may start at most this many
      whole days after the stored history ends. */
  const MaxGapDays: int := 1
  /** Support histories only take batches whose last point is at this UTC hour. */
  const SupportAnchorHour: int := 7

  datatype Feed = Bandwidth | Support

  /** "Data gap exists": the new batch starts too long after the history ends. */
  datatype GapError = DataGap(feed: Feed)

  /** What one feed's merge decides: leave the history as it is, write the
      given rows in its place, or stop the run. */
  datatype Step = Unchanged | Write(rows: Table) | Fail(error: GapError)

  /** `new_end > old_end`. An empty table's end is NaT, and comparisons with
      NaT are false. */
  predicate Fresher(history: Table, batch: Table)
  {
    |history| > 0 && |batch| > 0 && MaxTs(batch) > MaxTs(history)
  }

  /** The history's rows unchanged, followed by the batch's rows stamped after
      the history's end (`pd.concat([old, new.loc[new.ts > old_end]])`). */
  function Append(history: Table, batch: Table): (r: Table)
    requires |history| > 0
    ensures |history| <= |r| && r[..|history|] == history
    ensures forall row :: row in r[|history|..] <==> row in batch && row.ts > MaxTs(history)
  {
    var tail := KeepAfter(batch, MaxTs(history));
    assert (history + tail)[..|history|] == history;
    assert (history + tail)[|history|..] == tail;
    history + tail
  }

  /** A fresher batch contributes at least its last row. */
  lemma FresherAppendGrows(history: Table, batch: Table)
    requires Fresher(history, batch)
    ensures |Append(history, batch)| > |history|
  {
    var i :| 0 <= i < |batch| && batch[i].ts == MaxTs(batch);
    assert batch[i] in KeepAfter(batch, MaxTs(history));
  }

  /** A batch that is not fresher adds nothing. */
  lemma AppendStale(history: Table, batch: Table)
    requires |history| > 0 && |batch| > 0 && MaxTs(batch) <= MaxTs(history)
    ensures Append(history, batch) == history
  {
    assert KeepAfter(batch, MaxTs(history)) == [];
  }

  /** After an append the history reaches at least as far as every row of the
      batch. */
  lemma AppendCovers(history: Table, batch: Table)
    requires |history| > 0
    ensures forall i :: 0 <= i < |batch| ==> batch[i].ts <= MaxTs(Append(history, batch))
  {
    var r := Append(history, batch);
    forall i | 0 <= i < |batch|
      ensures batch[i].ts <= MaxTs(r)
    {
      if batch[i].ts > MaxTs(history) {
        assert batch[i] in r[|history|..];
        var j :| 0 <= j < |r| - |history| && r[|history|..][j] == batch[i];
        assert r[|history| + j] == batch[i];
      } else {
        var j :| 0 <= j < |history| && history[j].ts == MaxTs(history);
        assert r[j] == history[j];
      }
    }
  }

  /** A fresher batch moves the end of the history to its own end. */
  lemma AppendEnd(history: Table, batch: Table)
    requires Fresher(history, batch)
    ensures MaxTs(Append(history, batch)) == MaxTs(batch)
  {
    var r := Append(history, batch);
    var j :| 0 <= j < |r| && r[j].ts == MaxTs(r);
    if j < |history| {
      assert r[j] == history[j];
    } else {
      assert r[j] == r[|history|..][j - |history|];
      assert r[j] in batch;
    }
    AppendCovers(history, batch);
    var i :| 0 <= i < |batch| && batch[i].ts == MaxTs(batch);
    assert batch[i].ts <= MaxTs(r);
  }

  /** Appending to a sorted history a sorted batch keeps it sorted. */
  lemma AppendKeepsOrder(history: Table, batch: Table)
    requires |history| > 0 && Increasing(history) && Increasing(batch)
    ensures Increasing(Append(history, batch))
  {
    var tail := KeepAfter(batch, MaxTs(history));
    var r := Append(history, batch);
    assert r == history + tail;
    KeepAfterSuffix(batch, MaxTs(history));
    forall i, j | 0 <= i < j < |r|
      ensures r[i].ts < r[j].ts
    {
      if j >= |history| {
        assert r[j] == tail[j - |history|];
        assert tail[j - |history|] in tail;
        if i < |history| {
          assert r[i] == history[i];
        } else {
          assert r[i] == tail[i - |history|];
        }
      } else {
        assert r[i] == history[i] && r[j] == history[j];
      }
    }
  }

  /** The bandwidth half of `__merge_with_old`. */
  function BandwidthStep(history: Table, batch: Table): (r: Step)
    ensures r.Unchanged? <==> !Fresher(history, batch)
    ensures r.Fail? <==> Fresher(history, batch) && MinTs(batch) - MaxTs(history) >= (MaxGapMinutes + 1) * MsPerMinute
    ensures r.Fail? ==> r.error == DataGap(Bandwidth)
    ensures r.Write? ==> |r.rows| > |history| && r.rows[..|history|] == history
    ensures r.Write? ==> forall row :: row in r.rows[|history|..] <==> row in batch && row.ts > MaxTs(history)
  {
    if !Fresher(history, batch) then Unchanged
    else if WholeMinutes(MinTs(batch) - MaxTs(history)) > MaxGapMinutes then Fail(DataGap(Bandwidth))
    else
      FresherAppendGrows(history, batch);
      Write(Append(history, batch))
  }

  /** The support half of `__merge_with_old`. */
  function SupportStep(history: Table, batch: Table): (r: Step)
    ensures r.Unchanged? <==> !(Fresher(history, batch) && HourOfDay(MaxTs(batch)) == SupportAnchorHour)
    ensures r.Fail? <==> Fresher(history, batch) && HourOfDay(MaxTs(batch)) == SupportAnchorHour
                         && MinTs(batch) - MaxTs(history) >= (MaxGapDays + 1) * MsPerDay
    ensures r.Fail? ==> r.error == DataGap(Support)
    ensures r.Write? ==> |r.rows| > |history| && r.rows[..|history|] == history
    ensures r.Write? ==> forall row :: row in r.rows[|history|..] <==> row in batch && row.ts > MaxTs(history)
  {
    if !(Fresher(history, batch) && HourOfDay(MaxTs(batch)) == SupportAnchorHour) then Unchanged
    else if WholeDays(MinTs(batch) - MaxTs(history)) > MaxGapDays then Fail(DataGap(Support))
    else
      FresherAppendGrows(history, batch);
      Write(Append(history, batch))
  }

  /** The history after a step that did not fail. */
  function Apply(history: Table, s: Step): Table
  {
    if s.Write? then s.rows else history
  }

  /** Both steps write the plain append of the batch. */
  lemma WritesAreAppends(history: Table, batch: Table)
    ensures BandwidthStep(history, batch).Write? ==> BandwidthStep(history, batch).rows == Append(history, batch)
    ensures SupportStep(history, batch).Write? ==> SupportStep(history, batch).rows == Append(history, batch)
  {
  }

  /** Merging the same bandwidth batch a second time changes nothing. */
  lemma BandwidthRemergeIsNoop(history: Table, batch: Table)
    requires !BandwidthStep(history, batch).Fail?
    ensures BandwidthStep(Apply(history, BandwidthStep(history, batch)), batch) == Unchanged
  {
    if Fresher(history, batch) {
      AppendEnd(history, batch);
    }
  }

  /** Merging the same support batch a second time changes nothing. */
  lemma SupportRemergeIsNoop(history: Table, batch: Table)
    requires !SupportStep(history, batch).Fail?
    ensures SupportStep(Apply(history, SupportStep(history, batch)), batch) == Unchanged
  {
    if SupportStep(history, batch).Write? {
      AppendEnd(history, batch);
    }
  }

  /** The bandwidth step does not unsort a sorted history, and a write ends
      where the batch ends. */
  lemma BandwidthKeepsOrder(history: Table, batch: Table)
    requires Increasing(history) && Increasing(batch)
    ensures Increasing(Apply(history, BandwidthStep(history, batch)))
    ensures BandwidthStep(history, batch).Write? ==> MaxTs(BandwidthStep(history, batch).rows) == MaxTs(batch)
  {
    if Fresher(history, batch) {
      AppendKeepsOrder(history, batch);
      AppendEnd(history, batch);
    }
  }

  /** The support step does not unsort a sorted history, and a write ends
      where the batch ends. */
  lemma SupportKeepsOrder(history: Table, batch: Table)
    requires Increasing(history) && Increasing(batch)
    ensures Increasing(Apply(history, SupportStep(history, batch)))
    ensures SupportStep(history, batch).Write? ==> MaxTs(SupportStep(history, batch).rows) == MaxTs(batch)
  {
    var s := SupportStep(history, batch);
    if s.Write? {
      WritesAreAppends(history, batch);
      assert Fresher(history, batch);
      AppendKeepsOrder(history, batch);
      AppendEnd(history, batch);
    }
  }

  /** The gap rule at its edges: with the history ending at `end`, a fresher
      bandwidth batch starting exactly ten minutes later, or 10m59.999s later,
      is merged; one starting eleven minutes later is refused; one that
      overlaps the history is merged. */
  lemma BandwidthGapEdges(end: int, cells: map<string, int>)
    ensures BandwidthStep([Row(end, cells)], [Row(end + 10 * MsPerMinute, cells)]).Write?
    ensures BandwidthStep([Row(end, cells)], [Row(end + 11 * MsPerMinute - 1, cells)]).Write?
    ensures BandwidthStep([Row(end, cells)], [Row(end + 11 * MsPerMinute, cells)]).Fail?
    ensures BandwidthStep([Row(end, cells)], [Row(end - MsPerMinute, cells), Row(end + MsPerMinute, cells)]).Write?
  {
  }

  /** The support gap rule at its edges: with the history ending at 07:00 of
      some day, a fresher batch ending at 07:00 two days later and starting
      1 day 23:59:59.999 after the history's end is merged; one starting two
      whole days after it is refused; one ending at 08:00 is ignored. */
  lemma SupportGapEdges(day: int, cells: map<string, int>)
    ensures var end := day * MsPerDay + 7 * MsPerHour;
            SupportStep([Row(end, cells)], [Row(end + 2 * MsPerDay - 1, cells), Row(end + 2 * MsPerDay, cells)]).Write?
    ensures var end := day * MsPerDay + 7 * MsPerHour;
            SupportStep([Row(end, cells)], [Row(end + 2 * MsPerDay, cells)]).Fail?
    ensures var end := day * MsPerDay + 7 * MsPerHour;
            SupportStep([Row(end, cells)], [Row(end + MsPerDay + MsPerHour, cells)]).Unchanged?
  {
    HourOfDayAt(day + 2, 7, 0);
    HourOfDayAt(day + 1, 8, 0);
  }
}
