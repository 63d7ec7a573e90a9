/** Batch assembly: each `{label, data: [[ms, value], ...]}` series becomes a
    one-column table, the tables are outer-joined on the timestamp one after
    the other (`reduce(pd.merge(..., how="outer"), df_list)`) and the result is
    ordered by timestamp. */
module Assembly {
  import opened Tables
  import Text

  /** One `[epoch_ms, value]` pair of a series. */
  datatype Point = Point(ts: int, value: int)

  /** One series of a feed: a category label and its points. */
  datatype Series = Series(name: string, points: seq<Point>)

  /** No two points of a series share a timestamp. */
  ghost predicate DistinctTimes(ps: seq<Point>)
  {
    forall i, j :: 0 <= i < j < |ps| ==> ps[i].ts != ps[j].ts
  }

  /** The series can be joined column by column: distinct labels (pandas would
      otherwise rename clashing columns) and distinct timestamps within each
      series (pandas would otherwise multiply rows). */
  ghost predicate Joinable(ss: seq<Series>)
  {
    && (forall i, j :: 0 <= i < j < |ss| ==> ss[i].name != ss[j].name)
    && (forall i :: 0 <= i < |ss| ==> DistinctTimes(ss[i].points))
  }

  /** The timestamps of one series. */
  ghost function SeriesTimes(s: Series): set<int>
  {
    set p | p in s.points :: p.ts
  }

  /** Every timestamp of the first `n` series. */
  ghost function PointTimes(ss: seq<Series>, n: int): set<int>
    requires 0 <= n <= |ss|
  {
    if n == 0 then {} else PointTimes(ss, n - 1) + SeriesTimes(ss[n - 1])
  }

  /** The labels of the first `n` series. */
  ghost function Names(ss: seq<Series>, n: int): set<string>
    requires 0 <= n <= |ss|
  {
    if n == 0 then {} else Names(ss, n - 1) + {ss[n - 1].name}
  }

  /** A sorted table with `x` in front of a sorted table whose rows all come later. */
  lemma ConsIncreasing(x: Row, t: Table)
    requires Increasing(t)
    requires forall y :: y in Timestamps(t) ==> x.ts < y
    ensures Increasing([x] + t)
  {
    forall j | 0 <= j < |t| ensures x.ts < t[j].ts {
      assert t[j].ts in Timestamps(t);
    }
  }

  /** The timestamps of a table split into its first row and the rest. */
  lemma TimestampsCons(t: Table)
    requires |t| > 0
    ensures Timestamps(t) == {t[0].ts} + Timestamps(t[1..])
  {
    forall y | y in Timestamps(t) ensures y in {t[0].ts} + Timestamps(t[1..]) {
      var i :| 0 <= i < |t| && t[i].ts == y;
      if i > 0 {
        assert t[1..][i - 1].ts == y;
      }
    }
    forall y | y in Timestamps(t[1..]) ensures y in Timestamps(t) {
      var i :| 0 <= i < |t[1..]| && t[1..][i].ts == y;
      assert t[i + 1].ts == y;
    }
  }

  /** In a sorted table the first row comes before every other timestamp. */
  lemma FirstIsLeast(t: Table)
    requires |t| > 0 && Increasing(t)
    ensures forall y :: y in Timestamps(t[1..]) ==> t[0].ts < y
  {
    forall y | y in Timestamps(t[1..]) ensures t[0].ts < y {
      var i :| 0 <= i < |t[1..]| && t[1..][i].ts == y;
      assert t[i + 1].ts == y;
    }
  }

  /** Facts about a table with one more row in front. */
  lemma Prepend(x: Row, rest: Table)
    requires Increasing(rest)
    requires forall y :: y in Timestamps(rest) ==> x.ts < y
    ensures Increasing([x] + rest)
    ensures Timestamps([x] + rest) == {x.ts} + Timestamps(rest)
    ensures forall t :: CellsAt([x] + rest, t) == if t == x.ts then x.cells else CellsAt(rest, t)
  {
    ConsIncreasing(x, rest);
    TimestampsCons([x] + rest);
    assert ([x] + rest)[1..] == rest;
  }

  /** `pd.merge(a, b, on="Timestamp", how="outer")` on two sorted tables: one row
      per timestamp of either side, in ascending order (the cells are described
      by `OuterJoinCells`). */
  function OuterJoin(a: Table, b: Table): (r: Table)
    requires Increasing(a) && Increasing(b)
    ensures Increasing(r)
    ensures Timestamps(r) == Timestamps(a) + Timestamps(b)
    decreases |a| + |b|
  {
    if |a| == 0 then b
    else if |b| == 0 then a
    else
      TimestampsCons(a);
      TimestampsCons(b);
      FirstIsLeast(a);
      FirstIsLeast(b);
      if a[0].ts < b[0].ts then
        var rest := OuterJoin(a[1..], b);
        Prepend(a[0], rest);
        [a[0]] + rest
      else if b[0].ts < a[0].ts then
        var rest := OuterJoin(a, b[1..]);
        Prepend(b[0], rest);
        [b[0]] + rest
      else
        var rest := OuterJoin(a[1..], b[1..]);
        var x := Row(a[0].ts, a[0].cells + b[0].cells);
        Prepend(x, rest);
        [x] + rest
  }

  /** At every timestamp the joined row carries the cells of both sides; a side
      without that timestamp contributes only missing cells. */
  lemma {:induction false} OuterJoinCells(a: Table, b: Table, t: int)
    requires Increasing(a) && Increasing(b)
    ensures CellsAt(OuterJoin(a, b), t) == CellsAt(a, t) + CellsAt(b, t)
    decreases |a| + |b|
  {
    if |a| == 0 {
      assert CellsAt(b, t) == map[] + CellsAt(b, t);
    } else if |b| == 0 {
      assert CellsAt(a, t) == CellsAt(a, t) + map[];
    } else if a[0].ts < b[0].ts {
      OuterJoinCellsFirst(a, b, t);
    } else if b[0].ts < a[0].ts {
      OuterJoinCellsSecond(a, b, t);
    } else {
      OuterJoinCellsBoth(a, b, t);
    }
  }

  /** `OuterJoinCells` when the first row of `a` comes first. */
  lemma {:induction false} OuterJoinCellsFirst(a: Table, b: Table, t: int)
    requires Increasing(a) && Increasing(b) && |a| > 0 && |b| > 0 && a[0].ts < b[0].ts
    ensures CellsAt(OuterJoin(a, b), t) == CellsAt(a, t) + CellsAt(b, t)
    decreases |a| + |b|, 0
  {
    var rest := OuterJoin(a[1..], b);
    assert OuterJoin(a, b) == [a[0]] + rest;
    assert ([a[0]] + rest)[1..] == rest;
    if t != a[0].ts {
      assert CellsAt([a[0]] + rest, t) == CellsAt(rest, t);
      assert CellsAt(a, t) == CellsAt(a[1..], t);
      OuterJoinCells(a[1..], b, t);
    } else {
      TimestampsCons(b);
      FirstIsLeast(b);
      assert t !in Timestamps(b);
    }
  }

  /** `OuterJoinCells` when the first row of `b` comes first. */
  lemma {:induction false} OuterJoinCellsSecond(a: Table, b: Table, t: int)
    requires Increasing(a) && Increasing(b) && |a| > 0 && |b| > 0 && b[0].ts < a[0].ts
    ensures CellsAt(OuterJoin(a, b), t) == CellsAt(a, t) + CellsAt(b, t)
    decreases |a| + |b|, 0
  {
    var rest := OuterJoin(a, b[1..]);
    assert OuterJoin(a, b) == [b[0]] + rest;
    assert ([b[0]] + rest)[1..] == rest;
    if t != b[0].ts {
      assert CellsAt([b[0]] + rest, t) == CellsAt(rest, t);
      assert CellsAt(b, t) == CellsAt(b[1..], t);
      OuterJoinCells(a, b[1..], t);
    } else {
      TimestampsCons(a);
      FirstIsLeast(a);
      assert t !in Timestamps(a);
      assert CellsAt([b[0]] + rest, t) == b[0].cells == CellsAt(b, t);
      UnionEmptyLeft(CellsAt(b, t));
    }
  }

  /** `OuterJoinCells` when both tables start at the same timestamp. */
  lemma {:induction false} OuterJoinCellsBoth(a: Table, b: Table, t: int)
    requires Increasing(a) && Increasing(b) && |a| > 0 && |b| > 0 && a[0].ts == b[0].ts
    ensures CellsAt(OuterJoin(a, b), t) == CellsAt(a, t) + CellsAt(b, t)
    decreases |a| + |b|, 0
  {
    var rest := OuterJoin(a[1..], b[1..]);
    var x := Row(a[0].ts, a[0].cells + b[0].cells);
    assert OuterJoin(a, b) == [x] + rest;
    assert ([x] + rest)[1..] == rest;
    if t != a[0].ts {
      OuterJoinCells(a[1..], b[1..], t);
    }
  }

  /** The single-row table of one point of a series. */
  function PointRow(name: string, p: Point): Row
  {
    Row(p.ts, map[name := p.value])
  }

  /** The one-column table of a series, `pd.DataFrame({"Timestamp": ..., name: ...})`,
      kept in timestamp order: its timestamps are exactly the series' ones. */
  function SeriesTable(s: Series): (r: Table)
    requires DistinctTimes(s.points)
    ensures Increasing(r)
    ensures Timestamps(r) == SeriesTimes(s)
    decreases |s.points|
  {
    if |s.points| == 0 then []
    else
      var n := |s.points|;
      var prefix := Series(s.name, s.points[..n - 1]);
      var single := [PointRow(s.name, s.points[n - 1])];
      SingleRow(single[0], 0);
      assert s.points == prefix.points + [s.points[n - 1]];
      OuterJoin(SeriesTable(prefix), single)
  }

  /** The last point's timestamp is new to the table of the points before it. */
  lemma LastPointFresh(s: Series)
    requires DistinctTimes(s.points) && |s.points| > 0
    ensures s.points[|s.points| - 1].ts !in Timestamps(SeriesTable(Series(s.name, s.points[..|s.points| - 1])))
  {
    var n := |s.points|;
    var prefix := Series(s.name, s.points[..n - 1]);
    forall q | q in prefix.points ensures q.ts != s.points[n - 1].ts {
      var j :| 0 <= j < n - 1 && prefix.points[j] == q;
      assert s.points[j] == q;
    }
  }

  /** Each point of a series is the only cell of its row in the series' table. */
  lemma {:induction false} SeriesTablePoint(s: Series, p: Point)
    requires DistinctTimes(s.points) && p in s.points
    ensures CellsAt(SeriesTable(s), p.ts) == map[s.name := p.value]
    decreases |s.points|
  {
    var n := |s.points|;
    var last := s.points[n - 1];
    SeriesTableLastCells(s, p.ts);
    if p != last {
      SeriesTablePointEarlier(s, p);
      UnionEmptyLeft(CellsAt(SeriesTable(Series(s.name, s.points[..n - 1])), p.ts));
    } else {
      LastPointFresh(s);
      UnionEmptyLeft(map[s.name := p.value]);
    }
  }

  /** The cells of a series' table: those of the table of all points but the
      last, plus the last point's cell at its own timestamp. */
  lemma SeriesTableLastCells(s: Series, t: int)
    requires DistinctTimes(s.points) && |s.points| > 0
    ensures var n := |s.points|;
            CellsAt(SeriesTable(s), t) ==
              CellsAt(SeriesTable(Series(s.name, s.points[..n - 1])), t)
              + (if t == s.points[n - 1].ts then map[s.name := s.points[n - 1].value] else map[])
  {
    var n := |s.points|;
    var single := [PointRow(s.name, s.points[n - 1])];
    var prev := SeriesTable(Series(s.name, s.points[..n - 1]));
    assert SeriesTable(s) == OuterJoin(prev, single);
    OuterJoinCells(prev, single, t);
    SingleRow(single[0], t);
  }

  /** `SeriesTablePoint` for a point before the last one. */
  lemma {:induction false} SeriesTablePointEarlier(s: Series, p: Point)
    requires DistinctTimes(s.points) && p in s.points && p != s.points[|s.points| - 1]
    ensures CellsAt(SeriesTable(Series(s.name, s.points[..|s.points| - 1])), p.ts) == map[s.name := p.value]
    ensures p.ts != s.points[|s.points| - 1].ts
    decreases |s.points|, 0
  {
    var n := |s.points|;
    var prefix := Series(s.name, s.points[..n - 1]);
    var i :| 0 <= i < n && s.points[i] == p;
    assert i < n - 1;
    assert prefix.points[i] == p;
    assert s.points[i].ts != s.points[n - 1].ts;
    assert DistinctTimes(prefix.points) by {
      forall a, b | 0 <= a < b < n - 1 ensures prefix.points[a].ts != prefix.points[b].ts {
        assert prefix.points[a] == s.points[a] && prefix.points[b] == s.points[b];
      }
    }
    SeriesTablePoint(prefix, p);
  }

  lemma UnionEmptyLeft(m: map<string, int>)
    ensures map[] + m == m && m + map[] == m
  {
  }

  /** A one-column table has cells for its own category only, and each such
      cell is a point of the series. */
  lemma SeriesTableCell(s: Series, t: int)
    requires DistinctTimes(s.points)
    ensures CellsAt(SeriesTable(s), t).Keys <= {s.name}
    ensures s.name in CellsAt(SeriesTable(s), t) ==>
              Point(t, CellsAt(SeriesTable(s), t)[s.name]) in s.points
  {
    var col := SeriesTable(s);
    if t in Timestamps(col) {
      var p :| p in s.points && p.ts == t;
      SeriesTablePoint(s, p);
    }
  }

  /** `reduce(outer_merge, [SeriesTable(ss[0]), ..., SeriesTable(ss[n-1])])`:
      its timestamps are those of all points of the first `n` series. */
  function JoinFirst(ss: seq<Series>, n: int): (r: Table)
    requires Joinable(ss) && 1 <= n <= |ss|
    ensures Increasing(r)
    ensures Timestamps(r) == PointTimes(ss, n)
  {
    if n == 1 then
      SeriesTable(ss[0])
    else
      OuterJoin(JoinFirst(ss, n - 1), SeriesTable(ss[n - 1]))
  }

  /** The join has cells for the categories of the first `n` series only. */
  lemma {:induction false} JoinFirstKeys(ss: seq<Series>, n: int, t: int)
    requires Joinable(ss) && 1 <= n <= |ss|
    ensures CellsAt(JoinFirst(ss, n), t).Keys <= Names(ss, n)
  {
    var s := ss[n - 1];
    SeriesTableCell(s, t);
    if n > 1 {
      JoinFirstKeys(ss, n - 1, t);
      OuterJoinCells(JoinFirst(ss, n - 1), SeriesTable(s), t);
    }
  }

  /** The cells of the join at any timestamp: each category of the first `n`
      series holds that series' point at the timestamp, and there is a cell for
      every such point. */
  lemma JoinFirstCells(ss: seq<Series>, n: int, t: int)
    requires Joinable(ss) && 1 <= n <= |ss|
    ensures forall k :: 0 <= k < n && ss[k].name in CellsAt(JoinFirst(ss, n), t) ==>
              Point(t, CellsAt(JoinFirst(ss, n), t)[ss[k].name]) in ss[k].points
    ensures forall k, p :: 0 <= k < n && p in ss[k].points && p.ts == t ==>
              ss[k].name in CellsAt(JoinFirst(ss, n), t) && CellsAt(JoinFirst(ss, n), t)[ss[k].name] == p.value
  {
    JoinFirstSound(ss, n, t);
    JoinFirstComplete(ss, n, t);
  }

  /** Every cell of the join is a point of the series it is labelled with. */
  lemma {:induction false} JoinFirstSound(ss: seq<Series>, n: int, t: int)
    requires Joinable(ss) && 1 <= n <= |ss|
    ensures forall k :: 0 <= k < n && ss[k].name in CellsAt(JoinFirst(ss, n), t) ==>
              Point(t, CellsAt(JoinFirst(ss, n), t)[ss[k].name]) in ss[k].points
  {
    ColumnCells(ss[n - 1], t);
    if n > 1 {
      JoinFirstSound(ss, n - 1, t);
      JoinStepCells(ss, n, t);
      JoinFirstKeys(ss, n - 1, t);
      SoundStep(ss, n, t, CellsAt(JoinFirst(ss, n - 1), t), CellsAt(SeriesTable(ss[n - 1]), t), CellsAt(JoinFirst(ss, n), t));
    }
  }

  /** Every point of the first `n` series has its cell in the join. */
  lemma {:induction false} JoinFirstComplete(ss: seq<Series>, n: int, t: int)
    requires Joinable(ss) && 1 <= n <= |ss|
    ensures forall k, p :: 0 <= k < n && p in ss[k].points && p.ts == t ==>
              ss[k].name in CellsAt(JoinFirst(ss, n), t) && CellsAt(JoinFirst(ss, n), t)[ss[k].name] == p.value
  {
    ColumnCells(ss[n - 1], t);
    if n > 1 {
      JoinFirstComplete(ss, n - 1, t);
      JoinStepCells(ss, n, t);
      JoinFirstKeys(ss, n - 1, t);
      CompleteStep(ss, n, t, CellsAt(JoinFirst(ss, n - 1), t), CellsAt(SeriesTable(ss[n - 1]), t), CellsAt(JoinFirst(ss, n), t));
    }
  }

  /** Joining series `n - 1` adds its column's cells to the earlier ones. */
  lemma JoinStepCells(ss: seq<Series>, n: int, t: int)
    requires Joinable(ss) && 2 <= n <= |ss|
    ensures CellsAt(JoinFirst(ss, n), t) == CellsAt(JoinFirst(ss, n - 1), t) + CellsAt(SeriesTable(ss[n - 1]), t)
  {
    OuterJoinCells(JoinFirst(ss, n - 1), SeriesTable(ss[n - 1]), t);
  }

  /** The cells of a one-column table at `t`: its own category only, holding
      the point at `t` when there is one. */
  lemma ColumnCells(s: Series, t: int)
    requires DistinctTimes(s.points)
    ensures CellsAt(SeriesTable(s), t).Keys <= {s.name}
    ensures s.name in CellsAt(SeriesTable(s), t) ==> Point(t, CellsAt(SeriesTable(s), t)[s.name]) in s.points
    ensures forall p :: p in s.points && p.ts == t ==> CellsAt(SeriesTable(s), t) == map[s.name := p.value]
  {
    SeriesTableCell(s, t);
    forall p | p in s.points && p.ts == t ensures CellsAt(SeriesTable(s), t) == map[s.name := p.value] {
      SeriesTablePoint(s, p);
    }
  }

  /** One step of `JoinFirstSound`: the cells after joining series `n - 1`
      from the cells before (`pc`) and the cells of its own column (`cc`). */
  lemma SoundStep(ss: seq<Series>, n: int, t: int, pc: map<string, int>, cc: map<string, int>, c: map<string, int>)
    requires Joinable(ss) && 2 <= n <= |ss|
    requires c == pc + cc
    requires pc.Keys <= Names(ss, n - 1)
    requires cc.Keys <= {ss[n - 1].name}
    requires ss[n - 1].name in cc ==> Point(t, cc[ss[n - 1].name]) in ss[n - 1].points
    requires forall k :: 0 <= k < n - 1 && ss[k].name in pc ==> Point(t, pc[ss[k].name]) in ss[k].points
    ensures forall k :: 0 <= k < n && ss[k].name in c ==> Point(t, c[ss[k].name]) in ss[k].points
  {
    var name := ss[n - 1].name;
    NewNameFresh(ss, n);
    UnionOwnColumn(pc, cc, name, name);
    forall k | 0 <= k < n - 1
      ensures (ss[k].name in c <==> ss[k].name in pc)
      ensures ss[k].name in pc ==> c[ss[k].name] == pc[ss[k].name]
    {
      UnionOwnColumn(pc, cc, name, ss[k].name);
    }
  }

  /** One step of `JoinFirstComplete`, in the terms of `SoundStep`. */
  lemma CompleteStep(ss: seq<Series>, n: int, t: int, pc: map<string, int>, cc: map<string, int>, c: map<string, int>)
    requires Joinable(ss) && 2 <= n <= |ss|
    requires c == pc + cc
    requires pc.Keys <= Names(ss, n - 1)
    requires cc.Keys <= {ss[n - 1].name}
    requires forall p :: p in ss[n - 1].points && p.ts == t ==> cc == map[ss[n - 1].name := p.value]
    requires forall k, p :: 0 <= k < n - 1 && p in ss[k].points && p.ts == t ==>
               ss[k].name in pc && pc[ss[k].name] == p.value
    ensures forall k, p :: 0 <= k < n && p in ss[k].points && p.ts == t ==>
              ss[k].name in c && c[ss[k].name] == p.value
  {
    var name := ss[n - 1].name;
    NewNameFresh(ss, n);
    UnionOwnColumn(pc, cc, name, name);
    forall k | 0 <= k < n - 1
      ensures (ss[k].name in c <==> ss[k].name in pc)
      ensures ss[k].name in pc ==> c[ss[k].name] == pc[ss[k].name]
    {
      UnionOwnColumn(pc, cc, name, ss[k].name);
    }
  }

  /** The label of series `n - 1` is not among the earlier labels. */
  lemma NewNameFresh(ss: seq<Series>, n: int)
    requires Joinable(ss) && 1 <= n <= |ss|
    ensures ss[n - 1].name !in Names(ss, n - 1)
  {
    NamesMembers(ss, n - 1);
  }

  /** The labels of the first `n` series are exactly theirs. */
  lemma {:induction false} NamesMembers(ss: seq<Series>, n: int)
    requires 0 <= n <= |ss|
    ensures forall x :: x in Names(ss, n) <==> exists k :: 0 <= k < n && ss[k].name == x
  {
    if n > 0 {
      NamesMembers(ss, n - 1);
    }
  }

  /** The timestamps of the first `n` series are exactly their points' ones. */
  lemma {:induction false} PointTimesMembers(ss: seq<Series>, n: int)
    requires 0 <= n <= |ss|
    ensures forall t :: t in PointTimes(ss, n) <==> exists k, p :: 0 <= k < n && p in ss[k].points && p.ts == t
  {
    if n > 0 {
      PointTimesMembers(ss, n - 1);
    }
  }

  /** Joining a column that holds at most the category `name` onto a table
      without that category leaves the other categories as they were and adds
      the column's own cell. */
  lemma UnionOwnColumn(pc: map<string, int>, cc: map<string, int>, name: string, key: string)
    requires cc.Keys <= {name} && name !in pc
    ensures key != name ==> (key in pc + cc <==> key in pc) && (key in pc ==> (pc + cc)[key] == pc[key])
    ensures key == name ==> (key in pc + cc <==> key in cc) && (key in cc ==> (pc + cc)[key] == cc[key])
  {
  }

  /** Some series has at least one point. */
  ghost predicate HasPoint(ss: seq<Series>)
  {
    exists k, p :: 0 <= k < |ss| && p in ss[k].points
  }

  /** A parsed batch: the outer join of all series' one-column tables, in
      ascending timestamp order. Its timestamps are exactly those of all the
      series, each once; its cells are described by `AssembleCells`. */
  function Assemble(ss: seq<Series>): (r: Table)
    requires |ss| > 0 && Joinable(ss)
    ensures Increasing(r)
    ensures Timestamps(r) == PointTimes(ss, |ss|)
    ensures |r| > 0 <==> HasPoint(ss)
  {
    var r := JoinFirst(ss, |ss|);
    PointTimesMembers(ss, |ss|);
    assert HasPoint(ss) ==> |r| > 0 by {
      if HasPoint(ss) {
        var k, p :| 0 <= k < |ss| && p in ss[k].points;
        assert p.ts in Timestamps(r);
      }
    }
    assert |r| > 0 ==> HasPoint(ss) by {
      if |r| > 0 {
        assert r[0].ts in PointTimes(ss, |ss|);
      }
    }
    r
  }

  /** The cells of the assembled table: only the series' categories appear,
      a category has a value at a row exactly when its series has a point at
      that row's timestamp, and the value is the point's. */
  lemma AssembleCells(ss: seq<Series>)
    requires |ss| > 0 && Joinable(ss)
    ensures var r := Assemble(ss);
            forall i :: 0 <= i < |r| ==> r[i].cells.Keys <= Names(ss, |ss|)
    ensures var r := Assemble(ss);
            forall i, k :: 0 <= i < |r| && 0 <= k < |ss| && ss[k].name in r[i].cells ==>
              Point(r[i].ts, r[i].cells[ss[k].name]) in ss[k].points
    ensures var r := Assemble(ss);
            forall i, k, p :: 0 <= i < |r| && 0 <= k < |ss| && p in ss[k].points && p.ts == r[i].ts ==>
              ss[k].name in r[i].cells && r[i].cells[ss[k].name] == p.value
  {
    var r := Assemble(ss);
    assert r == JoinFirst(ss, |ss|);
    forall i | 0 <= i < |r|
      ensures r[i].cells.Keys <= Names(ss, |ss|)
      ensures forall k :: 0 <= k < |ss| && ss[k].name in r[i].cells ==>
                Point(r[i].ts, r[i].cells[ss[k].name]) in ss[k].points
      ensures forall k, p :: 0 <= k < |ss| && p in ss[k].points && p.ts == r[i].ts ==>
                ss[k].name in r[i].cells && r[i].cells[ss[k].name] == p.value
    {
      CellsAtRow(r, i);
      JoinFirstKeys(ss, |ss|, r[i].ts);
      JoinFirstCells(ss, |ss|, r[i].ts);
    }
  }

  /** Support series get their category from the label (`Text.SupportCategory`)
      before they are assembled. */
  function SupportSeries(ss: seq<Series>): (r: seq<Series>)
    ensures |r| == |ss|
    ensures forall i :: 0 <= i < |ss| ==>
              r[i].points == ss[i].points && r[i].name == Text.SupportCategory(ss[i].name)
  {
    seq(|ss|, i requires 0 <= i < |ss| => Series(Text.SupportCategory(ss[i].name), ss[i].points))
  }
}
