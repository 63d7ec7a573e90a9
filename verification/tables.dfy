/** Timestamp-indexed tables: the in-memory form of a parsed batch and of a
    persisted history file. A row holds one integer value per category that
    has an observation at that instant; a category absent from the row's map
    is a missing (NaN) cell. */
module Tables {

  datatype Row = Row(ts: int, cells: map<string, int>)

  type Table = seq<Row>

  /** The set of timestamps a table has rows for. */
  function Timestamps(t: Table): set<int>
  {
    set i | 0 <= i < |t| :: t[i].ts
  }

  /** Timestamps strictly increase from row to row (sorted, no duplicates). */
  ghost predicate Increasing(t: Table)
  {
    forall i, j :: 0 <= i < j < |t| ==> t[i].ts < t[j].ts
  }

  /** `df["Timestamp"].max()`: the latest timestamp of a non-empty table. */
  function MaxTs(t: Table): (m: int)
    requires |t| > 0
    ensures exists i :: 0 <= i < |t| && t[i].ts == m
    ensures forall i :: 0 <= i < |t| ==> t[i].ts <= m
  {
    if |t| == 1 then t[0].ts
    else
      var m' := MaxTs(t[..|t| - 1]);
      if t[|t| - 1].ts > m' then t[|t| - 1].ts else m'
  }

  /** `df["Timestamp"].min()`: the earliest timestamp of a non-empty table. */
  function MinTs(t: Table): (m: int)
    requires |t| > 0
    ensures exists i :: 0 <= i < |t| && t[i].ts == m
    ensures forall i :: 0 <= i < |t| ==> m <= t[i].ts
  {
    if |t| == 1 then t[0].ts
    else
      var m' := MinTs(t[..|t| - 1]);
      if t[|t| - 1].ts < m' then t[|t| - 1].ts else m'
  }

  /** On a sorted table the extremes are the first and the last row. */
  lemma ExtremesOfIncreasing(t: Table)
    requires |t| > 0 && Increasing(t)
    ensures MinTs(t) == t[0].ts
    ensures MaxTs(t) == t[|t| - 1].ts
  {
  }

  /** The latest timestamp of a concatenation is the later of the two ends. */
  lemma MaxOfConcat(a: Table, b: Table)
    requires |a| > 0 && |b| > 0
    ensures MaxTs(a + b) == if MaxTs(a) < MaxTs(b) then MaxTs(b) else MaxTs(a)
  {
    var m := MaxTs(a + b);
    var i :| 0 <= i < |a + b| && (a + b)[i].ts == m;
    var ia :| 0 <= ia < |a| && a[ia].ts == MaxTs(a);
    var ib :| 0 <= ib < |b| && b[ib].ts == MaxTs(b);
    assert (a + b)[ia].ts == MaxTs(a);
    assert (a + b)[|a| + ib].ts == MaxTs(b);
    if i < |a| {
      assert (a + b)[i] == a[i];
    } else {
      assert (a + b)[i] == b[i - |a|];
    }
  }

  /** The cells of the row stamped `ts` (the first such row), or the empty map
      when the table has no row at `ts`. */
  function CellsAt(t: Table, ts: int): (c: map<string, int>)
    ensures ts !in Timestamps(t) ==> c == map[]
  {
    if |t| == 0 then map[]
    else if t[0].ts == ts then t[0].cells
    else
      assert Timestamps(t[1..]) <= Timestamps(t) by {
        forall x | x in Timestamps(t[1..]) ensures x in Timestamps(t) {
          var j :| 0 <= j < |t[1..]| && t[1..][j].ts == x;
          assert t[j + 1].ts == x;
        }
      }
      CellsAt(t[1..], ts)
  }

  /** A one-row table. */
  lemma SingleRow(x: Row, ts: int)
    ensures Timestamps([x]) == {x.ts}
    ensures CellsAt([x], ts) == if ts == x.ts then x.cells else map[]
  {
    assert [x][0] == x && [x][1..] == [];
    assert x.ts in Timestamps([x]);
  }

  /** In a sorted table every row is the one `CellsAt` finds for its timestamp. */
  lemma {:induction false} CellsAtRow(t: Table, i: int)
    requires Increasing(t) && 0 <= i < |t|
    ensures CellsAt(t, t[i].ts) == t[i].cells
    decreases i
  {
    if i > 0 {
      assert t[0].ts != t[i].ts;
      assert t[1..][i - 1] == t[i];
      CellsAtRow(t[1..], i - 1);
    }
  }

  /** The rows of `t` stamped strictly after `bound`, in their original order:
      `df.loc[df["Timestamp"] > bound]`. */
  function KeepAfter(t: Table, bound: int): (r: Table)
    ensures forall row :: row in r <==> row in t && row.ts > bound
    ensures |r| <= |t|
    ensures (forall i :: 0 <= i < |t| ==> t[i].ts > bound) ==> r == t
    ensures (forall i :: 0 <= i < |t| ==> t[i].ts <= bound) ==> r == []
  {
    if |t| == 0 then []
    else
      var rest := KeepAfter(t[1..], bound);
      assert forall i :: 1 <= i < |t| ==> t[1..][i - 1] == t[i];
      if t[0].ts > bound then [t[0]] + rest else rest
  }

  /** On a sorted table the kept rows are a suffix, hence sorted too. */
  lemma {:induction false} KeepAfterSuffix(t: Table, bound: int)
    requires Increasing(t)
    ensures Increasing(KeepAfter(t, bound))
    ensures KeepAfter(t, bound) == t[|t| - |KeepAfter(t, bound)|..]
  {
    if |t| > 0 {
      KeepAfterSuffix(t[1..], bound);
      if t[0].ts > bound {
        assert forall i :: 0 <= i < |t| ==> t[i].ts > bound;
      }
    }
  }
}
