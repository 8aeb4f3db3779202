/**
 * The launch counter kept in `stats(version TEXT, launches INTEGER)`: the
 * first launch of a version label inserts `(label, 1)`, every later launch
 * runs `UPDATE stats SET launches = launches + 1 WHERE version = ?`.
 */
module Stats {
  import opened Common
  import Table

  /** One row of the stats table. */
  datatype StatRow = StatRow(version: string, launches: int)

  /** The key column of the stats table. */
  function VersionOf(s: StatRow): string { s.version }

  /** One row under `SET launches = launches + 1 WHERE version = name`. */
  function BumpRow(row: StatRow, name: string): StatRow {
    if row.version == name then row.(launches := row.launches + 1) else row
  }

  /** The whole `UPDATE`: applied to every row, in place. */
  function Bump(rows: seq<StatRow>, name: string): (r: seq<StatRow>)
    ensures |r| == |rows|
    ensures forall i :: 0 <= i < |rows| ==> r[i] == BumpRow(rows[i], name)
    decreases |rows|
  {
    if |rows| == 0 then [] else [BumpRow(rows[0], name)] + Bump(rows[1..], name)
  }

  /**
   * Record one launch of `name`: insert when the lookup finds nothing, otherwise
   * update. The first launch of a label appends `(label, 1)`; a later one keeps
   * every row's label, raises each row of that label by exactly one and leaves
   * every other row alone.
   */
  function RecordLaunch(rows: seq<StatRow>, name: string): (r: seq<StatRow>)
    ensures !Table.HasKey(rows, VersionOf, name) ==> r == rows + [StatRow(name, 1)]
    ensures Table.HasKey(rows, VersionOf, name) ==>
              && |r| == |rows|
              && forall i :: 0 <= i < |rows| ==>
                   && r[i].version == rows[i].version
                   && (rows[i].version == name ==> r[i].launches == rows[i].launches + 1)
                   && (rows[i].version != name ==> r[i] == rows[i])
  {
    match Table.FindFirst(rows, VersionOf, name)
    case None => rows + [StatRow(name, 1)]
    case Some(_) => Bump(rows, name)
  }

  /** The launch count `fetchone()` reads for a label, if it has a row. */
  function Launches(rows: seq<StatRow>, name: string): Option<int> {
    match Table.FindFirst(rows, VersionOf, name)
    case None => None
    case Some(i) => Some(rows[i].launches)
  }

  /** The count after `n` more launches: `n` for a label without a row, `c + n` for one at `c`. */
  function After(count: Option<int>, n: nat): Option<int> {
    match count
    case None => Some(n)
    case Some(c) => Some(c + n)
  }

  /** `n` launches of the same label in a row. */
  function LaunchTimes(rows: seq<StatRow>, name: string, n: nat): seq<StatRow>
    decreases n
  {
    if n == 0 then rows else RecordLaunch(LaunchTimes(rows, name, n - 1), name)
  }

  /** Lookups agree on tables whose rows carry the same keys, position by position. */
  lemma FindFirstSameKeys(a: seq<StatRow>, b: seq<StatRow>, name: string)
    requires |a| == |b|
    requires forall i :: 0 <= i < |a| ==> a[i].version == b[i].version
    ensures Table.FindFirst(a, VersionOf, name) == Table.FindFirst(b, VersionOf, name)
  {
    var fa := Table.FindFirst(a, VersionOf, name);
    var fb := Table.FindFirst(b, VersionOf, name);
    if fa.Some? {
      assert VersionOf(b[fa.value]) == name;
    }
    if fb.Some? {
      assert VersionOf(a[fb.value]) == name;
    }
  }

  /** A launch starts an unseen label at 1 and raises a seen one by exactly 1. */
  lemma RecordLaunchCounts(rows: seq<StatRow>, name: string)
    ensures Launches(RecordLaunch(rows, name), name) == After(Launches(rows, name), 1)
  {
    if Table.FindFirst(rows, VersionOf, name).Some? {
      BumpCounts(rows, name);
    } else {
      InsertCounts(rows, name);
    }
  }

  /** Of two tables with the same labels in the same places, the one whose first row of the label has one more launch reads one more. */
  lemma LaunchesOneMore(a: seq<StatRow>, b: seq<StatRow>, name: string, i: nat)
    requires |a| == |b|
    requires forall j :: 0 <= j < |a| ==> a[j].version == b[j].version
    requires Table.FindFirst(a, VersionOf, name) == Some(i)
    requires i < |a| && b[i].launches == a[i].launches + 1
    ensures Launches(b, name) == After(Launches(a, name), 1)
  {
    FindFirstSameKeys(a, b, name);
  }

  /** The update raises the first row of the label, which stays the first. */
  lemma BumpCounts(rows: seq<StatRow>, name: string)
    requires Table.FindFirst(rows, VersionOf, name).Some?
    ensures Launches(Bump(rows, name), name) == After(Launches(rows, name), 1)
  {
    var i := Table.FindFirst(rows, VersionOf, name).value;
    var r := Bump(rows, name);
    assert VersionOf(rows[i]) == name;
    assert r[i] == BumpRow(rows[i], name);
    LaunchesOneMore(rows, r, name, i);
  }

  /** The inserted row is the first, and only, row of a label that had none. */
  lemma InsertCounts(rows: seq<StatRow>, name: string)
    requires Table.FindFirst(rows, VersionOf, name).None?
    ensures Launches(rows + [StatRow(name, 1)], name) == Some(1)
  {
    var r := rows + [StatRow(name, 1)];
    assert VersionOf(r[|rows|]) == name;
    assert Table.FindFirst(r, VersionOf, name) == Some(|rows|);
  }

  /** A launch of one label leaves every other label's count as it was. */
  lemma RecordLaunchOtherLabels(rows: seq<StatRow>, name: string, other: string)
    requires other != name
    ensures Launches(RecordLaunch(rows, name), other) == Launches(rows, other)
  {
    var r := RecordLaunch(rows, name);
    var f := Table.FindFirst(rows, VersionOf, other);
    if Table.HasKey(rows, VersionOf, name) {
      FindFirstSameKeys(rows, r, other);
      if f.Some? {
        assert r[f.value] == rows[f.value];
      }
    } else {
      var g := Table.FindFirst(r, VersionOf, other);
      if f.Some? {
        assert VersionOf(r[f.value]) == other;
      }
      if g.Some? {
        assert VersionOf(rows[g.value]) == other;
      }
    }
  }

  /** One more launch in a series raises the label's count by one. */
  lemma LaunchTimesStep(rows: seq<StatRow>, name: string, n: nat)
    ensures Launches(LaunchTimes(rows, name, n + 1), name) == After(Launches(LaunchTimes(rows, name, n), name), 1)
  {
    RecordLaunchCounts(LaunchTimes(rows, name, n), name);
  }

  /** Two series of launches add up. */
  lemma AfterAfter(count: Option<int>, a: nat, b: nat)
    requires a > 0
    ensures After(After(count, a), b) == After(count, a + b)
  {
  }

  /** Carrying a count of `n - 1` launches through one more launch gives a count of `n`. */
  lemma OneMoreLaunch(rows: seq<StatRow>, name: string, n: nat, before: Option<int>)
    requires n > 1
    requires Launches(LaunchTimes(rows, name, n - 1), name) == After(before, n - 1)
    ensures Launches(LaunchTimes(rows, name, n), name) == After(before, n)
  {
    LaunchTimesStep(rows, name, n - 1);
    AfterAfter(before, n - 1, 1);
  }

  /** After the first launch and `n - 1` more, an unseen label counts `n`; a seen one counts `n` more. */
  lemma {:induction false} RepeatedLaunches(rows: seq<StatRow>, name: string, n: nat)
    requires n > 0
    ensures Launches(LaunchTimes(rows, name, n), name) == After(Launches(rows, name), n)
    decreases n
  {
    if n == 1 {
      LaunchTimesStep(rows, name, 0);
      assert LaunchTimes(rows, name, 0) == rows;
    } else {
      RepeatedLaunches(rows, name, n - 1);
      OneMoreLaunch(rows, name, n, Launches(rows, name));
    }
  }

  /** A launch adds a row for its label only when there was none, and never touches other labels' rows. */
  lemma {:induction false} RecordLaunchRowCounts(rows: seq<StatRow>, name: string, k: string)
    ensures var c := Table.KeyCount(rows, VersionOf, k);
      Table.KeyCount(RecordLaunch(rows, name), VersionOf, k) ==
        if k == name && c == 0 then 1 else c
  {
    var r := RecordLaunch(rows, name);
    Table.KeyCountZero(rows, VersionOf, name);
    if Table.HasKey(rows, VersionOf, name) {
      Table.KeyCountSameKeys(rows, r, VersionOf, k);
    } else {
      assert r[..|r| - 1] == rows;
    }
  }

  /** At most one row per label is kept by every launch. */
  lemma RecordLaunchKeepsUnique(rows: seq<StatRow>, name: string)
    requires Table.UniqueKeys(rows, VersionOf)
    ensures Table.UniqueKeys(RecordLaunch(rows, name), VersionOf)
  {
  }
}
