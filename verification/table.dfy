/**
 * Rows of a sqlite table as an immutable sequence, and the lookup the launcher
 * performs on every table: `SELECT * FROM t WHERE col = ?` followed by
 * `fetchone()`, which yields the first matching row in storage order.
 */
module Table {
  import opened Common

  /** Index of the first row whose key column equals `k`, or None when no row has it. */
  function FindFirst<R>(rows: seq<R>, key: R -> string, k: string): (r: Option<nat>)
    ensures r.Some? ==> r.value < |rows| && key(rows[r.value]) == k
    ensures r.Some? ==> forall j :: 0 <= j < r.value ==> key(rows[j]) != k
    ensures r.None? <==> forall j :: 0 <= j < |rows| ==> key(rows[j]) != k
    decreases |rows|
  {
    if |rows| == 0 then None
    else if key(rows[0]) == k then Some(0)
    else
      match FindFirst(rows[1..], key, k)
      case None => None
      case Some(i) => Some(i + 1)
  }

  /** Some row carries key `k`. */
  ghost predicate HasKey<R>(rows: seq<R>, key: R -> string, k: string) {
    exists i :: 0 <= i < |rows| && key(rows[i]) == k
  }

  /** No two rows share a key: the uniqueness the launcher's tables rely on. */
  ghost predicate UniqueKeys<R>(rows: seq<R>, key: R -> string) {
    forall i, j :: 0 <= i < j < |rows| ==> key(rows[i]) != key(rows[j])
  }

  /** Number of rows carrying key `k`. */
  function KeyCount<R>(rows: seq<R>, key: R -> string, k: string): nat
    decreases |rows|
  {
    if |rows| == 0 then 0
    else KeyCount(rows[..|rows| - 1], key, k) + (if key(rows[|rows| - 1]) == k then 1 else 0)
  }

  /** A key is counted zero times exactly when no row carries it. */
  lemma {:induction false} KeyCountZero<R>(rows: seq<R>, key: R -> string, k: string)
    ensures KeyCount(rows, key, k) == 0 <==> !HasKey(rows, key, k)
    decreases |rows|
  {
    if |rows| > 0 {
      var init := rows[..|rows| - 1];
      KeyCountZero(init, key, k);
      if HasKey(init, key, k) {
        var i :| 0 <= i < |init| && key(init[i]) == k;
        assert key(rows[i]) == k;
      }
      if HasKey(rows, key, k) && key(rows[|rows| - 1]) != k {
        var i :| 0 <= i < |rows| && key(rows[i]) == k;
        assert key(init[i]) == k;
      }
    }
  }

  /** Two tables whose rows carry the same keys, position by position, count every key alike. */
  lemma {:induction false} KeyCountSameKeys<R>(a: seq<R>, b: seq<R>, key: R -> string, k: string)
    requires |a| == |b|
    requires forall i :: 0 <= i < |a| ==> key(a[i]) == key(b[i])
    ensures KeyCount(a, key, k) == KeyCount(b, key, k)
    decreases |a|
  {
    if |a| > 0 {
      KeyCountSameKeys(a[..|a| - 1], b[..|b| - 1], key, k);
    }
  }
}
