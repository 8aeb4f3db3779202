/**
 * The worker's progress registers. The installer reports through three
 * independent callbacks (`setStatus`, `setProgress`, `setMax`); each one
 * overwrites its own register and re-emits the whole
 * `(progress, max, status)` triple to the window.
 */
module Progress {

  /** The three registers, and the payload of every progress signal. */
  datatype Triple = Triple(progress: int, max: int, status: string)

  /** The registers before any callback: `progress = 0`, `progress_max = 0`, `progress_label = ""`. */
  const Initial: Triple := Triple(0, 0, "")

  /** One installer callback. */
  datatype Callback = SetStatus(text: string) | SetProgress(value: int) | SetMax(value: int)

  /** `update_progress_label`, `update_progress`, `update_progress_max`: the registers after one callback, which is also the triple it emits. */
  function Apply(s: Triple, c: Callback): (r: Triple)
    ensures r.status == (if c.SetStatus? then c.text else s.status)
    ensures r.progress == (if c.SetProgress? then c.value else s.progress)
    ensures r.max == (if c.SetMax? then c.value else s.max)
  {
    match c
    case SetStatus(text) => s.(status := text)
    case SetProgress(value) => s.(progress := value)
    case SetMax(value) => s.(max := value)
  }

  /**
   * The registers after a run of callbacks. Each register either still holds
   * its starting value or holds a value some callback of the run reported for it.
   */
  function Final(s: Triple, cs: seq<Callback>): (r: Triple)
    ensures r.status == s.status || exists i :: 0 <= i < |cs| && cs[i] == SetStatus(r.status)
    ensures r.progress == s.progress || exists i :: 0 <= i < |cs| && cs[i] == SetProgress(r.progress)
    ensures r.max == s.max || exists i :: 0 <= i < |cs| && cs[i] == SetMax(r.max)
    decreases |cs|
  {
    if |cs| == 0 then s
    else
      assert forall i :: 0 <= i < |cs| - 1 ==> cs[1..][i] == cs[i + 1];
      Final(Apply(s, cs[0]), cs[1..])
  }

  /**
   * The signals emitted for a run of callbacks: one triple per callback, in
   * order, the `k`-th being the registers right after callback `k`.
   */
  function Emissions(s: Triple, cs: seq<Callback>): (r: seq<Triple>)
    ensures |r| == |cs|
    ensures forall k :: 0 <= k < |cs| ==> r[k] == Final(s, cs[..k + 1])
    decreases |cs|
  {
    if |cs| == 0 then []
    else
      PrefixOfTail(cs);
      [Apply(s, cs[0])] + Emissions(Apply(s, cs[0]), cs[1..])
  }

  /** Dropping the head of a prefix is taking a prefix of the tail. */
  lemma PrefixOfTail(cs: seq<Callback>)
    requires |cs| > 0
    ensures forall k :: 0 <= k < |cs| ==> cs[..k + 1][1..] == cs[1..][..k]
  {
  }

  /** The last status text reported in `cs`, or `init` when none was. */
  function LastStatus(init: string, cs: seq<Callback>): string
    decreases |cs|
  {
    if |cs| == 0 then init
    else if cs[|cs| - 1].SetStatus? then cs[|cs| - 1].text
    else LastStatus(init, cs[..|cs| - 1])
  }

  /** The last progress value reported in `cs`, or `init` when none was. */
  function LastProgress(init: int, cs: seq<Callback>): int
    decreases |cs|
  {
    if |cs| == 0 then init
    else if cs[|cs| - 1].SetProgress? then cs[|cs| - 1].value
    else LastProgress(init, cs[..|cs| - 1])
  }

  /** The last maximum reported in `cs`, or `init` when none was. */
  function LastMax(init: int, cs: seq<Callback>): int
    decreases |cs|
  {
    if |cs| == 0 then init
    else if cs[|cs| - 1].SetMax? then cs[|cs| - 1].value
    else LastMax(init, cs[..|cs| - 1])
  }

  /** Each register holds the last value reported for it, whatever the other callbacks did. */
  function LastKnown(s: Triple, cs: seq<Callback>): Triple {
    Triple(LastProgress(s.progress, cs), LastMax(s.max, cs), LastStatus(s.status, cs))
  }

  /** Running one more callback extends the last-known registers by that callback. */
  lemma LastKnownSnoc(s: Triple, cs: seq<Callback>, c: Callback)
    ensures LastKnown(s, cs + [c]) == Apply(LastKnown(s, cs), c)
  {
  }

  /** The registers after any callbacks hold, in every field, the last value reported for it, or the starting value when none was. */
  lemma {:induction false} FinalIsLastKnown(s: Triple, cs: seq<Callback>)
    ensures Final(s, cs) == LastKnown(s, cs)
    decreases |cs|
  {
    if |cs| > 0 {
      var init := cs[..|cs| - 1];
      var c := cs[|cs| - 1];
      FinalSnoc(s, init, c);
      FinalIsLastKnown(s, init);
      LastKnownSnoc(s, init, c);
      assert init + [c] == cs;
    }
  }

  /** The registers after `cs + [c]` are those after `cs`, updated by `c`. */
  lemma {:induction false} FinalSnoc(s: Triple, cs: seq<Callback>, c: Callback)
    ensures Final(s, cs + [c]) == Apply(Final(s, cs), c)
    decreases |cs|
  {
    if |cs| == 0 {
      assert [c][1..] == [];
    } else {
      assert (cs + [c])[1..] == cs[1..] + [c];
      FinalSnoc(Apply(s, cs[0]), cs[1..], c);
    }
  }

  /** The `k`-th emitted triple carries, in every field, the last value reported up to and including callback `k`. */
  lemma {:induction false} EmissionsCarryLastKnown(s: Triple, cs: seq<Callback>, k: nat)
    requires k < |cs|
    ensures Emissions(s, cs)[k] == LastKnown(s, cs[..k + 1])
    decreases k
  {
    if k == 0 {
      LastKnownSnoc(s, [], cs[0]);
      assert cs[..1] == [] + [cs[0]];
    } else {
      EmissionsCarryLastKnown(Apply(s, cs[0]), cs[1..], k - 1);
      FinalIsLastKnown(Apply(s, cs[0]), cs[1..][..k]);
      FinalIsLastKnown(s, cs[..k + 1]);
      assert cs[..k + 1][1..] == cs[1..][..k];
    }
  }
}
