/**
 * The two string operations the worker applies to version names: Python's
 * `s.split("-")` (with `[-1]` taking the last piece) and the substring test
 * `t in s`.
 */
module Text {

  /** The separator between the pieces of an installed version id, as in `fabric-loader-0.15.7-1.20.1`. */
  const Dash: char := '-'

  /**
   * `s.split("-")`: the maximal dash-free pieces of `s`, in order. Empty pieces
   * are kept, so there is always at least one piece and `"".split("-")` is `[""]`.
   */
  function Split(s: string): (r: seq<string>)
    ensures |r| >= 1
    ensures forall i :: 0 <= i < |r| ==> Dash !in r[i]
    decreases |s|
  {
    if |s| == 0 then [""]
    else
      var rest := Split(s[1..]);
      if s[0] == Dash then [""] + rest
      else [[s[0]] + rest[0]] + rest[1..]
  }

  /** `"-".join(parts)`. */
  function Join(parts: seq<string>): string
    requires |parts| >= 1
    decreases |parts|
  {
    if |parts| == 1 then parts[0] else parts[0] + [Dash] + Join(parts[1..])
  }

  /** `s.split("-")[-1]`: the piece after the last dash, or all of `s` when it has none. */
  function LastToken(s: string): (r: string)
    ensures Dash !in r
  {
    var parts := Split(s);
    parts[|parts| - 1]
  }

  /** Splitting loses nothing: joining the pieces back gives the original string. */
  lemma {:induction false} JoinSplit(s: string)
    ensures Join(Split(s)) == s
    decreases |s|
  {
    if |s| > 0 {
      var rest := Split(s[1..]);
      JoinSplit(s[1..]);
      if s[0] == Dash {
        assert Split(s) == [""] + rest;
        assert ([""] + rest)[1..] == rest;
        assert s == [s[0]] + s[1..];
      } else if |rest| == 1 {
        assert Split(s) == [[s[0]] + rest[0]];
        assert s == [s[0]] + s[1..];
      } else {
        var parts := Split(s);
        assert parts == [[s[0]] + rest[0]] + rest[1..];
        assert parts[1..] == rest[1..];
        assert Join(rest) == rest[0] + [Dash] + Join(rest[1..]);
        assert s == [s[0]] + s[1..];
      }
    }
  }

  /** A dash-free prefix glues onto the first piece of whatever follows it. */
  lemma {:induction false} SplitDashFreePrefix(w: string, s: string)
    requires Dash !in w
    ensures Split(w + s) == [w + Split(s)[0]] + Split(s)[1..]
    decreases |w|
  {
    if |w| > 0 {
      assert Dash !in w[1..];
      SplitDashFreePrefix(w[1..], s);
      assert (w + s)[1..] == w[1..] + s;
      assert (w + s)[0] == w[0];
      assert [w[0]] + (w[1..] + Split(s)[0]) == w + Split(s)[0];
    } else {
      assert w + s == s;
      assert w + Split(s)[0] == Split(s)[0];
      assert Split(s) == [Split(s)[0]] + Split(s)[1..];
    }
  }

  /** Joining dash-free pieces and splitting again gives the pieces back. */
  lemma {:induction false} SplitJoin(parts: seq<string>)
    requires |parts| >= 1
    requires forall i :: 0 <= i < |parts| ==> Dash !in parts[i]
    ensures Split(Join(parts)) == parts
    decreases |parts|
  {
    if |parts| == 1 {
      SplitDashFreePrefix(parts[0], "");
      assert parts[0] + "" == parts[0];
    } else {
      var tail := Join(parts[1..]);
      SplitJoin(parts[1..]);
      var dashed := [Dash] + tail;
      assert dashed[1..] == tail;
      assert Split(dashed) == [""] + parts[1..];
      assert Join(parts) == parts[0] + dashed;
      SplitDashFreePrefix(parts[0], dashed);
      assert parts[0] + "" == parts[0];
    }
  }

  /** How the last token of `s` relates to that of `s[1..]`. */
  lemma LastTokenStep(s: string)
    requires |s| > 0
    ensures s[0] == Dash || |Split(s[1..])| > 1 ==> LastToken(s) == LastToken(s[1..])
    ensures s[0] != Dash && |Split(s[1..])| == 1 ==> LastToken(s) == [s[0]] + Split(s[1..])[0]
  {
  }

  /** A string split into two or more pieces contains a dash. */
  lemma ManyPiecesHaveDash(s: string)
    requires |Split(s)| > 1
    ensures Dash in s
  {
  }

  /**
   * The last token is the suffix of `s` after its last dash: a dash-free suffix
   * that is either all of `s` or preceded by a dash.
   */
  lemma {:induction false} LastTokenIsFinalSuffix(s: string)
    ensures |LastToken(s)| <= |s|
    ensures s[|s| - |LastToken(s)|..] == LastToken(s)
    ensures Dash !in LastToken(s)
    ensures |LastToken(s)| < |s| ==> s[|s| - |LastToken(s)| - 1] == Dash
    decreases |s|
  {
    if |s| > 0 {
      var tail := s[1..];
      LastTokenIsFinalSuffix(tail);
      LastTokenStep(s);
      var t' := LastToken(tail);
      assert tail[|tail| - |t'|..] == s[|s| - |t'|..];
      if s[0] != Dash && |Split(tail)| == 1 {
        JoinSplit(tail);
        assert LastToken(s) == s;
      } else if s[0] != Dash {
        ManyPiecesHaveDash(tail);
        assert |t'| < |tail|;
        assert s[|s| - |t'| - 1] == tail[|tail| - |t'| - 1];
      }
    }
  }

  /** Conversely, whatever follows the last dash is the last token. */
  lemma {:induction false} LastTokenAfterDash(p: string, t: string)
    requires Dash !in t
    ensures |Split(p + [Dash] + t)| >= 2
    ensures LastToken(p + [Dash] + t) == t
    decreases |p|
  {
    var s := p + [Dash] + t;
    if |p| == 0 {
      assert s == [Dash] + t;
      assert s[1..] == t;
      SplitDashFreePrefix(t, "");
      assert t + "" == t;
      assert Split(s) == [""] + [t];
    } else {
      LastTokenAfterDash(p[1..], t);
      assert s[1..] == p[1..] + [Dash] + t;
    }
  }

  /** A string without a dash is its own last token. */
  lemma DashFreeIsLastToken(s: string)
    requires Dash !in s
    ensures LastToken(s) == s
  {
    SplitDashFreePrefix(s, "");
    assert s + "" == s;
  }

  /** `t` is a prefix of `s`. */
  predicate StartsWith(s: string, t: string) {
    |t| <= |s| && s[..|t|] == t
  }

  /** `t` occurs in `s` starting at offset `i`. */
  predicate OccursAt(s: string, t: string, i: nat) {
    i + |t| <= |s| && s[i..i + |t|] == t
  }

  /** Python's `t in s` on strings: it holds exactly when `t` occurs at some offset of `s`. */
  function Contains(s: string, t: string): (r: bool)
    ensures r <==> exists i: nat :: OccursAt(s, t, i)
    decreases |s|
  {
    OccursShift(s, t);
    StartsWith(s, t) || (|s| > 0 && Contains(s[1..], t))
  }

  /** An occurrence of `t` in `s` is either at offset 0 or an occurrence in the tail of `s`. */
  lemma OccursShift(s: string, t: string)
    ensures StartsWith(s, t) <==> OccursAt(s, t, 0)
    ensures (exists i: nat :: OccursAt(s, t, i)) <==>
              OccursAt(s, t, 0) || (|s| > 0 && exists i: nat :: OccursAt(s[1..], t, i))
  {
    if |s| > 0 {
      if exists i: nat :: OccursAt(s[1..], t, i) {
        var i: nat :| OccursAt(s[1..], t, i);
        assert s[1..][i..i + |t|] == s[i + 1..i + 1 + |t|];
        assert OccursAt(s, t, i + 1);
      }
      if exists i: nat :: OccursAt(s, t, i) {
        var i: nat :| OccursAt(s, t, i);
        if i > 0 {
          assert s[1..][i - 1..i - 1 + |t|] == s[i..i + |t|];
          assert OccursAt(s[1..], t, i - 1);
        }
      }
    } else if exists i: nat :: OccursAt(s, t, i) {
      var i: nat :| OccursAt(s, t, i);
      assert i == 0;
    }
  }

  /** A prefix none of whose characters starts `t` cannot host an occurrence of `t`. */
  lemma {:induction false} ContainsPastPrefix(p: string, s: string, t: string)
    requires |t| > 0
    requires forall i :: 0 <= i < |p| ==> p[i] != t[0]
    ensures Contains(p + s, t) <==> Contains(s, t)
    decreases |p|
  {
    if |p| > 0 {
      assert (p + s)[1..] == p[1..] + s;
      assert (p + s)[0] == p[0];
      ContainsPastPrefix(p[1..], s, t);
    } else {
      assert p + s == s;
    }
  }
}
