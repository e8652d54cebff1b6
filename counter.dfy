/** The edge-triggered people counter kept by `main` in
    sistema-contagem-pessoas/main.py (`contador_pessoas` and `liberado`).

    The counter is armed at the start. On a frame with `n > 0` surviving
    boxes while armed, it adds `n` and disarms; a frame with no box re-arms
    it; an occupied frame while disarmed changes nothing. It therefore counts
    occupancy episodes, each weighted by the box count of its first frame. */
module Counter {

  /** The counter's two variables: the running total and the armed flag. */
  datatype CounterState = CounterState(count: nat, armed: bool)

  /** The state before any frame: total 0, armed. */
  const Initial := CounterState(0, true)

  /** One frame with `n` surviving boxes. */
  function Step(s: CounterState, n: nat): (t: CounterState)
    ensures t.armed <==> n == 0
    ensures s.count <= t.count
    ensures t.count != s.count <==> s.armed && n > 0
    ensures t.count != s.count ==> t.count == s.count + n
  {
    if n > 0 && s.armed then CounterState(s.count + n, false)
    else if n == 0 then CounterState(s.count, true)
    else s
  }

  /** The state after the frames whose box counts are `counts`, in order. */
  function Run(counts: seq<nat>): CounterState
  {
    if |counts| == 0 then Initial
    else Step(Run(counts[..|counts| - 1]), counts[|counts| - 1])
  }

  /** After any run the counter is armed exactly when no frame was seen yet
      or the last frame had no box. */
  lemma RunArmed(counts: seq<nat>)
    ensures Run(counts).armed <==> (|counts| == 0 || counts[|counts| - 1] == 0)
  {
  }

  /** Frame `k` opens an occupancy episode: it has boxes and is the first
      frame or follows an empty one. Its weight is its box count, else 0. */
  function Onset(counts: seq<nat>, k: nat): nat
    requires k < |counts|
  {
    if counts[k] > 0 && (k == 0 || counts[k - 1] == 0) then counts[k] else 0
  }

  /** Sum of the onset weights of the first `n` frames: an independent
      statement of what the counter should show after them. */
  function OnsetSum(counts: seq<nat>, n: nat): nat
    requires n <= |counts|
  {
    if n == 0 then 0 else OnsetSum(counts, n - 1) + Onset(counts, n - 1)
  }

  /** The total shown after a run is the sum, over the episodes of the run,
      of each episode's first box count. */
  lemma {:induction false} RunCountIsOnsetSum(counts: seq<nat>)
    ensures Run(counts).count == OnsetSum(counts, |counts|)
  {
    if |counts| > 0 {
      var n := |counts|;
      var prefix := counts[..n - 1];
      RunCountIsOnsetSum(prefix);
      OnsetSumPrefix(counts, prefix, n - 1);
      assert prefix == [] || prefix[|prefix| - 1] == counts[n - 2];
    }
  }

  /** `OnsetSum` over the first `n` frames depends only on those frames. */
  lemma {:induction false} OnsetSumPrefix(counts: seq<nat>, prefix: seq<nat>, n: nat)
    requires n <= |prefix| <= |counts|
    requires prefix == counts[..|prefix|]
    ensures OnsetSum(prefix, n) == OnsetSum(counts, n)
  {
    if n > 0 {
      OnsetSumPrefix(counts, prefix, n - 1);
    }
  }

  /** The total never decreases: after any prefix of a run it is at most the
      total after the whole run. */
  lemma {:induction false} RunMonotone(counts: seq<nat>, m: nat)
    requires m <= |counts|
    ensures Run(counts[..m]).count <= Run(counts).count
  {
    if m < |counts| {
      var prefix := counts[..|counts| - 1];
      assert prefix[..m] == counts[..m];
      RunMonotone(prefix, m);
    } else {
      assert counts[..m] == counts;
    }
  }

  /** Once occupied, further occupied frames change nothing: the total does
      not grow again until an empty frame re-arms the counter. */
  lemma {:induction false} OccupiedFramesAddNothing(prefix: seq<nat>, more: seq<nat>)
    requires |prefix| > 0 && prefix[|prefix| - 1] > 0
    requires forall k :: 0 <= k < |more| ==> more[k] > 0
    ensures Run(prefix + more) == Run(prefix)
  {
    if |more| > 0 {
      var shorter := more[..|more| - 1];
      assert (prefix + more)[..|prefix + more| - 1] == prefix + shorter;
      OccupiedFramesAddNothing(prefix, shorter);
    } else {
      assert prefix + more == prefix;
    }
  }

  /** The total displayed after each frame of a run. */
  function Totals(counts: seq<nat>): (totals: seq<nat>)
    ensures |totals| == |counts|
  {
    seq(|counts|, k requires 0 <= k < |counts| => Run(counts[..k + 1]).count)
  }

  /** The displayed totals are non-decreasing frame over frame. */
  lemma TotalsNonDecreasing(counts: seq<nat>, i: nat, j: nat)
    requires i <= j < |counts|
    ensures Totals(counts)[i] <= Totals(counts)[j]
  {
    var longer := counts[..j + 1];
    assert longer[..i + 1] == counts[..i + 1];
    RunMonotone(longer, i + 1);
  }

  /** The frames `[0, 0, 3, 3, 0, 2]` show the totals `[0, 0, 3, 3, 3, 5]`. */
  lemma EdgeTriggerExample()
    ensures Totals([0, 0, 3, 3, 0, 2]) == [0, 0, 3, 3, 3, 5]
  {
    var c: seq<nat> := [0, 0, 3, 3, 0, 2];
    assert c[..1] == [0] && Run(c[..1]) == CounterState(0, true);
    assert c[..2] == [0, 0] && c[..2][..1] == c[..1];
    assert Run(c[..2]) == CounterState(0, true);
    assert c[..3][..2] == c[..2] && Run(c[..3]) == CounterState(3, false);
    assert c[..4][..3] == c[..3] && Run(c[..4]) == CounterState(3, false);
    assert c[..5][..4] == c[..4] && Run(c[..5]) == CounterState(3, true);
    assert c[..6][..5] == c[..5] && Run(c[..6]) == CounterState(5, false);
  }

  /** The counter as the program holds it: two variables updated once per
      processed frame. `frames` records, for the proof only, the box counts
      of the frames seen so far. */
  class PeopleCounter {
    var count: nat
    var armed: bool
    ghost var frames: seq<nat>

    ghost predicate Valid()
      reads this
    {
      CounterState(count, armed) == Run(frames)
    }

    constructor ()
      ensures Valid() && frames == []
      ensures count == 0 && armed
    {
      count := 0;
      armed := true;
      frames := [];
    }

    /** Account for one processed frame with `n` surviving boxes. */
    method Update(n: nat)
      requires Valid()
      modifies this
      ensures Valid() && frames == old(frames) + [n]
      ensures old(count) <= count
      ensures armed <==> n == 0
      ensures count == if old(armed) && n > 0 then old(count) + n else old(count)
    {
      if n > 0 && armed {
        count := count + n;
        armed := false;
      } else if n == 0 {
        armed := true;
      }
      frames := frames + [n];
      assert frames[..|frames| - 1] == old(frames);
    }
  }
}
