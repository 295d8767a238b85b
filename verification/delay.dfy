/** A frame-driven delay: while running, each frame adds its duration to
    the elapsed time, and the first frame at which the elapsed time reaches
    the limit fires and stops the delay. The arson-task request and every
    timed station interaction follow this pattern. */
module Delay {

  datatype Tick = Tick(running: bool, elapsed: real, fired: bool)

  function Step(running: bool, elapsed: real, dt: real, limit: real): (t: Tick)
    ensures t.fired ==> running && !t.running
    ensures !running ==> t == Tick(running, elapsed, false)
    ensures running ==> t.elapsed == elapsed + dt && (t.fired <==> elapsed + dt >= limit)
    ensures t.running <==> running && !t.fired
  {
    if !running then Tick(running, elapsed, false)
    else if elapsed + dt < limit then Tick(true, elapsed + dt, false)
    else Tick(false, elapsed + dt, true)
  }

  function Sum(dts: seq<real>): real {
    if |dts| == 0 then 0.0 else dts[0] + Sum(dts[1..])
  }

  /** The `fired` flag of each of a run of frames. */
  function Fires(running: bool, elapsed: real, dts: seq<real>, limit: real): (r: seq<bool>)
    ensures |r| == |dts|
    decreases |dts|
  {
    if |dts| == 0 then []
    else
      var t := Step(running, elapsed, dts[0], limit);
      [t.fired] + Fires(t.running, t.elapsed, dts[1..], limit)
  }

  /** Whether the time summed over frames 0..j reaches the limit. */
  predicate Reached(elapsed: real, dts: seq<real>, j: int, limit: real)
    requires 0 <= j < |dts|
  {
    elapsed + Sum(dts[..j + 1]) >= limit
  }

  lemma ReachedShift(elapsed: real, dts: seq<real>, j: int, limit: real)
    requires 0 <= j < |dts|
    ensures j == 0 ==> (Reached(elapsed, dts, j, limit) <==> elapsed + dts[0] >= limit)
    ensures j > 0 ==> (Reached(elapsed, dts, j, limit) <==> Reached(elapsed + dts[0], dts[1..], j - 1, limit))
  {
    var pre := dts[..j + 1];
    assert pre[0] == dts[0];
    assert Sum(pre) == dts[0] + Sum(pre[1..]);
    if j == 0 {
      assert pre[1..] == [];
    } else {
      assert pre[1..] == dts[1..][..j];
    }
  }

  /** A running delay fires at frame k exactly when the time summed over
      frames 0..k first reaches the limit. */
  lemma {:induction false} FiresAtThreshold(elapsed: real, dts: seq<real>, k: int, limit: real)
    requires 0 <= k < |dts|
    ensures Fires(true, elapsed, dts, limit)[k] <==>
      Reached(elapsed, dts, k, limit) && forall j :: 0 <= j < k ==> !Reached(elapsed, dts, j, limit)
    decreases k
  {
    var t := Step(true, elapsed, dts[0], limit);
    var rest := dts[1..];
    ReachedShift(elapsed, dts, 0, limit);
    if k > 0 {
      ReachedShift(elapsed, dts, k, limit);
      assert Fires(true, elapsed, dts, limit)[k] == Fires(t.running, t.elapsed, rest, limit)[k - 1];
      if t.fired {
        NeverAgain(t.elapsed, rest, k - 1, limit);
      } else {
        FiresAtThreshold(t.elapsed, rest, k - 1, limit);
        forall j | 0 < j < k
          ensures Reached(elapsed, dts, j, limit) <==> Reached(t.elapsed, rest, j - 1, limit)
        {
          ReachedShift(elapsed, dts, j, limit);
        }
        if forall j :: 0 <= j < k - 1 ==> !Reached(t.elapsed, rest, j, limit) {
          forall j | 0 <= j < k
            ensures !Reached(elapsed, dts, j, limit)
          {
            if j > 0 {
              assert !Reached(t.elapsed, rest, j - 1, limit);
            }
          }
        } else {
          var j :| 0 <= j < k - 1 && Reached(t.elapsed, rest, j, limit);
          assert Reached(elapsed, dts, j + 1, limit);
        }
      }
    }
  }

  /** A stopped delay never fires. */
  lemma {:induction false} NeverAgain(elapsed: real, dts: seq<real>, k: int, limit: real)
    requires 0 <= k < |dts|
    ensures !Fires(false, elapsed, dts, limit)[k]
    decreases k
  {
    if k > 0 {
      NeverAgain(elapsed, dts[1..], k - 1, limit);
    }
  }

  /** A delay fires at most once. */
  lemma FiresOnce(elapsed: real, dts: seq<real>, k: int, m: int, limit: real)
    requires 0 <= k < m < |dts|
    requires Fires(true, elapsed, dts, limit)[k]
    ensures !Fires(true, elapsed, dts, limit)[m]
  {
    FiresAtThreshold(elapsed, dts, k, limit);
    FiresAtThreshold(elapsed, dts, m, limit);
  }
}
