/** The time gate both sampling loops use: a frame goes out when at least
    `interval` seconds have passed since the last one, and the reference time
    moves to that instant (not to the ideal next tick, so drift accumulates). */
module Schedule {

  /** `t - last_t >= interval` */
  predicate Due(lastT: real, t: real, interval: real)
  {
    t - lastT >= interval
  }

  /** The value of `last_t` after one loop iteration at time `t`. */
  function NextLastT(lastT: real, t: real, interval: real): (r: real)
    ensures Due(lastT, t, interval) ==> r == t
    ensures r == lastT || (r == t && Due(lastT, t, interval))
  {
    if Due(lastT, t, interval) then t else lastT
  }

  /** `last_t` after loop iterations at the times `ts`. */
  function LastT(lastT: real, ts: seq<real>, interval: real): (r: real)
    ensures r == lastT || r in ts
    decreases |ts|
  {
    if ts == [] then lastT else LastT(NextLastT(lastT, ts[0], interval), ts[1..], interval)
  }

  /** The instants, in order, at which loop iterations at the times `ts` send a frame. */
  function EmitTimes(lastT: real, ts: seq<real>, interval: real): (e: seq<real>)
    ensures |e| <= |ts|
    decreases |ts|
  {
    if ts == [] then []
    else if Due(lastT, ts[0], interval) then [ts[0]] + EmitTimes(ts[0], ts[1..], interval)
    else EmitTimes(lastT, ts[1..], interval)
  }

  /** `n * g`, as n repeated additions of g; the bounds below are stated with it
      because it keeps their proofs linear. */
  function Times(n: nat, g: real): real
  {
    if n == 0 then 0.0 else Times(n - 1, g) + g
  }

  /** Repeated addition is multiplication. */
  lemma {:induction false} TimesIsProduct(n: nat, g: real)
    ensures Times(n, g) == n as real * g
  {
    if n > 0 {
      TimesIsProduct(n - 1, g);
      assert n as real * g == (n - 1) as real * g + g;
    }
  }

  /** Frames are sent only at iteration times. */
  lemma {:induction false} EmitTimesAreTicks(lastT: real, ts: seq<real>, interval: real)
    ensures forall x :: x in EmitTimes(lastT, ts, interval) ==> x in ts
    decreases |ts|
  {
    if ts != [] {
      var next := NextLastT(lastT, ts[0], interval);
      EmitTimesAreTicks(next, ts[1..], interval);
      assert forall x :: x in ts[1..] ==> x in ts;
    }
  }

  /** The first frame comes at least one interval after the starting reference
      time, and consecutive frames are at least one interval apart. */
  lemma {:induction false} EmitTimesApart(lastT: real, ts: seq<real>, interval: real)
    ensures |EmitTimes(lastT, ts, interval)| > 0 ==>
              EmitTimes(lastT, ts, interval)[0] - lastT >= interval
    ensures forall k :: 0 < k < |EmitTimes(lastT, ts, interval)| ==>
              EmitTimes(lastT, ts, interval)[k] - EmitTimes(lastT, ts, interval)[k - 1] >= interval
    decreases |ts|
  {
    if ts != [] {
      EmitTimesApart(NextLastT(lastT, ts[0], interval), ts[1..], interval);
    }
  }

  /** The k-th frame (from 0) lies at least k + 1 intervals after the starting
      reference time. */
  lemma {:induction false} EmitTimesAfterStart(lastT: real, ts: seq<real>, interval: real)
    ensures forall k :: 0 <= k < |EmitTimes(lastT, ts, interval)| ==>
              EmitTimes(lastT, ts, interval)[k] - lastT >= Times(k + 1, interval)
  {
    var e := EmitTimes(lastT, ts, interval);
    EmitTimesApart(lastT, ts, interval);
    var k := 0;
    while k < |e|
      invariant 0 <= k <= |e|
      invariant forall j :: 0 <= j < k ==> e[j] - lastT >= Times(j + 1, interval)
    {
      if k > 0 {
        assert e[k] - e[k - 1] >= interval;
        assert e[k - 1] - lastT >= Times(k, interval);
      }
      k := k + 1;
    }
  }

  /** At most (tEnd - lastT) / interval frames go out over iterations that all
      happen by `tEnd`: n frames take at least n intervals. */
  lemma FrameCountBound(lastT: real, ts: seq<real>, interval: real, tEnd: real)
    requires forall k :: 0 <= k < |ts| ==> ts[k] <= tEnd
    ensures |EmitTimes(lastT, ts, interval)| > 0 ==>
              Times(|EmitTimes(lastT, ts, interval)|, interval) <= tEnd - lastT
  {
    var e := EmitTimes(lastT, ts, interval);
    if |e| > 0 {
      EmitTimesAreTicks(lastT, ts, interval);
      EmitTimesAfterStart(lastT, ts, interval);
      var k := |e| - 1;
      assert e[k] in e;
      var m :| 0 <= m < |ts| && ts[m] == e[k];
    }
  }

  /** After the iterations, `last_t` is the time of the last frame sent, or the
      starting reference time when none was. */
  lemma {:induction false} LastTIsLastEmit(lastT: real, ts: seq<real>, interval: real)
    ensures LastT(lastT, ts, interval) ==
              if EmitTimes(lastT, ts, interval) == [] then lastT
              else EmitTimes(lastT, ts, interval)[|EmitTimes(lastT, ts, interval)| - 1]
    decreases |ts|
  {
    if ts != [] {
      LastTIsLastEmit(NextLastT(lastT, ts[0], interval), ts[1..], interval);
    }
  }

  /** While the loop polls at least every `d` seconds, the gap from the
      reference time to the last poll is less than `interval` plus
      `interval + d` per frame sent: each frame goes out at most one poll gap
      after it falls due, and after the last one nothing is due. */
  lemma {:induction false} PollGapBound(lastT: real, ts: seq<real>, interval: real, d: real)
    requires interval > 0.0 && d >= 0.0
    requires ts != [] && ts[0] - lastT <= interval + d
    requires forall k :: 0 < k < |ts| ==> ts[k] - ts[k - 1] <= d
    ensures ts[|ts| - 1] - lastT < Times(|EmitTimes(lastT, ts, interval)|, interval + d) + interval
    decreases |ts|
  {
    var e := EmitTimes(lastT, ts, interval);
    var g := interval + d;
    var rest := ts[1..];
    var next := NextLastT(lastT, ts[0], interval);
    var tail := EmitTimes(next, rest, interval);
    if Due(lastT, ts[0], interval) {
      assert e == [ts[0]] + tail;
    } else {
      assert e == tail;
    }
    if rest == [] {
      assert ts[|ts| - 1] == ts[0];
    } else {
      assert rest[0] - next <= g by {
        assert rest[0] == ts[1];
        assert ts[1] - ts[0] <= d;
      }
      assert forall k :: 0 < k < |rest| ==> rest[k] - rest[k - 1] <= d by {
        forall k | 0 < k < |rest| ensures rest[k] - rest[k - 1] <= d {
          assert rest[k] == ts[k + 1] && rest[k - 1] == ts[k];
        }
      }
      PollGapBound(next, rest, interval, d);
      assert rest[|rest| - 1] == ts[|ts| - 1];
    }
  }

  /** Lower bound on the number of frames: when the first poll comes within
      `d` of the starting reference time, polls are at most `d` apart and the
      last one is no earlier than `tEnd - d`, then the frames number more than
      (tEnd - lastT) / (interval + d) - 1. The scheduler drifts by up to one
      poll gap per frame, so the bound is in terms of `interval + d`. */
  lemma FrameCountLowerBound(lastT: real, ts: seq<real>, interval: real, d: real, tEnd: real)
    requires interval > 0.0 && d >= 0.0
    requires ts != [] && ts[0] - lastT <= d
    requires forall k :: 0 < k < |ts| ==> ts[k] - ts[k - 1] <= d
    requires ts[|ts| - 1] >= tEnd - d
    ensures Times(|EmitTimes(lastT, ts, interval)|, interval + d) > tEnd - lastT - (interval + d)
  {
    var n := |EmitTimes(lastT, ts, interval)|;
    var g := interval + d;
    PollGapBound(lastT, ts, interval, d);
    assert Times(n, g) > tEnd - lastT - g;
  }
}
