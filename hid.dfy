/** The HID variant (controller_hid.py): it reads raw 8-byte reports without
    blocking on every iteration, keeps the last state when no report arrived,
    and sends one frame every 0.03 s. */
module HidSampler {
  import opened Wrappers
  import opened Wire
  import Schedule

  const Interval: real := 0.03
  const ReportLength: nat := 8

  /** The eight-way unpack of a non-empty report of any other length raises. */
  datatype ReportError = UnpackMismatch(length: nat)

  /** `255 - v`: the report's vertical axes grow downwards, the frame's upwards. */
  function Invert(v: Byte): (r: Byte)
    ensures r + v == 255
  {
    255 - v
  }

  lemma InvertInvolution(v: Byte)
    ensures Invert(Invert(v)) == v
  {
  }

  /** The report a device sends for state `s`, with padding bytes `p1`, `p2`. */
  function ToReport(s: State, p1: Byte, p2: Byte): seq<Byte>
  {
    [s.leftX, Invert(s.leftY), s.rightX, Invert(s.rightY), s.buttons1, s.buttons2, p1, p2]
  }

  /** The state after reading `report`: unchanged when it is empty, the unpacked
      and inverted report when it is 8 bytes, an error otherwise. */
  function ParseReport(prev: State, report: seq<Byte>): (r: Result<State, ReportError>)
    ensures r.Err? <==> report != [] && |report| != ReportLength
    ensures report == [] ==> r == Ok(prev)
    ensures |report| == ReportLength ==> r.Ok? && ToReport(r.value, report[6], report[7]) == report
  {
    if report == [] then Ok(prev)
    else if |report| != ReportLength then Err(UnpackMismatch(|report|))
    else Ok(State(report[0], Invert(report[1]), report[2], Invert(report[3]), report[4], report[5]))
  }

  /** Reading back the report of a state gives that state, whatever came before
      and whatever the padding. */
  lemma ParseToReport(prev: State, s: State, p1: Byte, p2: Byte)
    ensures ParseReport(prev, ToReport(s, p1, p2)) == Ok(s)
  {
  }

  /** A full report does not depend on the previous state or on its two padding bytes. */
  lemma PaddingIgnored(prev1: State, prev2: State, a: seq<Byte>, b: seq<Byte>)
    requires |a| == ReportLength && |b| == ReportLength
    requires a[..6] == b[..6]
    ensures ParseReport(prev1, a) == ParseReport(prev2, b)
  {
  }

  /** Whether every report in `rs` can be unpacked. */
  predicate WellFormed(rs: seq<seq<Byte>>)
  {
    forall i :: 0 <= i < |rs| ==> rs[i] == [] || |rs[i]| == ReportLength
  }

  /** The state after the loop has read the reports `rs` in order, or the first
      unpack error, which ends the loop. */
  function ApplyReports(s: State, rs: seq<seq<Byte>>): (r: Result<State, ReportError>)
    ensures r.Err? <==> !WellFormed(rs)
    decreases |rs|
  {
    if rs == [] then Ok(s)
    else
      assert WellFormed(rs) <==> (rs[0] == [] || |rs[0]| == ReportLength) && WellFormed(rs[1..]) by {
        assert forall i :: 0 < i < |rs| ==> rs[i] == rs[1..][i - 1];
      }
      match ParseReport(s, rs[0])
      case Err(e) => Err(e)
      case Ok(s') => ApplyReports(s', rs[1..])
  }

  /** Carry-forward: after any run of empty reads the state is still the one the
      last full report left behind. */
  lemma {:induction false} LatestReportWins(s: State, rs: seq<seq<Byte>>, r: seq<Byte>,
                                            empties: seq<seq<Byte>>)
    requires WellFormed(rs)
    requires |r| == ReportLength
    requires forall i :: 0 <= i < |empties| ==> empties[i] == []
    ensures ApplyReports(s, rs + [r] + empties) == ParseReport(s, r)
    decreases |rs|
  {
    if rs == [] {
      assert ([] + [r] + empties)[1..] == empties;
      NoReportsKeepState(ParseReport(s, r).value, empties);
    } else {
      assert (rs + [r] + empties)[0] == rs[0];
      assert (rs + [r] + empties)[1..] == rs[1..] + [r] + empties;
      assert ParseReport(s, rs[0]).Ok?;
      LatestReportWins(ParseReport(s, rs[0]).value, rs[1..], r, empties);
      PaddingIgnored(s, ParseReport(s, rs[0]).value, r, r);
    }
  }

  /** Reads that return nothing leave the state exactly as it was. */
  lemma {:induction false} NoReportsKeepState(s: State, empties: seq<seq<Byte>>)
    requires forall i :: 0 <= i < |empties| ==> empties[i] == []
    ensures ApplyReports(s, empties) == Ok(s)
    decreases |empties|
  {
    if empties != [] {
      NoReportsKeepState(s, empties[1..]);
    }
  }

  /** The loop's persistent variables: the six state values and `last_t`. */
  class HidLoop {
    var state: State
    var lastT: real

    constructor (t0: real)
      ensures state == InitialState && lastT == t0
    {
      state := InitialState;
      lastT := t0;
    }

    /** One iteration: take in `report`, then, at time `t`, send the current
        state with nonce `nonce` if a frame is due. A report that cannot be
        unpacked ends the loop before anything changes. */
    method Tick(report: seq<Byte>, t: real, nonce: seq<Byte>)
      returns (out: Result<Option<seq<Byte>>, ReportError>)
      requires |nonce| == NonceLength
      modifies this
      ensures out.Err? <==> ParseReport(old(state), report).Err?
      ensures out.Err? ==> state == old(state) && lastT == old(lastT)
      ensures out.Ok? ==> state == ParseReport(old(state), report).value
      ensures out.Ok? ==> lastT == Schedule.NextLastT(old(lastT), t, Interval)
      ensures out.Ok? ==> (out.value.Some? <==> Schedule.Due(old(lastT), t, Interval))
      ensures out.Ok? && out.value.Some? ==> out.value.value == Encode(nonce, state)
    {
      if report != [] {
        if |report| != ReportLength {
          return Err(UnpackMismatch(|report|));
        }
        var leftY, rightY := report[1], report[3];
        state := State(report[0], Invert(leftY), report[2], Invert(rightY), report[4], report[5]);
      }
      if t - lastT >= Interval {
        lastT := t;
        var packed := PackFrame(nonce, state);
        out := Ok(Some(packed));
      } else {
        out := Ok(None);
      }
    }
  }
}
