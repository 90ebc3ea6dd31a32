/** The counting animation of the toggle-count plugin, over exact reals.

    One run goes from `from` to `to` over `duration` milliseconds. Each frame
    callback receives a timestamp. The first frame whose timestamp is non-zero
    becomes the start of the run, because 0 means "not captured yet". The
    frame then computes `progress = min((t - start) / duration, 1)` and writes
    `floor(progress * (to - from) + from)` to the display. It asks for another
    frame only while progress is below 1. */
module Animation {

  /** The elapsed fraction of a run, `Math.min(elapsed / duration, 1)`. Only the
      upper end is clamped. */
  function Progress(elapsed: real, duration: int): (p: real)
    requires duration != 0
    ensures p <= 1.0
    ensures p < 1.0 ==> p * duration as real == elapsed
    ensures duration > 0 && elapsed >= 0.0 ==> 0.0 <= p
    ensures duration > 0 ==> (p == 1.0 <==> elapsed >= duration as real)
    ensures p == 1.0 <==> elapsed / duration as real >= 1.0
  {
    var q := elapsed / duration as real;
    if q < 1.0 then q else 1.0
  }

  /** The number written at progress `p`, `Math.floor(p * (to - from) + from)`. */
  function Value(from: int, to: int, p: real): (v: int)
    ensures p == 0.0 ==> v == from
    ensures p == 1.0 ==> v == to
    ensures 0.0 <= p <= 1.0 && from <= to ==> from <= v <= to
    ensures 0.0 <= p <= 1.0 && to <= from ==> to <= v <= from
  {
    ValueBounds(from, to, p);
    (p * (to - from) as real + from as real).Floor
  }

  lemma ValueBounds(from: int, to: int, p: real)
    ensures 0.0 <= p <= 1.0 && from <= to ==>
      from as real <= p * (to - from) as real + from as real <= to as real
    ensures 0.0 <= p <= 1.0 && to <= from ==>
      to as real <= p * (to - from) as real + from as real <= from as real
  {
    if 0.0 <= p <= 1.0 {
      var d := (to - from) as real;
      if d >= 0.0 {
        assert 0.0 <= p * d <= d by { MulBounds(p, d); }
      } else {
        assert d <= p * d <= 0.0 by { MulBounds(p, -d); }
      }
    }
  }

  lemma MulBounds(p: real, d: real)
    requires 0.0 <= p <= 1.0 && d >= 0.0
    ensures 0.0 <= p * d <= d
  {
  }

  /** A later frame never shows less progress. */
  lemma ProgressMonotone(e1: real, e2: real, duration: int)
    requires duration > 0 && e1 <= e2
    ensures Progress(e1, duration) <= Progress(e2, duration)
  {
    var d := duration as real;
    assert e1 / d <= e2 / d;
  }

  /** More progress moves the written value further towards `to`. */
  lemma ValueMonotone(from: int, to: int, p: real, q: real)
    requires p <= q
    ensures from <= to ==> Value(from, to, p) <= Value(from, to, q)
    ensures to <= from ==> Value(from, to, q) <= Value(from, to, p)
  {
    var d := (to - from) as real;
    assert Value(from, to, p) == (p * d + from as real).Floor;
    assert Value(from, to, q) == (q * d + from as real).Floor;
    if d >= 0.0 {
      FloorScaleMonotone(p, q, d, from as real);
      if to <= from {
        assert d == 0.0;
        assert p * d == q * d;
      }
    } else {
      assert to < from;
      FloorScaleAntitone(p, q, d, from as real);
    }
  }

  lemma FloorScaleMonotone(p: real, q: real, d: real, f: real)
    requires p <= q && d >= 0.0
    ensures (p * d + f).Floor <= (q * d + f).Floor
  {
    assert q * d - p * d == (q - p) * d;
  }

  lemma FloorScaleAntitone(p: real, q: real, d: real, f: real)
    requires p <= q && d <= 0.0
    ensures (q * d + f).Floor <= (p * d + f).Floor
  {
    assert p * d - q * d == (q - p) * -d;
  }

  /** What one run has done: the values it wrote in order, and whether it
      stopped asking for frames because progress reached 1. */
  datatype Trace = Trace(writes: seq<int>, done: bool)

  /** The run from `from` to `to` fed the frame timestamps `frames`. `start` is
      the captured start timestamp, 0 while none has been captured. A run that
      is not done has used every frame and is still waiting for the next. */
  function Run(from: int, to: int, duration: int, start: real, frames: seq<real>): (r: Trace)
    requires duration != 0
    ensures |r.writes| <= |frames|
    ensures r.done ==> |r.writes| > 0 && r.writes[|r.writes| - 1] == to
    ensures !r.done ==> |r.writes| == |frames|
    decreases |frames|
  {
    if frames == [] then Trace([], false)
    else
      var s := if start == 0.0 then frames[0] else start;
      var p := Progress(frames[0] - s, duration);
      var v := Value(from, to, p);
      if p < 1.0 then
        var rest := Run(from, to, duration, s, frames[1..]);
        Trace([v] + rest.writes, rest.done)
      else
        Trace([v], true)
  }

  /** One frame of a run: capture the start if needed, write the value, and
      go on only while progress is below 1. */
  lemma RunStep(from: int, to: int, duration: int, start: real, frames: seq<real>)
    requires duration != 0 && frames != []
    ensures var s := if start == 0.0 then frames[0] else start;
      var p := Progress(frames[0] - s, duration);
      var rest := Run(from, to, duration, s, frames[1..]);
      Run(from, to, duration, start, frames)
        == if p < 1.0 then Trace([Value(from, to, p)] + rest.writes, rest.done)
           else Trace([Value(from, to, p)], true)
  {
  }

  /** `RunStep` at position `i` of `frames`, with the values written so far. */
  lemma RunFrameAt(from: int, to: int, duration: int, start: real, frames: seq<real>, i: nat, written: seq<int>)
    requires duration != 0 && i < |frames|
    ensures var s := if start == 0.0 then frames[i] else start;
      var p := Progress(frames[i] - s, duration);
      var now := Run(from, to, duration, start, frames[i..]);
      var next := Run(from, to, duration, s, frames[i + 1..]);
      (p < 1.0 ==> written + now.writes == (written + [Value(from, to, p)]) + next.writes && now.done == next.done) &&
      (p >= 1.0 ==> now == Trace([Value(from, to, p)], true))
  {
    assert frames[i..][1..] == frames[i + 1..];
    RunStep(from, to, duration, start, frames[i..]);
  }

  /** Timestamps in the order the host delivers them. */
  predicate Chronological(frames: seq<real>) {
    forall i, j :: 0 <= i <= j < |frames| ==> frames[i] <= frames[j]
  }

  predicate Ascending(s: seq<int>) {
    forall i, j :: 0 <= i <= j < |s| ==> s[i] <= s[j]
  }

  predicate Descending(s: seq<int>) {
    forall i, j :: 0 <= i <= j < |s| ==> s[j] <= s[i]
  }

  /** Once the start is captured, the k-th write is the formula applied to the
      k-th frame. Every frame but the last had progress below 1, and the last
      reached 1 exactly when the run is done. */
  lemma {:induction false} RunAt(from: int, to: int, duration: int, start: real, frames: seq<real>, k: nat)
    requires duration != 0 && start != 0.0
    requires k < |Run(from, to, duration, start, frames).writes|
    ensures Run(from, to, duration, start, frames).writes[k]
         == Value(from, to, Progress(frames[k] - start, duration))
    ensures k + 1 < |Run(from, to, duration, start, frames).writes| ==>
              Progress(frames[k] - start, duration) < 1.0
    ensures k + 1 == |Run(from, to, duration, start, frames).writes| ==>
              (Progress(frames[k] - start, duration) == 1.0 <==> Run(from, to, duration, start, frames).done)
    decreases |frames|
  {
    var p := Progress(frames[0] - start, duration);
    if k > 0 {
      assert p < 1.0;
      RunAt(from, to, duration, start, frames[1..], k - 1);
      assert frames[1..][k - 1] == frames[k];
    }
  }

  /** A first frame with a non-zero timestamp becomes the start of the run. */
  lemma RunCapturesFirstFrame(from: int, to: int, duration: int, frames: seq<real>)
    requires duration != 0 && frames != [] && frames[0] != 0.0
    ensures Run(from, to, duration, 0.0, frames) == Run(from, to, duration, frames[0], frames)
  {
  }

  /** Over chronological frames, every written value lies between `from` and
      `to` and the values move monotonically towards `to`. */
  lemma RunMonotone(from: int, to: int, duration: int, frames: seq<real>)
    requires duration > 0 && Chronological(frames)
    requires frames != [] ==> frames[0] != 0.0
    ensures var w := Run(from, to, duration, 0.0, frames).writes;
      (from <= to ==> Ascending(w) && forall k :: 0 <= k < |w| ==> from <= w[k] <= to) &&
      (to <= from ==> Descending(w) && forall k :: 0 <= k < |w| ==> to <= w[k] <= from)
  {
    if frames != [] {
      var s := frames[0];
      RunCapturesFirstFrame(from, to, duration, frames);
      var w := Run(from, to, duration, s, frames).writes;
      forall i | 0 <= i < |w|
        ensures w[i] == Value(from, to, Progress(frames[i] - s, duration))
        ensures 0.0 <= Progress(frames[i] - s, duration) <= 1.0
      {
        RunAt(from, to, duration, s, frames, i);
      }
      forall i, j | 0 <= i <= j < |w|
        ensures from <= to ==> w[i] <= w[j]
        ensures to <= from ==> w[j] <= w[i]
      {
        ProgressMonotone(frames[i] - s, frames[j] - s, duration);
        ValueMonotone(from, to, Progress(frames[i] - s, duration), Progress(frames[j] - s, duration));
      }
    }
  }

  /** With a start captured, a frame at least `duration` after it ends the run. */
  lemma {:induction false} RunEndsAtDuration(from: int, to: int, duration: int, start: real, frames: seq<real>)
    requires duration > 0 && start != 0.0 && frames != []
    requires frames[|frames| - 1] - start >= duration as real
    ensures Run(from, to, duration, start, frames).done
    decreases |frames|
  {
    if Progress(frames[0] - start, duration) < 1.0 {
      assert |frames| > 1;
      assert frames[1..][|frames[1..]| - 1] == frames[|frames| - 1];
      RunEndsAtDuration(from, to, duration, start, frames[1..]);
    }
  }

  /** A run whose frames span at least `duration` ends, and its last written
      value is exactly `to`. */
  lemma RunReachesTarget(from: int, to: int, duration: int, frames: seq<real>)
    requires duration > 0 && frames != [] && frames[0] != 0.0
    requires frames[|frames| - 1] - frames[0] >= duration as real
    ensures var r := Run(from, to, duration, 0.0, frames);
      r.done && r.writes[|r.writes| - 1] == to
  {
    RunCapturesFirstFrame(from, to, duration, frames);
    RunEndsAtDuration(from, to, duration, frames[0], frames);
  }

  /** Counting up from 0 to 50 over 100 ms, frames 0, 25, 50, 75 and 100 ms
      after the first show 0, 12, 25, 37 and 50. */
  lemma UpRunExample(t0: real)
    requires t0 > 0.0
    ensures Run(0, 50, 100, 0.0, [t0, t0 + 25.0, t0 + 50.0, t0 + 75.0, t0 + 100.0])
         == Trace([0, 12, 25, 37, 50], true)
  {
    FiveFrames(0, 50, t0, [0, 12, 25, 37, 50]);
  }

  /** Counting down from 50 to 0 over the same frames shows 50, 37, 25, 12
      and 0. */
  lemma DownRunExample(t0: real)
    requires t0 > 0.0
    ensures Run(50, 0, 100, 0.0, [t0, t0 + 25.0, t0 + 50.0, t0 + 75.0, t0 + 100.0])
         == Trace([50, 37, 25, 12, 0], true)
  {
    FiveFrames(50, 0, t0, [50, 37, 25, 12, 0]);
  }

  /** The run over 100 ms fed frames at quarter steps from a start `t0`, given
      the value that the formula yields at each quarter. */
  lemma FiveFrames(from: int, to: int, t0: real, w: seq<int>)
    requires t0 > 0.0 && |w| == 5
    requires w[0] == Value(from, to, 0.0) && w[1] == Value(from, to, 0.25)
    requires w[2] == Value(from, to, 0.5) && w[3] == Value(from, to, 0.75)
    requires w[4] == Value(from, to, 1.0)
    ensures Run(from, to, 100, 0.0, [t0, t0 + 25.0, t0 + 50.0, t0 + 75.0, t0 + 100.0])
         == Trace(w, true)
  {
    var f := [t0, t0 + 25.0, t0 + 50.0, t0 + 75.0, t0 + 100.0];
    assert Progress(t0 + 25.0 - t0, 100) == 0.25;
    assert Progress(t0 + 50.0 - t0, 100) == 0.5;
    assert Progress(t0 + 75.0 - t0, 100) == 0.75;
    assert Progress(t0 + 100.0 - t0, 100) == 1.0;
    assert f[4..] == [t0 + 100.0];
    assert Run(from, to, 100, t0, f[4..]) == Trace(w[4..], true);
    assert f[3..][1..] == f[4..];
    assert Run(from, to, 100, t0, f[3..]) == Trace(w[3..], true);
    assert f[2..][1..] == f[3..];
    assert Run(from, to, 100, t0, f[2..]) == Trace(w[2..], true);
    assert f[1..][1..] == f[2..];
    assert Run(from, to, 100, t0, f[1..]) == Trace(w[1..], true);
    assert Run(from, to, 100, 0.0, f) == Trace(w, true);
  }

  /** A frame stamped 0 does not capture the start: the next frame captures it
      again, so the run lasts longer than `duration` after the first frame. */
  lemma ZeroTimestampDelaysStart()
    ensures Run(0, 50, 100, 0.0, [0.0, 50.0, 100.0]) == Trace([0, 0, 25], false)
  {
    var f := [0.0, 50.0, 100.0];
    assert f[1..] == [50.0, 100.0];
    assert f[1..][1..] == [100.0];
  }

  /** A negative duration, which `duration || 700` keeps, turns progress
      non-positive on every frame no earlier than the start: the run never
      reaches 1 and keeps asking for frames. */
  lemma {:induction false} NegativeDurationNeverEnds(from: int, to: int, duration: int, start: real, frames: seq<real>)
    requires duration < 0 && Chronological(frames)
    requires frames != [] ==> start <= frames[0]
    ensures !Run(from, to, duration, start, frames).done
    decreases |frames|
  {
    if frames != [] {
      var s := if start == 0.0 then frames[0] else start;
      var q := (frames[0] - s) / duration as real;
      assert q * duration as real == frames[0] - s;
      assert q <= 0.0;
      if |frames| > 1 {
        assert frames[1..][0] == frames[1];
      }
      NegativeDurationNeverEnds(from, to, duration, s, frames[1..]);
    }
  }

  /** Counting 0 to 50 with a duration of -100 runs away from 50: the frames
      10, 60 and 1010 write 0, -25 and -500, and the run is still going. */
  lemma NegativeDurationExample()
    ensures Run(0, 50, -100, 0.0, [10.0, 60.0, 1010.0]) == Trace([0, -25, -500], false)
  {
    var f := [10.0, 60.0, 1010.0];
    assert Progress(60.0 - 10.0, -100) == -0.5;
    assert Progress(1010.0 - 10.0, -100) == -10.0;
    assert f[1..] == [60.0, 1010.0];
    assert f[1..][1..] == [1010.0];
  }
}
