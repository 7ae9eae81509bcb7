/**
 The decode-rate cap of the main loop: a frame that has been extracted is handed
 to the decoder only when at least FRAME_INTERVAL_MS milliseconds have passed since
 the previous decode attempt, and the timestamp moves to "now" before the attempt,
 whether or not the decode then succeeds.
 */
module RateLimiting {

  /** FRAME_INTERVAL_MS */
  const FrameIntervalMs: int := 100

  /** `ms - last_decode_time >= FRAME_INTERVAL_MS` */
  predicate MayDecode(last: int, now: int)
  {
    now - last >= FrameIntervalMs
  }

  /** Attempt times are spaced: the first at least 100 ms after last, each later one
      at least 100 ms after the one before it. */
  ghost predicate Spaced(last: int, attempts: seq<int>)
  {
    && (0 < |attempts| ==> attempts[0] - last >= FrameIntervalMs)
    && (forall i :: 0 < i < |attempts| ==> attempts[i] - attempts[i - 1] >= FrameIntervalMs)
  }

  /** The decode-attempt times that a run of extraction times produces, starting from a
      last-attempt time of last: a time is attempted exactly when it is far enough from
      the latest attempt so far. */
  function Attempts(last: int, times: seq<int>): (r: seq<int>)
    ensures |r| <= |times|
    ensures forall i :: 0 <= i < |r| ==> r[i] in times
    ensures Spaced(last, r)
    decreases |times|
  {
    if |times| == 0 then []
    else if MayDecode(last, times[0]) then [times[0]] + Attempts(times[0], times[1..])
    else Attempts(last, times[1..])
  }

  /** The timestamp the limiter holds after a run of extraction times. */
  function LastAttempt(last: int, times: seq<int>): (t: int)
    ensures t == last || t in times
    decreases |times|
  {
    if |times| == 0 then last
    else LastAttempt(if MayDecode(last, times[0]) then times[0] else last, times[1..])
  }

  /** The limiter's timestamp after a run is the run's last attempt, or the starting
      timestamp when nothing was attempted. */
  lemma {:induction false} LastAttemptIsLatest(last: int, times: seq<int>)
    ensures |Attempts(last, times)| == 0 ==> LastAttempt(last, times) == last
    ensures 0 < |Attempts(last, times)| ==>
      LastAttempt(last, times) == Attempts(last, times)[|Attempts(last, times)| - 1]
    decreases |times|
  {
    if |times| > 0 {
      var next := if MayDecode(last, times[0]) then times[0] else last;
      LastAttemptIsLatest(next, times[1..]);
    }
  }

  /** One more extraction time t: it is attempted exactly when it comes at least 100 ms
      after the latest attempt so far, and nothing attempted before changes. */
  lemma {:induction false} AttemptsSnoc(last: int, times: seq<int>, t: int)
    ensures Attempts(last, times + [t]) ==
      Attempts(last, times) + (if MayDecode(LastAttempt(last, times), t) then [t] else [])
    decreases |times|
  {
    if |times| == 0 {
      assert times + [t] == [t];
    } else {
      assert (times + [t])[1..] == times[1..] + [t];
      var next := if MayDecode(last, times[0]) then times[0] else last;
      AttemptsSnoc(next, times[1..], t);
    }
  }

  /** With the initial timestamp 0, the first frame is attempted once the clock reads
      at least 100 ms, which a wall clock counted from the epoch always does. */
  lemma {:induction false} FirstFrameAttempted(times: seq<int>)
    requires 0 < |times| && times[0] >= FrameIntervalMs
    ensures 0 < |Attempts(0, times)| && Attempts(0, times)[0] == times[0]
  {
  }

  class RateLimiter {
    /** last_decode_time */
    var lastDecode: int

    constructor ()
      ensures lastDecode == 0
    {
      lastDecode := 0;
    }

    /** Decide whether the frame extracted at time now is decoded; an admitted attempt
        moves the timestamp to now. */
    method Admit(now: int) returns (attempt: bool)
      modifies this
      ensures attempt <==> MayDecode(old(lastDecode), now)
      ensures lastDecode == if attempt then now else old(lastDecode)
    {
      attempt := now - lastDecode >= FrameIntervalMs;
      if attempt {
        lastDecode := now;
      }
    }

    /** A run of extractions at the given times: which of them are attempted. */
    method AdmitAll(times: seq<int>) returns (attempted: seq<int>)
      modifies this
      ensures attempted == Attempts(old(lastDecode), times)
      ensures lastDecode == LastAttempt(old(lastDecode), times)
    {
      attempted := [];
      var i := 0;
      while i < |times|
        invariant 0 <= i <= |times|
        invariant attempted + Attempts(lastDecode, times[i..]) == Attempts(old(lastDecode), times)
        invariant LastAttempt(lastDecode, times[i..]) == LastAttempt(old(lastDecode), times)
      {
        assert times[i..][1..] == times[i + 1..];
        var ok := Admit(times[i]);
        if ok {
          attempted := attempted + [times[i]];
        }
        i := i + 1;
      }
      assert times[i..] == [];
    }
  }
}
