/**
 One pass of the viewer's main loop once it is connected: a received chunk is
 appended, the oversize valve fires above 3/4 of the buffer, the latest complete
 frame is extracted, and the rate limiter decides whether it is handed to the
 decoder. The network read and the reconnect request are inputs: readFailed and got
 describe the read, reconnectOk the outcome of the reconnect attempt, now the clock
 and allocOk whether the frame copy could be allocated.
 */
module Viewer {
  import opened Markers
  import opened StreamBuffers
  import opened RateLimiting

  datatype Outcome =
    | Reconnected(ok: bool)        // the read failed with nothing received
    | Idle                         // nothing received
    | Pending                      // bytes appended, no complete frame yet
    | OutOfMemory                  // the frame copy could not be allocated
    | Throttled(frame: seq<Byte>)  // frame extracted and dropped by the rate limiter
    | DecodeAttempt(frame: seq<Byte>)

  /** The bytes after appending and, above the threshold, after the valve. */
  function Received(s: seq<Byte>, chunk: seq<Byte>, got: int): (t: seq<Byte>)
    requires |s| <= Capacity && |chunk| == ReadChunk && 0 < got
    ensures |t| <= Capacity
    ensures |t| <= |s| + Min(got, ReadChunk)
    ensures |Appended(s, chunk, got)| <= OversizeThreshold ==> |s| <= |t| && t[..|s|] == s
  {
    var s1 := Appended(s, chunk, got);
    if |s1| > OversizeThreshold then Valve(s1).1 else s1
  }

  /** A loop pass from buffer contents s and last decode time last: the outcome, the
      new buffer contents and the new last decode time. */
  function CycleSpec(s: seq<Byte>, last: int, readFailed: bool, reconnectOk: bool,
                     chunk: seq<Byte>, got: int, now: int, allocOk: bool): (r: (Outcome, seq<Byte>, int))
    requires |s| <= Capacity && |chunk| == ReadChunk
    ensures |r.1| <= Capacity
    ensures r.2 != last ==> r.0.DecodeAttempt? && r.2 == now
    ensures got <= 0 && !(readFailed && got == 0) ==> r == (Idle, s, last)
    ensures 0 < got ==> |r.1| <= |s| + Min(got, ReadChunk)
  {
    if readFailed && got == 0 then
      (Reconnected(reconnectOk), if reconnectOk then [] else s, last)
    else if got <= 0 then
      (Idle, s, last)
    else
      var s2 := Received(s, chunk, got);
      match Extract(s2, allocOk)
      case (NoFrame, rest) => (Pending, rest, last)
      case (AllocFailed, rest) => (OutOfMemory, rest, last)
      case (Extracted(f), rest) =>
        if MayDecode(last, now) then (DecodeAttempt(f), rest, now) else (Throttled(f), rest, last)
  }

  /** The loop pass on the buffer and the limiter themselves. */
  method Cycle(buf: StreamBuffer, limiter: RateLimiter, readFailed: bool, reconnectOk: bool,
               chunk: seq<Byte>, got: int, now: int, allocOk: bool) returns (out: Outcome)
    requires buf.Valid() && |chunk| == ReadChunk
    modifies buf, buf.data, limiter
    ensures buf.Valid()
    ensures (out, buf.Contents(), limiter.lastDecode) ==
      CycleSpec(old(buf.Contents()), old(limiter.lastDecode), readFailed, reconnectOk, chunk, got, now, allocOk)
  {
    if readFailed && got == 0 {
      if reconnectOk {
        buf.Reset();
      }
      return Reconnected(reconnectOk);
    }
    if got <= 0 {
      return Idle;
    }
    buf.Append(chunk, got);
    if buf.end - buf.start > OversizeThreshold {
      var _ := buf.CompactToLatest();
    }
    var x := buf.ExtractLatest(allocOk);
    match x
    case NoFrame =>
      out := Pending;
    case AllocFailed =>
      out := OutOfMemory;
    case Extracted(f) =>
      var attempt := limiter.Admit(now);
      out := if attempt then DecodeAttempt(f) else Throttled(f);
  }

  /** After every pass that received bytes the buffer holds no complete frame, and a
      buffer without one keeps that property through every pass. */
  lemma CycleLeavesNoFrame(s: seq<Byte>, last: int, readFailed: bool, reconnectOk: bool,
                           chunk: seq<Byte>, got: int, now: int, allocOk: bool)
    requires |s| <= Capacity && |chunk| == ReadChunk
    ensures 0 < got ==>
      LatestFrame(CycleSpec(s, last, readFailed, reconnectOk, chunk, got, now, allocOk).1) == None
    ensures LatestFrame(s) == None ==>
      LatestFrame(CycleSpec(s, last, readFailed, reconnectOk, chunk, got, now, allocOk).1) == None
  {
    assert LatestFrame([]) == None;
    if 0 < got {
      ExtractYieldsLatest(Received(s, chunk, got), allocOk);
    }
  }

  /** A frame handed on by a pass is the latest complete frame of the received bytes,
      and it is decoded exactly when 100 ms have passed since the last attempt, which
      then becomes now. */
  lemma CycleFrames(s: seq<Byte>, last: int, readFailed: bool, reconnectOk: bool,
                    chunk: seq<Byte>, got: int, now: int, allocOk: bool)
    requires |s| <= Capacity && |chunk| == ReadChunk
    ensures var (out, _, last') := CycleSpec(s, last, readFailed, reconnectOk, chunk, got, now, allocOk);
      (out.Throttled? || out.DecodeAttempt?) ==>
        && 0 < got
        && FrameShaped(out.frame)
        && (exists sp :: IsLatestFrame(Received(s, chunk, got), sp) && out.frame == Frame(Received(s, chunk, got), sp))
        && (out.DecodeAttempt? <==> MayDecode(last, now))
        && last' == (if out.DecodeAttempt? then now else last)
  {
    if !(readFailed && got == 0) && 0 < got {
      var s2 := Received(s, chunk, got);
      ExtractYieldsLatest(s2, allocOk);
      match LatestFrame(s2)
      case None =>
      case Some(sp) =>
        LatestFrameIsShaped(s2, sp);
    }
  }

  /** Latest wins within a chunk: when the received bytes bring a complete frame f
      followed by bytes c without an EOI, and the buffer stays under the threshold,
      the pass hands on f, whatever the buffer held before, and keeps exactly c. */
  lemma CycleLatestWins(s: seq<Byte>, last: int, readFailed: bool, reconnectOk: bool,
                        chunk: seq<Byte>, got: int, now: int, f: seq<Byte>, c: seq<Byte>)
    requires |s| <= Capacity && |chunk| == ReadChunk
    requires 0 < got <= ReadChunk && |s| + got <= OversizeThreshold
    requires chunk[..got] == f + c && FrameShaped(f)
    requires forall j :: |f| - 2 < j ==> !MarkerAt(f + c, j, EoiCode)
    ensures CycleSpec(s, last, readFailed, reconnectOk, chunk, got, now, true) ==
      if MayDecode(last, now) then (DecodeAttempt(f), c, now) else (Throttled(f), c, last)
  {
    var s1 := Appended(s, chunk, got);
    assert s1 == s + (f + c);
    assert s1 == s + f + c;
    LatestWins(s, f, c);
  }

  /** The valve's quirk seen from a whole pass: when it fires and keeps a frame, that
      frame is handed on and the buffer ends empty, even if bytes followed its EOI. */
  lemma CycleAfterValve(s: seq<Byte>, last: int, chunk: seq<Byte>, got: int, now: int)
    requires |s| <= Capacity && |chunk| == ReadChunk && 0 < got
    requires |Appended(s, chunk, got)| > OversizeThreshold && Valve(Appended(s, chunk, got)).0
    ensures var (out, rest, _) := CycleSpec(s, last, false, false, chunk, got, now, true);
      && rest == []
      && (out.DecodeAttempt? || out.Throttled?)
      && out.frame == Valve(Appended(s, chunk, got)).1
  {
    ValveThenExtract(Appended(s, chunk, got), true);
  }

  /** The buffer never fills: a pass that starts at or below the valve's threshold
      appends the whole capped chunk (the truncation at capacity never happens) and
      ends at or below the threshold again. */
  lemma CycleBounded(s: seq<Byte>, last: int, readFailed: bool, reconnectOk: bool,
                     chunk: seq<Byte>, got: int, now: int, allocOk: bool)
    requires |s| <= OversizeThreshold && |chunk| == ReadChunk
    ensures 0 < got ==> |Appended(s, chunk, got)| == |s| + Min(got, ReadChunk)
    ensures |CycleSpec(s, last, readFailed, reconnectOk, chunk, got, now, allocOk).1| <= OversizeThreshold
  {
    if 0 < got && !(readFailed && got == 0) {
      var s1 := Appended(s, chunk, got);
      if |s1| > OversizeThreshold {
        ValveKeeps(s1);
        ValveThenExtract(s1, allocOk);
      }
    }
  }

  /** A frame whose markers straddle two chunks, from a buffer an earlier pass left
      without a complete frame: the pass that brings its first k bytes hands nothing on
      and keeps them, and the pass that brings the rest hands on the whole frame and
      leaves the buffer empty. */
  lemma CycleSplitFrame(s: seq<Byte>, last: int, f: seq<Byte>, k: int,
                        chunk1: seq<Byte>, chunk2: seq<Byte>, now1: int, now2: int, allocOk: bool)
    requires |chunk1| == ReadChunk && |chunk2| == ReadChunk
    requires LatestFrame(s) == None && |s| + |f| <= OversizeThreshold
    requires SingleFrame(f) && 0 < k < |f| && k <= ReadChunk && |f| - k <= ReadChunk
    requires chunk1[..k] == f[..k] && chunk2[..|f| - k] == f[k..]
    ensures CycleSpec(s, last, false, false, chunk1, k, now1, allocOk) == (Pending, s + f[..k], last)
    ensures CycleSpec(s + f[..k], last, false, false, chunk2, |f| - k, now2, true) ==
      if MayDecode(last, now2) then (DecodeAttempt(f), [], now2) else (Throttled(f), [], last)
  {
    var s1 := s + f[..k];
    assert Appended(s, chunk1, k) == s1;
    forall j | |s| - 1 <= j ensures !MarkerAt(s1, j, EoiCode) {
      if j == |s| - 1 {
        assert MarkerAt(f, 0, SoiCode);
      } else if MarkerAt(s1, j, EoiCode) {
        assert MarkerAt(f, j - |s|, EoiCode);
      }
    }
    NoEoiKeepsNoFrame(s, f[..k]);
    var none: seq<Byte> := [];
    assert Appended(s1, chunk2, |f| - k) == s + f + none;
    forall j | |f| - 2 < j ensures !MarkerAt(f + none, j, EoiCode) {
    }
    LatestWins(s, f, none);
  }
}
