/**
 The fixed 512 KiB stream buffer of source/main.c: a byte array whose valid bytes
 are the half-open span [start, end). Received chunks are appended (compacting the
 span to offset 0 when the tail is too short), the oversize valve keeps only the
 latest complete frame or else a 32 KiB tail, and extraction copies out the latest
 frame and keeps only the bytes that followed it.
 */
module StreamBuffers {
  import opened Markers

  /** STREAM_BUF_SIZE */
  const Capacity: int := 524288
  /** READ_CHUNK */
  const ReadChunk: int := 4096
  /** The tail the valve keeps when no complete frame exists. */
  const TailWindow: int := 32768
  /** (int)(STREAM_BUF_SIZE * 0.75), exactly. */
  const OversizeThreshold: int := 393216

  /** What the buffer holds after appending a chunk of which got bytes were received,
      when it held s: s followed by as much of the chunk as READ_CHUNK and the capacity allow. */
  function Appended(s: seq<Byte>, chunk: seq<Byte>, got: int): (t: seq<Byte>)
    requires |s| <= Capacity && |chunk| == ReadChunk && 0 < got
    ensures |s| <= |t| <= Capacity
    ensures |t| - |s| <= got && |t| - |s| <= ReadChunk
    ensures t[..|s|] == s && t[|s|..] == chunk[..|t| - |s|]
    ensures |t| < Capacity ==> |t| - |s| == Min(got, ReadChunk)
  {
    s + chunk[..Min(Min(got, ReadChunk), Capacity - |s|)]
  }

  /** The oversize valve on the bytes it is given: whether a complete frame was kept,
      and what is left. */
  function Valve(s: seq<Byte>): (r: (bool, seq<Byte>))
    ensures r.0 <==> LatestFrame(s).Some?
    ensures |r.1| <= |s|
  {
    match LatestFrame(s)
    case Some(sp) => (true, Frame(s, sp))
    case None => (false, if |s| <= TailWindow then s else s[|s| - TailWindow ..])
  }

  /** The valve reports success exactly when there is a complete frame; it then keeps
      that frame alone, and otherwise keeps the last min(|s|, 32 KiB) bytes. */
  lemma ValveKeeps(s: seq<Byte>)
    ensures Valve(s).0 <==> LatestFrame(s).Some?
    ensures Valve(s).0 ==> FrameShaped(Valve(s).1) && |Valve(s).1| <= |s|
    ensures Valve(s).0 ==> LatestFrame(Valve(s).1) == Some(Span(0, |Valve(s).1| - 2))
    ensures Valve(s).0 ==> exists sp :: IsLatestFrame(s, sp) && Valve(s).1 == Frame(s, sp)
    ensures !Valve(s).0 ==> |Valve(s).1| == Min(|s|, TailWindow)
    ensures !Valve(s).0 ==> Valve(s).1 == s[|s| - |Valve(s).1| ..]
  {
    match LatestFrame(s)
    case Some(sp) =>
      LatestFrameIsShaped(s, sp);
      ShapedFrameIsLatest(Frame(s, sp));
    case None =>
  }

  lemma SliceOfSlice(a: seq<Byte>, i: int, j: int, k: int, l: int)
    requires 0 <= i <= j <= |a| && 0 <= k <= l <= j - i
    ensures a[i..j][k..l] == a[i + k .. i + l]
  {
    assert forall t :: 0 <= t < l - k ==> a[i..j][k..l][t] == a[i + k + t];
  }

  datatype Extraction = NoFrame | Extracted(frame: seq<Byte>) | AllocFailed

  /** The extraction step on the bytes it is given: the result and what is left. */
  function Extract(s: seq<Byte>, allocOk: bool): (r: (Extraction, seq<Byte>))
    ensures r.0 == NoFrame <==> LatestFrame(s) == None
    ensures r.0 == AllocFailed <==> LatestFrame(s).Some? && !allocOk
    ensures r.0.Extracted? ==> |r.0.frame| + |r.1| <= |s|
    ensures r.0 != NoFrame ==> |r.1| < |s|
  {
    match LatestFrame(s)
    case None => (NoFrame, s)
    case Some(sp) =>
      if allocOk then (Extracted(Frame(s, sp)), After(s, sp)) else (AllocFailed, [])
  }

  lemma ExtractOfLatest(s: seq<Byte>, sp: Span, allocOk: bool)
    requires LatestFrame(s) == Some(sp)
    ensures Extract(s, allocOk) ==
      if allocOk then (Extracted(Frame(s, sp)), After(s, sp)) else (AllocFailed, [])
  {
  }

  /** Extraction yields the latest frame and leaves exactly the bytes that followed it,
      which hold no complete frame; with nothing to extract nothing changes. */
  lemma ExtractYieldsLatest(s: seq<Byte>, allocOk: bool)
    ensures Extract(s, allocOk).0 == NoFrame <==> LatestFrame(s) == None
    ensures Extract(s, allocOk).0 == NoFrame ==> Extract(s, allocOk).1 == s
    ensures Extract(s, allocOk).0.Extracted? ==> exists sp ::
      IsLatestFrame(s, sp) && Extract(s, allocOk).0.frame == Frame(s, sp) && Extract(s, allocOk).1 == After(s, sp)
    ensures Extract(s, allocOk).0 != NoFrame ==> LatestFrame(Extract(s, allocOk).1) == None
  {
    match LatestFrame(s)
    case None =>
    case Some(sp) =>
      AfterHasNoFrame(s, sp);
      assert LatestFrame([]) == None;
  }

  /** The extraction that follows the valve: a frame the valve kept is extracted whole
      and leaves the buffer empty (the bytes after its EOI were dropped by the valve,
      not kept as extraction alone would keep them); a 32 KiB tail holds no complete
      frame, so extraction leaves it as it is. */
  lemma ValveThenExtract(s: seq<Byte>, allocOk: bool)
    ensures Valve(s).0 && allocOk ==> Extract(Valve(s).1, allocOk) == (Extracted(Valve(s).1), [])
    ensures !Valve(s).0 ==> Extract(Valve(s).1, allocOk) == (NoFrame, Valve(s).1)
  {
    ValveKeeps(s);
    var kept := Valve(s).1;
    if Valve(s).0 {
      var sp := Span(0, |kept| - 2);
      assert Frame(kept, sp) == kept;
      assert After(kept, sp) == [];
    } else {
      NoFrameInSuffix(s, |s| - |kept|);
    }
  }

  class StreamBuffer {
    const data: array<Byte>
    var start: int
    var end: int

    ghost predicate Valid()
      reads this
    {
      data.Length == Capacity && 0 <= start <= end <= Capacity
    }

    /** The valid bytes [start, end). */
    ghost function Contents(): seq<Byte>
      reads this, data
      requires Valid()
    {
      data[start..end]
    }

    constructor ()
      ensures Valid() && fresh(data) && Contents() == []
    {
      data := new Byte[Capacity];
      start, end := 0, 0;
    }

    /** buf_start = buf_end = 0, on a (re)connect or when the frame copy cannot be allocated. */
    method Reset()
      requires Valid()
      modifies this
      ensures Valid() && start == 0 && end == 0 && Contents() == []
    {
      start, end := 0, 0;
    }

    /** memmove(data, data + from, len): a forward copy, safe because the target lies below the source. */
    method MoveToFront(from: int, len: int)
      requires Valid() && 0 <= from && 0 <= len && from + len <= Capacity
      modifies data
      ensures data[..len] == old(data[from .. from + len])
      ensures data[len..] == old(data[len..])
    {
      var k := 0;
      while k < len
        invariant 0 <= k <= len
        invariant forall m :: 0 <= m < k ==> data[m] == old(data[from + m])
        invariant forall m :: k <= m < data.Length ==> data[m] == old(data[m])
      {
        data[k] := data[from + k];
        k := k + 1;
      }
    }

    /** memmove the bytes [from, from + len) to offset 0 and make them the whole span. */
    method KeepOnly(from: int, len: int)
      requires Valid() && 0 <= from && 0 <= len && from + len <= Capacity
      modifies this, data
      ensures Valid() && start == 0 && end == len
      ensures Contents() == old(data[from .. from + len])
    {
      if len > 0 {
        MoveToFront(from, len);
      }
      start, end := 0, len;
    }

    /** KeepOnly, for a piece of the valid span given by its offset in that span. */
    method KeepSlice(offset: int, len: int)
      requires Valid() && 0 <= offset && 0 <= len && offset + len <= end - start
      modifies this, data
      ensures Valid() && start == 0 && end == len
      ensures Contents() == old(Contents())[offset .. offset + len]
    {
      ghost var was := data[..];
      SliceOfSlice(was, start, end, offset, offset + len);
      KeepOnly(start + offset, len);
    }

    /** memcpy(frame, data + start + offset, len): an owned copy of part of the span. */
    method CopyOut(offset: int, len: int) returns (f: seq<Byte>)
      requires Valid() && 0 <= offset && 0 <= len && offset + len <= end - start
      ensures f == Contents()[offset .. offset + len]
    {
      SliceOfSlice(data[..], start, end, offset, offset + len);
      f := data[start + offset .. start + offset + len];
    }

    /** memcpy(data + end, chunk, n). */
    method CopyIn(chunk: seq<Byte>, n: int)
      requires Valid() && 0 <= n <= |chunk| && end + n <= Capacity
      modifies data
      ensures data[..end] == old(data[..end])
      ensures data[end .. end + n] == chunk[..n]
    {
      var k := 0;
      while k < n
        invariant 0 <= k <= n
        invariant forall m :: 0 <= m < end ==> data[m] == old(data[m])
        invariant forall m :: 0 <= m < k ==> data[end + m] == chunk[m]
      {
        data[end + k] := chunk[k];
        k := k + 1;
      }
    }

    /** Append a received chunk (got > 0 bytes reported, READ_CHUNK bytes of storage). */
    method Append(chunk: seq<Byte>, got: int)
      requires Valid() && |chunk| == ReadChunk && 0 < got
      modifies this, data
      ensures Valid()
      ensures Contents() == Appended(old(Contents()), chunk, got)
      ensures start == if Min(got, ReadChunk) > Capacity - old(end) then 0 else old(start)
    {
      var tocopy := got;
      if tocopy > ReadChunk {
        tocopy := ReadChunk;
      }
      var freeTail := Capacity - end;
      if tocopy > freeTail {
        var dataLen := end - start;
        KeepSlice(0, dataLen);
        freeTail := Capacity - end;
        if tocopy > freeTail {
          tocopy := freeTail;
        }
      }
      AppendBytes(chunk, tocopy);
    }

    /** memcpy(data + end, chunk, n); end += n. */
    method AppendBytes(chunk: seq<Byte>, n: int)
      requires Valid() && 0 <= n <= |chunk| && end + n <= Capacity
      modifies this, data
      ensures Valid() && start == old(start) && end == old(end) + n
      ensures Contents() == old(Contents()) + chunk[..n]
    {
      ghost var s := Contents();
      CopyIn(chunk, n);
      assert data[start..end] == s by {
        assert data[start..end] == data[..end][start..];
      }
      end := end + n;
      assert data[start..end] == data[start..end - n] + data[end - n .. end];
    }

    /** The backward scan `for (i = limit - 2; i >= start; --i)` for the pair FF code:
        the position of its FF, or -1. */
    method LastMarkerBefore(code: Byte, limit: int) returns (pos: int)
      requires Valid() && start <= limit <= end
      ensures var r := LastMarker(Contents(), code, limit - start);
        pos == if r < 0 then -1 else start + r
    {
      ghost var s := Contents();
      var i := limit - 2;
      while i >= start
        invariant start - 2 <= i <= limit - 2
        invariant LastMarker(s, code, limit - start) == LastMarker(s, code, i - start + 2)
      {
        if data[i] == Prefix && data[i + 1] == code {
          assert MarkerAt(s, i - start, code);
          return i;
        }
        i := i - 1;
      }
      return -1;
    }

    /** The two backward scans shared by the valve and the extraction: the last FF D9
        of the span, then the nearest FF D8 before it. Returns the position of that
        FF D8 and of the D9 byte, or lastSoi = -1 when there is no complete frame. */
    method ScanLatest() returns (lastSoi: int, lastEoi: int)
      requires Valid()
      ensures 0 <= lastSoi ==> start <= lastSoi < lastEoi < end
      ensures 0 <= lastSoi ==> LatestFrame(Contents()) == Some(Span(lastSoi - start, lastEoi - 1 - start))
      ensures lastSoi < 0 ==> LatestFrame(Contents()) == None
    {
      ghost var s := Contents();
      lastSoi, lastEoi := -1, -1;
      var e := LastMarkerBefore(EoiCode, end);
      if e < 0 {
        ScansFindNoFrame(s);
        return;
      }
      lastEoi := e + 1;
      lastSoi := LastMarkerBefore(SoiCode, lastEoi);
      if lastSoi < 0 {
        ScansFindNoFrame(s);
        return;
      }
      ScansFindFrame(s, lastSoi - start, e - start);
    }

    /** compact_to_latest_jpeg_once: true when the latest complete frame was moved to
        offset 0 (all else dropped); otherwise false, the span cut to its last 32 KiB
        when it was longer. */
    method CompactToLatest() returns (found: bool)
      requires Valid()
      modifies this, data
      ensures Valid()
      ensures (found, Contents()) == Valve(old(Contents()))
      ensures found || |old(Contents())| > TailWindow ==> start == 0
      ensures !found && |old(Contents())| <= TailWindow ==>
        start == old(start) && end == old(end) && data[..] == old(data[..])
    {
      if end - start <= 0 {
        assert LatestFrame(Contents()) == None;
        return false;
      }
      var lastSoi, lastEoi := ScanLatest();
      if lastSoi >= 0 {
        KeepFrame(lastSoi, lastEoi);
        return true;
      }
      KeepTail();
      return false;
    }

    /** The valve's found-frame branch: memmove the frame [lastSoi, lastEoi] to offset 0. */
    method KeepFrame(lastSoi: int, lastEoi: int)
      requires Valid() && start <= lastSoi < lastEoi < end
      requires LatestFrame(Contents()) == Some(Span(lastSoi - start, lastEoi - 1 - start))
      modifies this, data
      ensures Valid() && start == 0
      ensures (true, Contents()) == Valve(old(Contents()))
    {
      ghost var s := Contents();
      assert Valve(s) == (true, s[lastSoi - start .. lastEoi + 1 - start]);
      var frameLen := lastEoi + 1 - lastSoi;
      KeepSlice(lastSoi - start, frameLen);
    }

    /** The valve's fallback: keep only the last 32 KiB when the span is longer. */
    method KeepTail()
      requires Valid() && LatestFrame(Contents()) == None
      modifies this, data
      ensures Valid()
      ensures (false, Contents()) == Valve(old(Contents()))
      ensures |old(Contents())| > TailWindow ==> start == 0
      ensures |old(Contents())| <= TailWindow ==>
        start == old(start) && end == old(end) && data[..] == old(data[..])
    {
      ghost var s := Contents();
      var tail := TailWindow;
      if end - start <= tail {
        return;
      }
      var startPos := end - tail;
      KeepSlice(startPos - start, tail);
      assert s[|s| - TailWindow .. |s|] == s[|s| - TailWindow ..];
    }

    /** The main loop's extraction: copy out the latest complete frame and keep only the
        bytes after its EOI; an allocation failure empties the buffer; with no complete
        frame nothing changes. */
    method ExtractLatest(allocOk: bool) returns (x: Extraction)
      requires Valid()
      modifies this, data
      ensures Valid()
      ensures (x, Contents()) == Extract(old(Contents()), allocOk)
      ensures x != NoFrame ==> start == 0
      ensures x == NoFrame ==> start == old(start) && end == old(end) && data[..] == old(data[..])
    {
      var lastSoi, lastEoi := ScanLatest();
      if lastSoi >= 0 {
        x := TakeFrame(allocOk, lastSoi, lastEoi);
        return;
      }
      return NoFrame;
    }

    /** The found-frame branch of the extraction, from the absolute positions of the
        SOI's FF and the EOI's D9. */
    method TakeFrame(allocOk: bool, lastSoi: int, lastEoi: int) returns (x: Extraction)
      requires Valid() && start <= lastSoi < lastEoi < end
      requires LatestFrame(Contents()) == Some(Span(lastSoi - start, lastEoi - 1 - start))
      modifies this, data
      ensures Valid() && start == 0 && x != NoFrame
      ensures (x, Contents()) == Extract(old(Contents()), allocOk)
    {
      ghost var s := Contents();
      ghost var rel := lastEoi + 1 - start;
      ghost var want := Extract(s, allocOk);
      ExtractOfLatest(s, Span(lastSoi - start, lastEoi - 1 - start), allocOk);
      var frameLen := lastEoi + 1 - lastSoi;
      if !allocOk {
        start, end := 0, 0;
        x := AllocFailed;
        assert (x, Contents()) == want;
        return;
      }
      var frame := CopyOut(lastSoi - start, frameLen);
      var remain := end - (lastEoi + 1);
      KeepSlice(lastEoi + 1 - start, remain);
      assert s[rel .. |s|] == s[rel ..];
      x := Extracted(frame);
      assert (x, Contents()) == want;
    }
  }
}
