/**
 JPEG frame delimiters inside an unsegmented Motion-JPEG byte stream, and the
 "latest complete frame" rule: the last end-of-image marker (FF D9) paired with
 the nearest start-of-image marker (FF D8) before it (ITU-T T.81, Annex B,
 section B.1.1.3, Table B.1).
 */
module Markers {

  type Byte = bv8

  datatype Option<T> = None | Some(value: T)

  function Min(a: int, b: int): int { if a < b then a else b }

  const Prefix: Byte := 0xFF
  /** Second byte of the start-of-image marker. */
  const SoiCode: Byte := 0xD8
  /** Second byte of the end-of-image marker. */
  const EoiCode: Byte := 0xD9

  /** The two-byte marker `FF code` starts at position i of s. */
  predicate MarkerAt(s: seq<Byte>, i: int, code: Byte)
  {
    0 <= i && i + 1 < |s| && s[i] == Prefix && s[i + 1] == code
  }

  /** Position of the last `FF code` pair lying wholly below hi (i + 1 < hi), or -1:
      the backward scan from hi - 2 down to 0 of source/main.c. */
  function LastMarker(s: seq<Byte>, code: Byte, hi: int): (r: int)
    requires hi <= |s|
    ensures -1 <= r
    ensures 0 <= r ==> r + 1 < hi && MarkerAt(s, r, code)
    ensures forall j :: r < j && j + 1 < hi ==> !MarkerAt(s, j, code)
    decreases hi
  {
    if hi < 2 then -1
    else if MarkerAt(s, hi - 2, code) then hi - 2
    else LastMarker(s, code, hi - 1)
  }

  /** A frame inside a span: soi is where its FF D8 starts, eoi where its FF D9 starts. */
  datatype Span = Span(soi: nat, eoi: nat)

  /** Declarative reading of "the latest complete frame of s": an SOI before an EOI,
      no EOI after that one, and no SOI between the two. */
  ghost predicate IsLatestFrame(s: seq<Byte>, sp: Span)
  {
    && sp.soi < sp.eoi
    && MarkerAt(s, sp.soi, SoiCode)
    && MarkerAt(s, sp.eoi, EoiCode)
    && (forall j :: sp.eoi < j ==> !MarkerAt(s, j, EoiCode))
    && (forall j :: sp.soi < j < sp.eoi ==> !MarkerAt(s, j, SoiCode))
  }

  /** The two backward scans: the last EOI, then the nearest SOI before it. */
  function LatestFrame(s: seq<Byte>): (f: Option<Span>)
    ensures f.Some? ==> IsLatestFrame(s, f.value)
  {
    var e := LastMarker(s, EoiCode, |s|);
    if e < 0 then None
    else
      var b := LastMarker(s, SoiCode, e + 1);
      if b < 0 then None else Some(Span(b, e))
  }

  /** What the two scans' results say about LatestFrame. */
  lemma ScansFindFrame(s: seq<Byte>, b: int, e: int)
    requires 0 <= e == LastMarker(s, EoiCode, |s|)
    requires 0 <= b == LastMarker(s, SoiCode, e + 1)
    ensures LatestFrame(s) == Some(Span(b, e))
  {
  }

  lemma ScansFindNoFrame(s: seq<Byte>)
    requires LastMarker(s, EoiCode, |s|) < 0
      || LastMarker(s, SoiCode, LastMarker(s, EoiCode, |s|) + 1) < 0
    ensures LatestFrame(s) == None
  {
  }

  /** The bytes of a frame, SOI through EOI inclusive. */
  function Frame(s: seq<Byte>, sp: Span): (f: seq<Byte>)
    requires sp.soi <= sp.eoi && sp.eoi + 2 <= |s|
    ensures |f| == sp.eoi + 2 - sp.soi
  {
    s[sp.soi .. sp.eoi + 2]
  }

  /** The bytes that followed a frame's EOI. */
  function After(s: seq<Byte>, sp: Span): (rest: seq<Byte>)
    requires sp.eoi + 2 <= |s|
    ensures |rest| == |s| - (sp.eoi + 2)
  {
    s[sp.eoi + 2 ..]
  }

  /** The scan finds exactly the frame the declarative rule describes, and only it. */
  lemma LatestFrameIff(s: seq<Byte>, sp: Span)
    ensures LatestFrame(s) == Some(sp) <==> IsLatestFrame(s, sp)
  {
    if IsLatestFrame(s, sp) {
      var e := LastMarker(s, EoiCode, |s|);
      assert sp.eoi <= e;
      assert e == sp.eoi;
      var b := LastMarker(s, SoiCode, e + 1);
      assert sp.soi <= b;
      assert b == sp.soi;
    }
  }

  /** No complete frame exactly when no span satisfies the declarative rule. */
  lemma NoLatestFrameIff(s: seq<Byte>)
    ensures LatestFrame(s) == None <==> forall sp: Span :: !IsLatestFrame(s, sp)
  {
    if LatestFrame(s) == None {
      forall sp: Span ensures !IsLatestFrame(s, sp) {
        LatestFrameIff(s, sp);
      }
    }
  }

  /** A frame as the scan extracts it: starts with SOI, ends with EOI, and holds no
      other SOI (it may hold earlier EOIs). */
  ghost predicate FrameShaped(f: seq<Byte>)
  {
    && 4 <= |f|
    && MarkerAt(f, 0, SoiCode)
    && MarkerAt(f, |f| - 2, EoiCode)
    && (forall j :: 0 < j < |f| - 2 ==> !MarkerAt(f, j, SoiCode))
  }

  lemma LatestFrameIsShaped(s: seq<Byte>, sp: Span)
    requires IsLatestFrame(s, sp)
    ensures FrameShaped(Frame(s, sp))
  {
    var f := Frame(s, sp);
    forall j | 0 < j < |f| - 2 ensures !MarkerAt(f, j, SoiCode) {
      assert MarkerAt(f, j, SoiCode) ==> MarkerAt(s, sp.soi + j, SoiCode);
    }
  }

  /** Latest wins: whatever precedes a frame (earlier complete frames included) is
      superseded, provided no EOI follows the frame's own. */
  lemma LatestWins(a: seq<Byte>, f: seq<Byte>, c: seq<Byte>)
    requires FrameShaped(f)
    requires forall j :: |f| - 2 < j ==> !MarkerAt(f + c, j, EoiCode)
    ensures LatestFrame(a + f + c) == Some(Span(|a|, |a| + |f| - 2))
    ensures Frame(a + f + c, Span(|a|, |a| + |f| - 2)) == f
    ensures After(a + f + c, Span(|a|, |a| + |f| - 2)) == c
  {
    var s := a + f + c;
    var sp := Span(|a|, |a| + |f| - 2);
    assert s == a + (f + c);
    assert MarkerAt(f + c, 0, SoiCode);
    assert MarkerAt(f + c, |f| - 2, EoiCode);
    forall j | sp.eoi < j ensures !MarkerAt(s, j, EoiCode) {
      if MarkerAt(s, j, EoiCode) {
        assert MarkerAt(f + c, j - |a|, EoiCode);
      }
    }
    forall j | sp.soi < j < sp.eoi ensures !MarkerAt(s, j, SoiCode) {
      if MarkerAt(s, j, SoiCode) {
        assert MarkerAt(f, j - |a|, SoiCode);
      }
    }
    LatestFrameIff(s, sp);
    assert s[sp.soi .. sp.eoi + 2] == f;
    assert s[sp.eoi + 2 ..] == c;
  }

  /** An extracted frame, scanned again on its own, is its own latest frame. */
  lemma ShapedFrameIsLatest(f: seq<Byte>)
    requires FrameShaped(f)
    ensures LatestFrame(f) == Some(Span(0, |f| - 2))
  {
    var none: seq<Byte> := [];
    assert none + f + none == f;
    assert f + none == f;
    LatestWins(none, f, none);
  }

  /** The bytes left behind after the latest frame hold no EOI, hence no complete frame. */
  lemma AfterHasNoFrame(s: seq<Byte>, sp: Span)
    requires IsLatestFrame(s, sp)
    ensures LatestFrame(After(s, sp)) == None
  {
    var rest := After(s, sp);
    forall j ensures !MarkerAt(rest, j, EoiCode) {
      if MarkerAt(rest, j, EoiCode) {
        assert MarkerAt(s, sp.eoi + 2 + j, EoiCode);
      }
    }
    assert LastMarker(rest, EoiCode, |rest|) < 0;
  }

  /** A frame holding no marker but its own SOI and EOI. */
  ghost predicate SingleFrame(f: seq<Byte>)
  {
    && FrameShaped(f)
    && (forall j :: j != |f| - 2 ==> !MarkerAt(f, j, EoiCode))
  }

  /** A frame of a + p whose EOI starts before |a| - 1 is already a frame of a, when
      p brings no EOI of its own. */
  lemma FrameOfPrefix(a: seq<Byte>, p: seq<Byte>, sp: Span)
    requires IsLatestFrame(a + p, sp)
    requires forall j :: |a| - 1 <= j ==> !MarkerAt(a + p, j, EoiCode)
    ensures IsLatestFrame(a, sp)
  {
    var s := a + p;
    assert MarkerAt(a, sp.soi, SoiCode) && MarkerAt(a, sp.eoi, EoiCode);
    forall j | sp.eoi < j ensures !MarkerAt(a, j, EoiCode) {
      assert MarkerAt(a, j, EoiCode) ==> MarkerAt(s, j, EoiCode);
    }
    forall j | sp.soi < j < sp.eoi ensures !MarkerAt(a, j, SoiCode) {
      assert MarkerAt(a, j, SoiCode) ==> MarkerAt(s, j, SoiCode);
    }
  }

  /** Bytes that bring no EOI of their own, appended to bytes without a complete frame,
      complete none. */
  lemma NoEoiKeepsNoFrame(a: seq<Byte>, p: seq<Byte>)
    requires LatestFrame(a) == None
    requires forall j :: |a| - 1 <= j ==> !MarkerAt(a + p, j, EoiCode)
    ensures LatestFrame(a + p) == None
  {
    forall sp: Span ensures !IsLatestFrame(a + p, sp) {
      if IsLatestFrame(a + p, sp) {
        FrameOfPrefix(a, p, sp);
        LatestFrameIff(a, sp);
      }
    }
    NoLatestFrameIff(a + p);
  }

  /** A suffix of bytes holding no complete frame holds none either: any EOI in the
      suffix is at or before the last EOI of the whole, which has no SOI before it. */
  lemma NoFrameInSuffix(s: seq<Byte>, k: int)
    requires LatestFrame(s) == None && 0 <= k <= |s|
    ensures LatestFrame(s[k..]) == None
  {
    var t := s[k..];
    forall j ensures MarkerAt(t, j, EoiCode) ==> MarkerAt(s, j + k, EoiCode) {
    }
    forall j ensures MarkerAt(t, j, SoiCode) ==> MarkerAt(s, j + k, SoiCode) {
    }
    var et := LastMarker(t, EoiCode, |t|);
    if 0 <= et {
      var bt := LastMarker(t, SoiCode, et + 1);
      assert et + k <= LastMarker(s, EoiCode, |s|);
    }
  }
}
