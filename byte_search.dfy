/** Forward search for a byte pattern inside a half-open range of a buffer (find_bytes). */
module ByteSearch {
  import opened Markers

  /** The first patlen bytes of pat occur in buf at position i. */
  ghost predicate MatchAt(buf: seq<Byte>, i: int, pat: seq<Byte>, patlen: int)
    requires 0 <= patlen <= |pat|
  {
    0 <= i && i + patlen <= |buf| && forall j :: 0 <= j < patlen ==> buf[i + j] == pat[j]
  }

  /** -1 for an empty pattern; otherwise the smallest i >= start with the pattern wholly
      inside [start, end), or -1 when there is none. */
  method FindBytes(buf: seq<Byte>, start: int, end: int, pat: seq<Byte>, patlen: int) returns (r: int)
    requires 0 <= start && end <= |buf| && patlen <= |pat|
    ensures patlen <= 0 ==> r == -1
    ensures r != -1 ==> 0 < patlen && start <= r && r + patlen <= end && MatchAt(buf, r, pat, patlen)
    ensures r != -1 ==> forall i :: start <= i < r ==> !MatchAt(buf, i, pat, patlen)
    ensures r == -1 && 0 < patlen ==> forall i :: start <= i && i + patlen <= end ==> !MatchAt(buf, i, pat, patlen)
  {
    if patlen <= 0 {
      return -1;
    }
    var i := start;
    while i + patlen <= end
      invariant start <= i
      invariant forall k :: start <= k < i ==> !MatchAt(buf, k, pat, patlen)
    {
      var ok := true;
      var j := 0;
      while j < patlen
        invariant 0 <= j <= patlen
        invariant ok <==> forall m :: 0 <= m < j ==> buf[i + m] == pat[m]
      {
        if buf[i + j] != pat[j] {
          ok := false;
          break;
        }
        j := j + 1;
      }
      if ok {
        return i;
      }
      i := i + 1;
    }
    return -1;
  }
}
