/** Bytes read around the end of a ring. */
module Rings {
  import opened Parameters

  /** `n` bytes from `data` on, around the end of the ring. */
  function RingSlice(ring: seq<byte>, data: int, n: int): seq<byte>
    requires |ring| == CAP && 0 <= data <= CAP && 0 <= n <= CAP
  {
    if data + n > CAP then ring[data..] + ring[..n - (CAP - data)] else ring[data..data + n]
  }

  lemma RingSliceAt(ring: seq<byte>, data: int, n: int, j: int)
    requires |ring| == CAP && 0 <= data <= CAP && 0 <= j < n <= CAP
    ensures |RingSlice(ring, data, n)| == n
    ensures RingSlice(ring, data, n)[j] == ring[(data + j) % CAP]
  {
  }
}
