/**
 * `vae_compress` of backend/app.py: the bytes viewed as an unsigned 8-bit array and
 * strided with `arr[::2]`, keeping the bytes at even positions.
 */
module Vae {
  import opened Bits

  /** `np.frombuffer(content, dtype=np.uint8)[::2].tobytes()`. */
  function Downsample(s: seq<Byte>): (r: seq<Byte>)
    ensures |r| == (|s| + 1) / 2
    ensures forall i :: 0 <= i < |r| ==> r[i] == s[2 * i]
  {
    if |s| <= 1 then s else [s[0]] + Downsample(s[2..])
  }
}
