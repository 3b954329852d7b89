/** Words and bytes as strings of bits. */
module Bits {
  /** n bits of which only bit k is set, if there is such a bit. */
  function OneHot(n: nat, k: int): (w: seq<bool>)
    ensures |w| == n && forall i :: 0 <= i < n ==> (w[i] <==> i == k)
  {
    seq(n, i => i == k)
  }

  function Or(v: seq<bool>, w: seq<bool>): (r: seq<bool>)
    requires |v| == |w|
    ensures |r| == |v| && forall i :: 0 <= i < |v| ==> (r[i] <==> v[i] || w[i])
  {
    seq(|v|, i requires 0 <= i < |v| => v[i] || w[i])
  }
}
