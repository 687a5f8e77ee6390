/** Fixed-width words as std::bitset and int64_t shift and mask them; bit 0 comes first. */
module Bits {

  type Word = seq<bool>

  const WORD_BITS := 64
  const WINDOW_BITS := 1024

  function Zeros(n: nat): (r: Word)
    ensures |r| == n && forall b :: 0 <= b < n ==> !r[b]
  {
    if n == 0 then [] else Zeros(n - 1) + [false]
  }

  function ShiftLeft(w: Word, k: nat): (r: Word)
    ensures |r| == |w| && forall b :: 0 <= b < |w| ==> (r[b] <==> b >= k && w[b - k])
  {
    if k >= |w| then Zeros(|w|) else Zeros(k) + w[..|w| - k]
  }

  function ShiftRight(w: Word, k: nat): (r: Word)
    ensures |r| == |w| && forall b :: 0 <= b < |w| ==> (r[b] <==> b + k < |w| && w[b + k])
  {
    if k >= |w| then Zeros(|w|) else w[k..] + Zeros(k)
  }

  function And(v: Word, w: Word): (r: Word)
    requires |v| == |w|
    ensures |r| == |w| && forall b :: 0 <= b < |w| ==> (r[b] <==> v[b] && w[b])
  {
    if w == [] then [] else And(v[..|v| - 1], w[..|w| - 1]) + [v[|v| - 1] && w[|w| - 1]]
  }

  function Or(v: Word, w: Word): (r: Word)
    requires |v| == |w|
    ensures |r| == |w| && forall b :: 0 <= b < |w| ==> (r[b] <==> v[b] || w[b])
  {
    if w == [] then [] else Or(v[..|v| - 1], w[..|w| - 1]) + [v[|v| - 1] || w[|w| - 1]]
  }

  /** A dependency word as a window-wide bitset. */
  function Widen(w: Word): (r: Word)
    requires |w| == WORD_BITS
    ensures |r| == WINDOW_BITS && forall b :: 0 <= b < WINDOW_BITS ==> (r[b] <==> b < WORD_BITS && w[b])
  {
    w + Zeros(WINDOW_BITS - WORD_BITS)
  }

  /** `(v & w) == w`: every bit of `w` is set in `v`. */
  predicate Covers(v: Word, w: Word)
    requires |v| == |w|
    ensures Covers(v, w) <==> forall b :: 0 <= b < |w| && w[b] ==> v[b]
  {
    assert (forall b :: 0 <= b < |w| && w[b] ==> v[b]) ==> And(v, w) == w;
    assert And(v, w) == w ==> forall b :: 0 <= b < |w| && w[b] ==> And(v, w)[b];
    And(v, w) == w
  }
}
