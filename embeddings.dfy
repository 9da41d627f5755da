/**
 * Face embeddings and the split of a 128-component embedding into the
 * `vec_low` and `vec_high` halves the store keeps and queries.
 */
module Embeddings {

  /**
   * One component of an embedding. The model never computes with
   * components, so their floating-point nature plays no part.
   */
  type Component = real

  /** An embedding as the face detector produces it (128 components). */
  type Embedding = seq<Component>

  /** The two halves sent to or stored in the `cube` columns. */
  datatype Halves = Halves(low: Embedding, high: Embedding)

  /** Python's `s[lo:hi]` for `0 <= lo <= hi`: the bounds are clamped to `len(s)`. */
  function Slice(s: Embedding, lo: nat, hi: nat): (r: Embedding)
    requires lo <= hi
    ensures |r| == (if hi <= |s| then hi - lo else if lo <= |s| then |s| - lo else 0)
    ensures forall i :: 0 <= i < |r| ==> r[i] == s[lo + i]
  {
    if |s| <= lo then [] else if |s| <= hi then s[lo..] else s[lo..hi]
  }

  /** `encoding[0:64]` and `encoding[64:128]`. */
  function Split(enc: Embedding): Halves
  {
    Halves(Slice(enc, 0, 64), Slice(enc, 64, 128))
  }

  /**
   * The two halves put back together give the embedding's first 128
   * components (all of it when it has at most 128).
   */
  lemma SplitKeepsFirst128(enc: Embedding)
    ensures Split(enc).low + Split(enc).high == enc[..if |enc| < 128 then |enc| else 128]
  {}

  /**
   * For an embedding of exactly 128 components both halves have 64
   * components and concatenate back to the embedding.
   */
  lemma SplitRoundTrip(enc: Embedding)
    requires |enc| == 128
    ensures |Split(enc).low| == 64 && |Split(enc).high| == 64
    ensures Split(enc).low + Split(enc).high == enc
  {}
}
