/** Overwriting part of a buffer, on values. */
module Buffer {

  // `image` with the characters from `p` on replaced by `bytes`.
  function Overwrite(image: string, p: nat, bytes: string): (out: string)
    requires p + |bytes| <= |image|
    ensures |out| == |image|
  {
    image[..p] + bytes + image[p + |bytes|..]
  }

  lemma OverwriteIs(image: string, p: nat, bytes: string, out: string)
    requires p + |bytes| <= |image| == |out|
    requires forall i :: 0 <= i < p || p + |bytes| <= i < |image| ==> out[i] == image[i]
    requires forall i :: 0 <= i < |bytes| ==> out[p + i] == bytes[i]
    ensures out == Overwrite(image, p, bytes)
  {
  }

  lemma OverwriteSlices(image: string, p: nat, bytes: string)
    requires p + |bytes| <= |image|
    ensures var out := Overwrite(image, p, bytes);
      var q := p + |bytes|;
      out[..p] == image[..p] && out[p..q] == bytes && out[q..] == image[q..]
  {
  }

  // What is `k` characters past `p`, when `bytes` does not reach that far.
  lemma OverwriteRest(image: string, p: nat, bytes: string, k: nat, end: nat)
    requires |bytes| <= k && p + k <= end <= |image|
    ensures Overwrite(image, p, bytes)[p + k..end] == image[p..end][k..]
  {
  }

  // The beginning of a slice.
  lemma SliceHead(image: string, p: nat, end: nat, n: nat)
    requires p + n <= end <= |image|
    ensures image[p..p + n] == image[p..end][..n]
  {
  }

  lemma OverwriteHead(image: string, p: nat, bytes: string)
    requires p + |bytes| <= |image|
    ensures Overwrite(image, p, bytes)[..p + |bytes|] == image[..p] + bytes
  {
  }

  lemma OverwriteJoin(image: string, p: nat, a: string, b: string)
    requires p + |a| + |b| <= |image|
    ensures Overwrite(Overwrite(image, p, a), p + |a|, b) == Overwrite(image, p, a + b)
  {
  }

  lemma OverwriteAgain(image: string, p: nat, a: string, b: string)
    requires |a| <= |b| && p + |b| <= |image|
    ensures Overwrite(Overwrite(image, p, a), p, b) == Overwrite(image, p, b)
  {
  }

  lemma OverwriteNothing(image: string, p: nat)
    requires p <= |image|
    ensures Overwrite(image, p, "") == image
  {
  }
}
