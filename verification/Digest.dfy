/** SHA-256 in hexadecimal, taken as any function from bytes to 64 lower-case hexadecimal digits. */
module Digest {
  import opened Prelude

  type Hash = seq<Byte> -> string

  predicate IsLowerHex(c: char) { '0' <= c <= '9' || 'a' <= c <= 'f' }

  predicate IsDigest(d: string) {
    |d| == 64 && forall i | 0 <= i < 64 :: IsLowerHex(d[i])
  }

  ghost predicate Digests(h: Hash) {
    forall b :: IsDigest(h(b))
  }

  ghost predicate CollisionFree(h: Hash) {
    forall a, b :: h(a) == h(b) ==> a == b
  }
}
