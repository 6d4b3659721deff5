/** Byte strings, digests and the hash function every construction is parameterised by.
    SHA-512 is a parameter, so each theorem holds for every function from byte strings to
    64-byte digests. Where a theorem needs collision resistance it assumes injectivity on
    an explicitly given, finite set of preimages and on nothing else. */
module Hashing {
  type Byte = c: char | c as int < 256
  type Bytes = seq<Byte>
  type Bytes64 = b: Bytes | |b| == 64 witness seq(64, _ => '\0')
  datatype Digest = Digest(bytes: Bytes64)
  type Sha512 = Bytes -> Digest

  const NUL: Byte := '\0'

  ghost predicate NoCollision(H: Sha512, x: Bytes, y: Bytes) {
    H(x) == H(y) ==> x == y
  }

  ghost predicate InjectiveOn(H: Sha512, queries: set<Bytes>) {
    forall x, y {:trigger NoCollision(H, x, y)} | x in queries && y in queries :: NoCollision(H, x, y)
  }

  lemma Collide(H: Sha512, queries: set<Bytes>, x: Bytes, y: Bytes)
    requires InjectiveOn(H, queries) && x in queries && y in queries
    requires H(x) == H(y)
    ensures x == y
  {
    assert NoCollision(H, x, y);
  }
}
