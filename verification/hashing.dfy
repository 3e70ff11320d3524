/**
  The digest function. The system hashes the UTF-8 bytes of a string with
  SHA-256 and renders the result as lowercase hex; here that whole step is a
  parameter `h` of every operation that hashes, so nothing is assumed about
  it except where a lemma asks for `Injective(h)` (no two inputs share a
  digest — the collision resistance the tamper checks depend on).
 */
module Hashing {

  type Hasher = string -> string

  ghost predicate Injective(h: Hasher)
  {
    forall a, b :: h(a) == h(b) ==> a == b
  }
}
