/** The password hasher used by the account service, kept abstract: hashing
    may fail, and what it produces is checked only through `verify`. */
module Secrets {
  import opened Outcomes

  /** A stored password digest, kept as the text the hasher produced. */
  datatype Digest = Digest(text: string)

  /** A hash function and its verifier. The hasher is salted and random, so
      each handler call receives the one it uses. */
  datatype Hasher = Hasher(hash: string -> Option<Digest>, verify: (Digest, string) -> bool)

  /** What any usable hasher guarantees: a digest it produces verifies
      against its own plaintext and is not that plaintext. */
  ghost predicate Sound(h: Hasher) {
    forall pw :: h.hash(pw).Some? ==> h.verify(h.hash(pw).value, pw) && h.hash(pw).value.text != pw
  }
}
