/**
  The password hasher (bcrypt in the application) as an abstract pair of
  operations. Salt generation is randomness, so the salt is an input.
 */
module Hashing {

  /** `hash(plain, salt)` stands for `hashSync`, `verify(plain, stored)` for `compareSync`. */
  datatype Hasher = Hasher(hash: (string, string) -> string, verify: (string, string) -> bool)

  /** The one property assumed of the hasher: a password verifies against its own hash, whatever the salt. */
  ghost predicate Sound(h: Hasher)
  {
    forall plain, salt :: h.verify(plain, h.hash(plain, salt))
  }
}
