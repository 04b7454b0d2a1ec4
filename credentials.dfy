/** Stand-ins for the password hashing library and the signed session token. Salting,
    the cost factor and the signature itself are not modelled. */
module Credentials {

  /** A stored password hash. Its only content is what it was made from, so a stored
      hash is never the plaintext string itself, and verification is exact. */
  datatype PasswordHash = Bcrypt(source: string)

  function Hash(password: string): PasswordHash {
    Bcrypt(password)
  }

  /** `bcrypt.compare(candidate, hash)`. */
  predicate Verify(candidate: string, hash: PasswordHash) {
    hash.source == candidate
  }

  /** A hash verifies against exactly the password it was made from. */
  lemma VerifyHash(candidate: string, password: string)
    ensures Verify(candidate, Hash(password)) <==> candidate == password
  {
  }

  /** An opaque signed token carrying the payload `{id, name}`. */
  datatype Token = Signed(id: nat, name: string)
}
