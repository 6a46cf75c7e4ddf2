/** werkzeug's generate_password_hash / check_password_hash, with the hash function left as a
    parameter (any function of salt and password) and the random salt supplied by the caller. */
module Passwords {

  type Hasher = (nat, string) -> string

  /** What the users table stores: the salt and the digest of salt and password. */
  datatype PasswordHash = PasswordHash(salt: nat, digest: string)

  /** check_password_hash: rehash the password under the stored salt and compare digests. */
  predicate Check(hash: Hasher, stored: PasswordHash, password: string) {
    hash(stored.salt, password) == stored.digest
  }

  /** A freshly generated hash always verifies against the password it was made from. */
  function Generate(hash: Hasher, salt: nat, password: string): (stored: PasswordHash)
    ensures Check(hash, stored, password)
    ensures stored.salt == salt
  {
    PasswordHash(salt, hash(salt, password))
  }

  /** A stored hash verifies a password exactly when generating a hash of that password under the
      stored salt would have produced it. */
  lemma CheckIffGenerated(hash: Hasher, stored: PasswordHash, password: string)
    ensures Check(hash, stored, password) <==> stored == Generate(hash, stored.salt, password)
  {
  }
}
