/**
 * The one-way password hash (argon2 in the service). Only its contract
 * matters to the model: a digest verifies against the password it was made
 * from and against no other. The salt stands for the fresh random salt that
 * each hashing call draws and embeds in its output.
 */
module Passwords {

  /** An argon2 digest; its fields are the model's stand-in for the encoded output. */
  datatype PasswordHash = Argon2(salt: nat, secret: string)

  /**
   * argon.verify(hash, password): the password, hashed again with the salt
   * embedded in the digest, gives that digest.
   */
  predicate Verify(h: PasswordHash, password: string): (ok: bool)
    ensures ok <==> h == Argon2(h.salt, password)
  {
    h.secret == password
  }

  /** argon.hash(password), with the salt it draws given as a parameter. */
  function Hash(password: string, salt: nat): (h: PasswordHash)
    ensures Verify(h, password)
    ensures forall other :: Verify(h, other) ==> other == password
  {
    Argon2(salt, password)
  }
}
