/** Password hashing and signed tokens, as uninterpreted operations: a bcrypt
    digest remembers the password it was made from, and a signed token carries
    its claims. Nothing here models the cryptography itself. */
module Crypto {
  import opened JsonValues

  /** A bcrypt digest; `salt` stands for the random salt each hashing draws. */
  datatype PasswordHash = Bcrypt(salt: int, password: string)

  /** `pwd_context.verify(plain, hashed)`. */
  predicate Verify(plain: string, hashed: PasswordHash)
  {
    hashed.password == plain
  }

  /** `pwd_context.hash(password)`, the salt being supplied by the caller. */
  function Hash(password: string, salt: int): (h: PasswordHash)
    ensures Verify(password, h)
    ensures forall other :: Verify(other, h) ==> other == password
  {
    Bcrypt(salt, password)
  }

  /** A JSON web token. `Signed` tokens are those produced with the server key
      and carry their claims; anything else a client sends is `Unsigned`. */
  datatype Jwt = Signed(claims: map<string, Json>) | Unsigned(text: string)

  /** `jwt.encode(payload | {"exp": exp}, key)`; `exp` in whole seconds. */
  function Encode(payload: map<string, Json>, exp: int): Jwt
  {
    Signed(payload["exp" := JInt(exp)])
  }
}
