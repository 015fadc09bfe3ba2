/** The password hashing library seen through the only property the handlers
    rely on: a digest made from a password is accepted for that password.

    `Checksum` is a stand-in for the adaptive hash, not the real algorithm: the
    model never inspects a digest except through `Matches`. The salt, which the
    library draws at random, is a parameter. */
module Crypto {

  /** Cost factor passed to the hash by the registration handler. */
  const COST := 10

  /** A stored password hash. Like a real digest it carries its cost and salt,
      so that a later comparison can recompute it. */
  datatype Digest = Digest(cost: nat, salt: int, checksum: int)

  function Checksum(password: string, cost: nat, salt: int): int
    decreases |password|
  {
    if password == [] then salt + cost
    else Checksum(password[..|password| - 1], cost, salt) * 131 + password[|password| - 1] as int
  }

  /** Hash a password with the given cost and salt. */
  function Hash(password: string, cost: nat, salt: int): (d: Digest)
    ensures d.cost == cost && d.salt == salt
  {
    Digest(cost, salt, Checksum(password, cost, salt))
  }

  /** The library's comparison: rehash with the digest's own cost and salt. */
  predicate Matches(password: string, d: Digest)
  {
    Hash(password, d.cost, d.salt) == d
  }

  /** A digest always matches the password it was made from. */
  lemma HashMatches(password: string, cost: nat, salt: int)
    ensures Matches(password, Hash(password, cost, salt))
  {
  }
}
