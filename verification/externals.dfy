/**
 * The libraries the handlers call but that are not part of this model: `semver.valid`,
 * Node's sha256, bcryptjs and jsonwebtoken. They are passed to the handlers as function
 * values, so every property proved here holds whatever these functions compute.
 */
module Externals {
  import opened Wrappers

  newtype byte = x: int | 0 <= x < 256
  type Bytes = seq<byte>

  /** The payload `login` signs: the subject and the lifetime in seconds. */
  datatype Claims = Claims(sub: string, expiresIn: nat)

  /** `expiresIn: '30d'`, in seconds. */
  const ThirtyDays: nat := 30 * 24 * 60 * 60

  datatype Services = Services(
    /** `semver.valid(v)` is truthy */
    semverValid: string -> bool,
    /** `crypto.createHash('sha256').update(dist).digest('hex')` */
    sha256Hex: Bytes -> string,
    /** `bcrypt.hash(password, 8)`; None when the callback reports an error */
    bcryptHash: string -> Option<string>,
    /** `bcrypt.compare(password, hash)`; None when the callback reports an error */
    bcryptCompare: (string, string) -> Option<bool>,
    /** `jwt.sign(claims, secret)`; None when the callback reports an error */
    jwtSign: Claims -> Option<string>,
    /** `jwt.verify(token, secret)`; None when the token is rejected */
    jwtVerify: string -> Option<Claims>)
}
