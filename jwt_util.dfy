/** The access-token helper (`JwtUtil`) the session service and the request filter call.
    Its signing and parsing (JWT, RFC 7519) are not part of this model: each operation is
    an opaque function supplied from outside, and a parse that throws is `Threw`. */
module Jwt {
  import opened Wrappers
  import opened Users

  datatype JwtUtil = JwtUtil(
    /** `generateAccessToken(user)`. */
    generateAccessToken: User -> string,
    /** `extractEmail(token)`: the subject claim, `None` for a null subject. */
    extractEmail: string -> Call<Option<string>>,
    /** `validateToken(token, user)`. */
    validateToken: (string, User) -> Call<bool>)
}
