/**
 * The session-token functions the handlers call. Their signing, expiry
 * checking and clock live in a signing library outside this model, so the
 * two functions are parameters: `create` stands for `create_token` at the
 * moment it is called, `verify` for `verify_token`.
 */
module Tokens {

  import opened Wrappers

  datatype TokenAuthority = TokenAuthority(create: string -> string, verify: string -> Option<string>)

  /** A token issued for `id` is accepted and names `id` again. */
  predicate RoundTrips(tokens: TokenAuthority, id: string) {
    tokens.verify(tokens.create(id)) == Some(id)
  }
}
