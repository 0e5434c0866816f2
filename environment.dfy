/**
 * The process environment: read at start-up for the CORS allow-list and the connection
 * string, and read again on each upload and listing request for RAILWAY_PUBLIC_DOMAIN.
 */
module Environment {
  import opened Wrappers

  /**
   * FRONTEND_URL, RAILWAY_PUBLIC_DOMAIN, MONGODB_URI and MONGO_URL. `None` is an unset
   * variable; a set variable may still be the empty string.
   */
  datatype Env = Env(
    frontendUrl: Option<string>,
    railwayPublicDomain: Option<string>,
    mongodbUri: Option<string>,
    mongoUrl: Option<string>)

  /** JavaScript truthiness of an optional string: set and non-empty. */
  predicate Truthy(v: Option<string>) {
    v.Some? && v.value != ""
  }
}
