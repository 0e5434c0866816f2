/** The CORS `origin` callback and the allow-list it consults. */
module Cors {
  import opened Wrappers
  import opened Environment

  const LocalReactOrigin: string := "http://localhost:3000"
  const LocalViteOrigin: string := "http://localhost:5173"

  /** `Array.prototype.filter(Boolean)` over optional strings: keeps the truthy ones, in order. */
  function DropFalsy(vs: seq<Option<string>>): (r: seq<string>)
    ensures |r| <= |vs|
    ensures forall x :: x in r <==> x != "" && Some(x) in vs
  {
    if vs == [] then []
    else if Truthy(vs[0]) then [vs[0].value] + DropFalsy(vs[1..])
    else DropFalsy(vs[1..])
  }

  /** `allowedOrigins`: the two configured origins, then the two local development origins. */
  function AllowedOrigins(env: Env): seq<string> {
    DropFalsy([env.frontendUrl, env.railwayPublicDomain, Some(LocalReactOrigin), Some(LocalViteOrigin)])
  }

  /** `callback(null, true)` or `callback(new Error('No permitido por CORS'))`. */
  datatype CorsDecision = Allow | Reject

  /** The `origin` callback: a request without an origin passes; otherwise the allow-list decides. */
  function OriginDecision(origin: Option<string>, allowedOrigins: seq<string>): CorsDecision {
    if !Truthy(origin) then Allow
    else if |allowedOrigins| == 0 || origin.value in allowedOrigins then Allow
    else Reject
  }

  /** The allow-list always holds the two local origins, so it is never empty. */
  lemma AllowListNeverEmpty(env: Env)
    ensures LocalReactOrigin in AllowedOrigins(env) && LocalViteOrigin in AllowedOrigins(env)
    ensures |AllowedOrigins(env)| > 0
  {
  }

  /**
   * A request passes CORS iff it has no origin, or its origin is one of the local
   * development origins or equals FRONTEND_URL or RAILWAY_PUBLIC_DOMAIN.
   */
  lemma OriginAllowedIff(env: Env, origin: Option<string>)
    ensures OriginDecision(origin, AllowedOrigins(env)) == Allow <==>
      || !Truthy(origin)
      || origin.value == LocalReactOrigin
      || origin.value == LocalViteOrigin
      || origin == env.frontendUrl
      || origin == env.railwayPublicDomain
  {
    AllowListNeverEmpty(env);
  }

  /** The `length === 0` branch never decides: the callback is plain membership. */
  lemma EmptyListBranchUnreachable(env: Env, origin: Option<string>)
    ensures OriginDecision(origin, AllowedOrigins(env)) == Allow <==>
      !Truthy(origin) || origin.value in AllowedOrigins(env)
  {
    AllowListNeverEmpty(env);
  }

  /**
   * RAILWAY_PUBLIC_DOMAIN is a bare host (the URL code prepends `https://` to it), while a
   * browser's Origin always carries a scheme and so a ':'. That allow-list entry therefore
   * never admits a browser request: only the local origins and FRONTEND_URL do.
   */
  lemma RailwayEntryNeverMatches(env: Env, origin: string)
    requires env.railwayPublicDomain.Some? ==> ':' !in env.railwayPublicDomain.value
    requires ':' in origin
    ensures OriginDecision(Some(origin), AllowedOrigins(env)) == Allow <==>
      || origin == LocalReactOrigin
      || origin == LocalViteOrigin
      || Some(origin) == env.frontendUrl
  {
    OriginAllowedIff(env, Some(origin));
  }
}
