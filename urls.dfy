/** The public retrieval URL that the upload and listing routes hand out. */
module Urls {
  import opened Wrappers
  import opened Text
  import opened Environment

  /** What the routes read from the request: `req.protocol` and `req.get('host')`. */
  datatype RequestContext = RequestContext(protocol: string, host: Option<string>)

  const FilesRoute: string := "/api/files/"

  /** A template literal prints a missing Host header as "undefined". */
  function HostText(host: Option<string>): string {
    if host.Some? then host.value else "undefined"
  }

  /** `baseUrl`: the public domain over https when RAILWAY_PUBLIC_DOMAIN is set, else the request's own. */
  function BaseUrl(env: Env, ctx: RequestContext): string {
    if Truthy(env.railwayPublicDomain) then "https://" + env.railwayPublicDomain.value
    else ctx.protocol + "://" + HostText(ctx.host)
  }

  /** `${baseUrl}/api/files/${id}`. */
  function FileUrl(base: string, id: string): string {
    base + FilesRoute + id
  }

  /** Reads the id back out of a retrieval URL built on `base`. */
  function IdFromUrl(base: string, url: string): Option<string> {
    var prefix := base + FilesRoute;
    if IsPrefix(prefix, url) then Some(url[|prefix|..]) else None
  }

  /** The id is the last part of its URL: it can be read back, so distinct ids get distinct URLs. */
  lemma {:induction false} IdFromFileUrl(base: string, id: string)
    ensures IdFromUrl(base, FileUrl(base, id)) == Some(id)
  {
    var prefix := base + FilesRoute;
    assert FileUrl(base, id) == prefix + id;
    assert (prefix + id)[..|prefix|] == prefix;
    assert (prefix + id)[|prefix|..] == id;
  }

  lemma FileUrlInjective(base: string, a: string, b: string)
    ensures FileUrl(base, a) == FileUrl(base, b) <==> a == b
  {
    IdFromFileUrl(base, a);
    IdFromFileUrl(base, b);
  }

  /** The two forms of the URL, with and without the public-domain override. */
  lemma FileUrlForms(env: Env, ctx: RequestContext, id: string)
    ensures Truthy(env.railwayPublicDomain) ==>
      FileUrl(BaseUrl(env, ctx), id) == "https://" + env.railwayPublicDomain.value + "/api/files/" + id
    ensures !Truthy(env.railwayPublicDomain) ==>
      FileUrl(BaseUrl(env, ctx), id) == ctx.protocol + "://" + HostText(ctx.host) + "/api/files/" + id
  {
  }

  /** With the override set, the request's scheme and host play no part. */
  lemma OverrideIgnoresRequest(env: Env, c1: RequestContext, c2: RequestContext, id: string)
    requires Truthy(env.railwayPublicDomain)
    ensures FileUrl(BaseUrl(env, c1), id) == FileUrl(BaseUrl(env, c2), id)
  {
  }
}
