/** Which version a request reads: two middlewares in a row, and the one-line decision they
    stand for. */
module ReadScopes {
  import opened Wrappers
  import opened Bytes
  import opened Access

  /** The zero value is not a scope. */
  datatype ReadScope = ReadScope(version: Bytes, valid: bool)

  const NO_SCOPE := ReadScope("", false)

  function Draft(): ReadScope { ReadScope("", true) }

  function Release(version: Bytes): (r: ReadScope)
    ensures r.valid && r.version == version
  {
    if version == "" then Draft() else ReadScope(version, true)
  }

  datatype Method = GET | HEAD | OPTIONS | Other(name: Bytes)

  predicate IsSafe(m: Method) { !m.Other? }

  datatype Project = Project(id: Bytes, public: bool, resource: Resource)

  /** What travels with a request: the ambient version and the scope. */
  datatype Context = Context(version: Bytes, scope: ReadScope)

  /** A request: its method, its version parameter, and what is loaded for it. */
  datatype Request = Request(verb: Method, query: Bytes, snap: Option<Snapshot>, project: Option<Project>)

  /** A handler is reached with a context, or the request is refused. */
  datatype Handled = Reached(ctx: Context) | MethodNotAllowed

  predicate CanEdit(snap: Option<Snapshot>, p: Project) {
    Can(snap, Capability(ProjectSubject, Edit), p.resource, None)
  }

  function EffectiveVersion(snap: Option<Snapshot>, project: Option<Project>, explicit: Bytes, latest: Bytes): Bytes {
    if explicit != "" then explicit
    else if project.None? || !project.value.public || CanEdit(snap, project.value) then ""
    else latest
  }

  function ResolveReadScope(snap: Option<Snapshot>, project: Option<Project>, explicit: Bytes, latest: Bytes): ReadScope {
    Release(EffectiveVersion(snap, project, explicit, latest))
  }

  // ---------------------------------------------------------------- the middlewares

  function WithProjectVersionContext(req: Request, ctx: Context): Handled {
    if req.query == "" then Reached(ctx.(scope := Draft()))
    else if !IsSafe(req.verb) then MethodNotAllowed
    else Reached(Context(req.query, Release(req.query)))
  }

  /** `lookup` is the latest release, "" if there is none, or none if the lookup failed. */
  function ResolveContentVersion(req: Request, lookup: Option<Bytes>, ctx: Context): Context {
    if ctx.version != "" || req.query != "" || !IsSafe(req.verb) then ctx
    else if req.project.None? || !req.project.value.public then ctx.(scope := Draft())
    else if CanEdit(req.snap, req.project.value) then ctx.(scope := Draft())
    else if lookup.None? then ctx.(scope := Draft())
    else
      var v := EffectiveVersion(req.snap, req.project, "", lookup.value);
      Context(if v != "" then v else ctx.version, Release(v))
  }

  /** The chain, from a fresh context. */
  function Chain(req: Request, lookup: Option<Bytes>): Handled {
    match WithProjectVersionContext(req, Context("", NO_SCOPE))
    case MethodNotAllowed => MethodNotAllowed
    case Reached(ctx) => Reached(ResolveContentVersion(req, lookup, ctx))
  }

  // ---------------------------------------------------------------- what the chain amounts to

  /** Every safe request whose release lookup does not fail is served at exactly the decided
      scope. */
  lemma SafeRequestsRefine(req: Request, lookup: Option<Bytes>)
    requires IsSafe(req.verb) && lookup.Some?
    ensures Chain(req, lookup).Reached?
    ensures Chain(req, lookup).ctx.scope == ResolveReadScope(req.snap, req.project, req.query, lookup.value)
  {
    hide Can;
  }

  /** A failed lookup serves the working state unless a version was asked for. */
  lemma FailedLookup(req: Request)
    requires IsSafe(req.verb)
    ensures Chain(req, None) == Reached(Context(req.query, Release(req.query)))
  {
    hide Can;
  }

  /** Every request that reaches a handler has a valid scope, whose version is the ambient one;
      mutations run on the draft, and one that names a version does not get through. */
  lemma EveryRequest(req: Request, lookup: Option<Bytes>)
    ensures Chain(req, lookup).Reached? ==>
              Chain(req, lookup).ctx.scope.valid && Chain(req, lookup).ctx.scope.version == Chain(req, lookup).ctx.version
    ensures Chain(req, lookup).MethodNotAllowed? <==> !IsSafe(req.verb) && req.query != ""
    ensures !IsSafe(req.verb) && req.query == "" ==> Chain(req, lookup) == Reached(Context("", Draft()))
  {
    hide Can;
  }

  /** Without a named version, a reader of a public project who may not edit it never sees the
      draft once there is a release, and everybody else always does. */
  lemma WhoSeesTheDraft(req: Request, latest: Bytes)
    requires IsSafe(req.verb) && req.query == "" && latest != ""
    ensures Chain(req, Some(latest)).ctx.scope == Draft() <==>
            req.project.None? || !req.project.value.public || CanEdit(req.snap, req.project.value)
    ensures Chain(req, Some(latest)).ctx == Context("", Draft()) || Chain(req, Some(latest)).ctx == Context(latest, ReadScope(latest, true))
  {
    hide Can;
    SafeRequestsRefine(req, Some(latest));
  }
}
