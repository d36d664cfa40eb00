/** The middleware's entry point, which decides which requests it handles
    itself, and the rewrite of the response headers once a manifest has been
    stored. */
module SloDispatch {
  import opened Results
  import opened Strings

  /** What `__call__` reads from a request. `splitOk` says whether the path
      splits into one to four parts; `obj` is the object part, None when
      the path stops earlier; `manifestParam` is the `multipart-manifest`
      query parameter; `hasSloHeader` says whether X-Static-Large-Object is
      among the request headers; `pathValidUtf8` is the UTF-8 check of the
      path that guards a manifest delete. */
  datatype Request = Request(
    splitOk: bool,
    obj: Option<string>,
    verb: string,
    manifestParam: Option<string>,
    hasSloHeader: bool,
    pathValidUtf8: bool)

  datatype Route =
    | PassThrough               // handed to the next application unchanged
    | MultipartPut              // handle_multipart_put
    | MultipartDelete           // handle_multipart_delete, on to the bulk deleter
    | Refused(status: int)      // an error response from the middleware

  const PreconditionFailed := 412
  const BadRequest := 400

  /** `if obj:`: an object part that is present and not empty. */
  predicate IsObject(r: Request) {
    r.obj.Some? && r.obj.value != ""
  }

  predicate IsManifestPut(r: Request) {
    r.verb == "PUT" && r.manifestParam == Some("put")
  }

  predicate IsManifestDelete(r: Request) {
    r.verb == "DELETE" && r.manifestParam == Some("delete")
  }

  /** `__call__`: a manifest PUT or DELETE of an object goes to its handler
      (a DELETE with a path that is not valid UTF-8 is refused there); any
      other object request that carries X-Static-Large-Object is refused;
      everything else passes through. */
  function Dispatch(r: Request): (route: Route)
    ensures route == MultipartPut <==> r.splitOk && IsObject(r) && IsManifestPut(r)
    ensures route == MultipartDelete <==> r.splitOk && IsObject(r) && IsManifestDelete(r) && r.pathValidUtf8
    ensures route.Refused? ==> route.status == BadRequest || route.status == PreconditionFailed
  {
    if !r.splitOk || !IsObject(r) then PassThrough
    else if IsManifestPut(r) then MultipartPut
    else if IsManifestDelete(r) then
      (if r.pathValidUtf8 then MultipartDelete else Refused(PreconditionFailed))
    else if r.hasSloHeader then Refused(BadRequest)
    else PassThrough
  }

  /** The reserved header is refused exactly on object requests that are
      neither a manifest PUT nor a manifest DELETE. */
  lemma ReservedHeaderIff(r: Request)
    ensures Dispatch(r) == Refused(BadRequest) <==>
      r.splitOk && IsObject(r) && !IsManifestPut(r) && !IsManifestDelete(r) && r.hasSloHeader
  {
  }

  /** The middleware stays out of the way of every request that is not an
      object request, and of object requests that are neither manifest
      operations nor carry the reserved header. */
  lemma PassThroughIff(r: Request)
    ensures Dispatch(r) == PassThrough <==>
      !r.splitOk || !IsObject(r) || (!IsManifestPut(r) && !IsManifestDelete(r) && !r.hasSloHeader)
  {
  }

  /** The reserved header changes the route only of object requests that
      are not manifest operations: adding it to any other request makes no
      difference. */
  lemma HeaderOnlyGuardsPlainObjects(r: Request)
    requires !r.splitOk || !IsObject(r) || IsManifestPut(r) || IsManifestDelete(r)
    ensures Dispatch(r.(hasSloHeader := true)) == Dispatch(r.(hasSloHeader := false))
  {
  }

  /** A request without the reserved header is refused only as a manifest
      DELETE of a path that is not valid UTF-8. */
  lemma RefusedWithoutHeader(r: Request)
    requires !r.hasSloHeader
    ensures Dispatch(r).Refused? <==> r.splitOk && IsObject(r) && IsManifestDelete(r) && !r.pathValidUtf8
  {
  }

  // ---------------------------------------------------------------------
  // The response headers of a stored manifest.

  type Header = (string, string)

  /** The etag of a large object as sent to the client: the hex digest of
      its segments' etags, in double quotes. */
  function QuotedEtag(hex: string): (q: string)
    ensures |q| == |hex| + 2 && q[0] == '"' && q[|q| - 1] == '"'
    ensures q[1..|q| - 1] == hex
  {
    "\"" + hex + "\""
  }

  /** A header whose name is `etag` in any letter case. */
  predicate IsEtagHeader(h: Header) {
    Lower(h.0) == "etag"
  }

  /** A header is the etag header exactly when its name spells `etag` in
      any mixture of cases. */
  lemma LowerIsEtag(h: Header)
    ensures IsEtagHeader(h) <==>
      |h.0| == 4 && forall i :: 0 <= i < 4 ==> h.0[i] == "etag"[i] || h.0[i] == "ETAG"[i]
  {
    LowerSpells(h.0, "etag", "ETAG");
  }

  /** `handle_slo_put`'s rewrite of the headers the object server answered
      with: the first Etag header, whatever the case of its name, becomes
      `Etag` with the large object's etag; the rest are left as they are,
      later Etag headers included. */
  method RewriteEtag(headers: seq<Header>, sloEtag: string) returns (r: seq<Header>)
    ensures (forall j :: 0 <= j < |headers| ==> !IsEtagHeader(headers[j])) ==> r == headers
    ensures forall k :: 0 <= k < |headers| && IsEtagHeader(headers[k])
                        && (forall j :: 0 <= j < k ==> !IsEtagHeader(headers[j]))
                        ==> r == headers[k := ("Etag", sloEtag)]
  {
    r := headers;
    var i := 0;
    while i < |r|
      invariant 0 <= i <= |r| && r == headers
      invariant forall j :: 0 <= j < i ==> !IsEtagHeader(headers[j])
    {
      if Lower(r[i].0) == "etag" {
        r := r[i := ("Etag", sloEtag)];
        return;
      }
      i := i + 1;
    }
  }
}
