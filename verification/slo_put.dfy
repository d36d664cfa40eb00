/** The validation and accumulation of `handle_multipart_put`: the caps on
    manifest size and segment count, the per-segment size rules, the HEAD
    comparison of every segment and, on success, the manifest that is
    stored. HEAD responses are input data, one per object path; the MD5
    accumulator is kept as the ordered list of etags fed to it. */
module SloPut {
  import opened Results
  import opened Strings
  import opened SloManifest

  /** The middleware's limits (`max_manifest_segments`, `max_manifest_size`,
      `min_segment_size`). */
  datatype Config = Config(maxManifestSegments: int, maxManifestSize: int, minSegmentSize: int)

  /** What a HEAD of one segment returned. A header the response lacks is
      None, as swob reports it. */
  datatype HeadResponse = HeadResponse(
    status: int,
    contentLength: Option<nat>,
    etag: Option<string>,
    contentType: Option<string>,
    isSlo: bool)  // the X-Static-Large-Object header read as a true value

  predicate IsSuccess(status: int) {
    200 <= status <= 299
  }

  /** The parts of the client's PUT the handler reads. `copyFrom` and
      `contentType` are empty when the header is absent; `guessedType` is
      what the MIME-type guess makes of the request path. */
  datatype PutRequest = PutRequest(
    version: string,
    account: string,
    contentLength: Option<int>,
    copyFrom: string,
    transferEncoding: string,
    body: string,
    contentType: string,
    guessedType: Option<string>)

  /** The object a segment names, inside the account of the request. */
  datatype ObjectPath = ObjectPath(version: string, account: string, name: string) {
    /** `'/'.join(['', vrs, account, name])`, as reported in problem entries. */
    function Text(): string {
      "/" + version + "/" + account + "/" + name
    }
  }

  datatype ProblemReason = SizeMismatch | EtagMismatch | HeadFailed(status: int)

  /** One entry of the list reported back when the upload is refused. */
  datatype Problem = Problem(path: ObjectPath, reason: ProblemReason)

  /** One entry of the stored manifest (its `last_modified` is left out).
      It keeps the segment's path as uploaded; the `name` written to the
      manifest is derived from it. */
  datatype Record = Record(path: string, bytes: int, hash: Json, contentType: Option<string>, subSlo: bool) {
    /** `'/' + path.lstrip('/')`. */
    function Name(): string {
      "/" + LStrip(path, '/')
    }
  }

  /** The exceptions the handler lets escape: none is an HTTP error, so the
      middleware does not turn them into a response of its own. */
  datatype Uncaught =
    | IntOverflow    // int() of an infinite size_bytes
    | DigestOfNull   // md5.update(None): a null etag "matched" a HEAD without Etag

  datatype PutError =
    | ManifestTooLarge                          // 413, body longer than max_manifest_size
    | CopyNotAllowed                            // 405, X-Copy-From given
    | LengthRequired                            // 411, no length and not chunked
    | BadManifest(cause: ManifestError)         // 400, from parse_input
    | TooManySegments                           // 413, more than max_manifest_segments
    | InvalidSize(index: nat)                   // 400, size_bytes is not an integer
    | SegmentTooSmall(index: nat)               // 400, below min_segment_size
    | ProblemSegments(problems: seq<Problem>)   // 400, HEAD failures and mismatches
    | Unhandled(index: nat, exception: Uncaught) // an exception no handler catches

  /** What is handed on to be stored when the upload is accepted. */
  datatype StoredManifest = StoredManifest(
    contentType: string,
    records: seq<Record>,
    totalSize: int,
    etagParts: seq<string>)

  /** The running state of the segment loop. */
  datatype Acc = Acc(total: int, records: seq<Record>, problems: seq<Problem>, etagParts: seq<string>)

  const EmptyAcc := Acc(0, [], [], [])

  /** Where segments are looked up: the account of the request and what a
      HEAD of each object path returns (a 404 for an object that does not
      exist). */
  datatype Env = Env(version: string, account: string, heads: ObjectPath -> HeadResponse)

  /** The object a segment's HEAD goes to: its path with the leading
      slashes removed, inside the request's account. */
  function ObjPath(env: Env, seg: Segment): ObjectPath {
    ObjectPath(env.version, env.account, seg.objectName)
  }

  function HeadOf(env: Env, seg: Segment): HeadResponse {
    env.heads(ObjPath(env, seg))
  }

  /** `seg_dict['etag'] == head_seg_resp.etag`: a JSON string equal to the
      HEAD's etag, or a JSON null when the HEAD has none (None == None). */
  predicate EtagMatches(seg: Segment, head: HeadResponse) {
    match head.etag
    case None => seg.etag == JNull
    case Some(e) => seg.etag == JString(e)
  }

  /** The etag comparison succeeds with None on both sides, so the digest
      is fed None and raises TypeError. */
  predicate DigestOfNone(env: Env, seg: Segment) {
    var head := HeadOf(env, seg);
    IsSuccess(head.status) && head.etag.None? && seg.etag == JNull
  }

  /** The size rule applies to the first segment and to every segment but
      the last. */
  predicate NeedsMinimum(index: int, count: int) {
    index == 0 || index < count - 1
  }

  /** A segment whose HEAD succeeded and agrees with its declared size and
      etag. */
  predicate SegmentMatches(env: Env, seg: Segment, size: int) {
    var head := HeadOf(env, seg);
    IsSuccess(head.status) && head.contentLength == Some(size) && EtagMatches(seg, head)
  }

  /** The problem entries one segment adds: one for a failed HEAD, else one
      for a size mismatch and one for an etag mismatch, in that order. */
  function SegmentProblems(env: Env, seg: Segment, size: int): (ps: seq<Problem>)
    ensures |ps| <= 2
    ensures ps == [] <==> SegmentMatches(env, seg, size)
  {
    var head := HeadOf(env, seg);
    var path := ObjPath(env, seg);
    if !IsSuccess(head.status) then [Problem(path, HeadFailed(head.status))]
    else
      (if head.contentLength != Some(size) then [Problem(path, SizeMismatch)] else [])
      + (if EtagMatches(seg, head) then [] else [Problem(path, EtagMismatch)])
  }

  /** Each failure is reported once, under the segment's object path: a
      failed HEAD alone, otherwise a size mismatch exactly when the lengths
      differ and an etag mismatch exactly when the etags differ, the size
      entry first. */
  lemma SegmentProblemsSpec(env: Env, seg: Segment, size: int)
    ensures var ps := SegmentProblems(env, seg, size);
      var head := HeadOf(env, seg);
      var path := ObjPath(env, seg);
      && (forall k :: 0 <= k < |ps| ==> ps[k].path == path)
      && (Problem(path, HeadFailed(head.status)) in ps <==> !IsSuccess(head.status))
      && (Problem(path, SizeMismatch) in ps <==> IsSuccess(head.status) && head.contentLength != Some(size))
      && (Problem(path, EtagMismatch) in ps <==> IsSuccess(head.status) && !EtagMatches(seg, head))
      && |ps| == (if !IsSuccess(head.status) then 1
                  else ((if head.contentLength != Some(size) then 1 else 0)
                        + (if EtagMatches(seg, head) then 0 else 1)))
      && (|ps| == 2 ==> ps[0].reason == SizeMismatch && ps[1].reason == EtagMismatch)
  {
  }

  function RecordOf(env: Env, seg: Segment, size: int): Record {
    var head := HeadOf(env, seg);
    Record(seg.path, size, seg.etag, head.contentType, head.isSlo)
  }

  /** The effect of one segment whose size was accepted and whose etag, if
      it matched, could be digested. */
  function Absorb(acc: Acc, env: Env, seg: Segment, size: int): Acc {
    var head := HeadOf(env, seg);
    var problems := acc.problems + SegmentProblems(env, seg, size);
    if IsSuccess(head.status) then
      Acc(acc.total + size,
          acc.records + [RecordOf(env, seg, size)],
          problems,
          acc.etagParts + (if EtagMatches(seg, head) && head.etag.Some? then [head.etag.value] else []))
    else
      Acc(acc.total, acc.records, problems, acc.etagParts)
  }

  /** The loop over the segments, from index `i`, in the order the handler
      checks each one: `int()` of the size, the minimum size, then the HEAD
      and the etag digest. */
  function PutLoop(segs: seq<Segment>, i: nat, env: Env, minSize: int, acc: Acc): (r: Result<Acc, PutError>)
    requires i <= |segs|
    ensures r.Failure? ==>
      && (r.error.InvalidSize? || r.error.SegmentTooSmall? || r.error.Unhandled?)
      && i <= r.error.index < |segs|
    ensures r.Success? ==> |r.value.records| <= |acc.records| + |segs| - i
    decreases |segs| - i
  {
    if i == |segs| then Success(acc)
    else
      match segs[i].size
      case Failure(NotAnInteger) => Failure(InvalidSize(i))
      case Failure(Overflow) => Failure(Unhandled(i, IntOverflow))
      case Success(size) =>
        if size < minSize && NeedsMinimum(i, |segs|) then Failure(SegmentTooSmall(i))
        else if DigestOfNone(env, segs[i]) then Failure(Unhandled(i, DigestOfNull))
        else PutLoop(segs, i + 1, env, minSize, Absorb(acc, env, segs[i], size))
  }

  /** `body_file.read(n)`: at most n characters, everything when n < 0. */
  function Read(body: string, n: int): (r: string)
    ensures n >= 0 ==> |r| <= n
    ensures StartsWith(body, r)
    ensures n < 0 || n >= |body| ==> r == body
  {
    if n < 0 || n >= |body| then body else body[..n]
  }

  /** The request's content type, or the guess from its path, or
      `application/octet-stream`. */
  function BaseContentType(req: PutRequest): string {
    if req.contentType != "" then req.contentType
    else if req.guessedType.Some? && req.guessedType.value != "" then req.guessedType.value
    else "application/octet-stream"
  }

  const SwiftBytesParam := ";swift_bytes="

  function ContentTypeWithSize(base: string, total: int): string {
    base + SwiftBytesParam + ShowInt(total)
  }

  /** The checks made before the body is read, in order: the declared
      length against the cap (an absent length passes, as `None > n` is
      false in Python 2), X-Copy-From, and a length or chunked transfer
      encoding. */
  function HeaderError(cfg: Config, req: PutRequest): Option<PutError> {
    if req.contentLength.Some? && req.contentLength.value > cfg.maxManifestSize then Some(ManifestTooLarge)
    else if req.copyFrom != "" then Some(CopyNotAllowed)
    else if req.contentLength.None? && Lower(req.transferEncoding) != "chunked" then Some(LengthRequired)
    else None
  }

  /** The decoded body, as `parse_input` sees it. */
  function Decoded(cfg: Config, req: PutRequest, decode: string -> Option<Json>): Option<Json> {
    decode(Read(req.body, cfg.maxManifestSize))
  }

  /** The headers pass and the body is a well-formed manifest. */
  predicate Admitted(cfg: Config, req: PutRequest, decode: string -> Option<Json>) {
    && HeaderError(cfg, req).None?
    && ParseInput(Decoded(cfg, req, decode)).Success?
  }

  function UploadedSegments(cfg: Config, req: PutRequest, decode: string -> Option<Json>): seq<Segment>
    requires Admitted(cfg, req, decode)
  {
    Segments(ParseInput(Decoded(cfg, req, decode)).value)
  }

  function EnvOf(req: PutRequest, heads: ObjectPath -> HeadResponse): Env {
    Env(req.version, req.account, heads)
  }

  /** The part of the handler after `parse_input`: the segment cap, the
      segment loop, the problem list and the stored manifest. */
  function ProcessSegments(cfg: Config, req: PutRequest, env: Env, segs: seq<Segment>): Result<StoredManifest, PutError> {
    if |segs| > cfg.maxManifestSegments then Failure(TooManySegments)
    else
      match PutLoop(segs, 0, env, cfg.minSegmentSize, EmptyAcc)
      case Failure(e) => Failure(e)
      case Success(acc) =>
        if |acc.problems| > 0 then Failure(ProblemSegments(acc.problems))
        else
          Success(StoredManifest(
            ContentTypeWithSize(BaseContentType(req), acc.total),
            acc.records, acc.total, acc.etagParts))
  }

  /** `handle_multipart_put`, from the checks on the request to the manifest
      handed on for storage. `decode` stands for `json.loads`, None where it
      raises. */
  function HandleMultipartPut(
    cfg: Config, req: PutRequest, heads: ObjectPath -> HeadResponse, decode: string -> Option<Json>
  ): Result<StoredManifest, PutError>
  {
    match HeaderError(cfg, req)
    case Some(e) => Failure(e)
    case None =>
      match ParseInput(Decoded(cfg, req, decode))
      case Failure(e) => Failure(BadManifest(e))
      case Success(j) => ProcessSegments(cfg, req, EnvOf(req, heads), Segments(j))
  }

  /** An oversized declared length is refused first of all; past the header
      checks and `parse_input`, the handler is the segment processing of the
      uploaded segments; a request refused before that never reaches the
      segment cap or the HEADs. */
  lemma HandleMultipartPutShape(cfg: Config, req: PutRequest, heads: ObjectPath -> HeadResponse, decode: string -> Option<Json>)
    ensures req.contentLength.Some? && req.contentLength.value > cfg.maxManifestSize
      ==> HandleMultipartPut(cfg, req, heads, decode) == Failure(ManifestTooLarge)
    ensures var r := HandleMultipartPut(cfg, req, heads, decode);
      Admitted(cfg, req, decode) ==>
        r == ProcessSegments(cfg, req, EnvOf(req, heads), UploadedSegments(cfg, req, decode))
    ensures var r := HandleMultipartPut(cfg, req, heads, decode);
      !Admitted(cfg, req, decode) ==>
        r.Failure? && !r.error.ProblemSegments? && !r.error.TooManySegments?
  {
  }

  /** More segments than the cap are refused whatever the sizes and the
      HEAD results. */
  lemma TooManySegmentsRejected(cfg: Config, req: PutRequest, env: Env, segs: seq<Segment>)
    requires |segs| > cfg.maxManifestSegments
    ensures ProcessSegments(cfg, req, env, segs) == Failure(TooManySegments)
  {
  }

  // ---------------------------------------------------------------------
  // Reference definitions: what the loop computes, stated segment by segment.

  /** Why the loop stops at segment `j`, if it does. */
  function SegmentError(segs: seq<Segment>, j: nat, env: Env, minSize: int): Option<PutError>
    requires j < |segs|
  {
    match segs[j].size
    case Failure(NotAnInteger) => Some(InvalidSize(j))
    case Failure(Overflow) => Some(Unhandled(j, IntOverflow))
    case Success(size) =>
      if size < minSize && NeedsMinimum(j, |segs|) then Some(SegmentTooSmall(j))
      else if DigestOfNone(env, segs[j]) then Some(Unhandled(j, DigestOfNull))
      else None
  }

  /** No segment from `i` on stops the loop. */
  predicate AllPassFrom(segs: seq<Segment>, i: nat, env: Env, minSize: int) {
    forall j :: i <= j < |segs| ==> SegmentError(segs, j, env, minSize).None?
  }

  /** The first segment from `i` on that stops the loop, or |segs|. */
  function FirstErrorFrom(segs: seq<Segment>, i: nat, env: Env, minSize: int): (k: nat)
    requires i <= |segs|
    ensures i <= k <= |segs|
    ensures forall j :: i <= j < k ==> SegmentError(segs, j, env, minSize).None?
    ensures k < |segs| ==> SegmentError(segs, k, env, minSize).Some?
    decreases |segs| - i
  {
    if i == |segs| || SegmentError(segs, i, env, minSize).Some? then i
    else FirstErrorFrom(segs, i + 1, env, minSize)
  }

  predicate SizesParseFrom(segs: seq<Segment>, i: nat) {
    forall j :: i <= j < |segs| ==> segs[j].size.Success?
  }

  function SizeAt(segs: seq<Segment>, j: nat): int
    requires j < |segs| && segs[j].size.Success?
  {
    segs[j].size.value
  }

  /** Every size is an integer and, where the minimum applies, at least
      `minSize`: only the last segment of a manifest of two or more may be
      smaller. */
  predicate SizesAcceptable(segs: seq<Segment>, minSize: int) {
    && SizesParseFrom(segs, 0)
    && forall j :: 0 <= j < |segs| && NeedsMinimum(j, |segs|) ==> SizeAt(segs, j) >= minSize
  }

  /** No segment feeds None to the etag digest. */
  predicate NoNullDigest(segs: seq<Segment>, env: Env) {
    forall j :: 0 <= j < |segs| ==> !DigestOfNone(env, segs[j])
  }

  /** The loop runs to the end exactly when the size rules hold and no
      null etag reaches the digest. */
  lemma AllPassIff(segs: seq<Segment>, env: Env, minSize: int)
    ensures AllPassFrom(segs, 0, env, minSize) <==> SizesAcceptable(segs, minSize) && NoNullDigest(segs, env)
  {
    if AllPassFrom(segs, 0, env, minSize) {
      forall j | 0 <= j < |segs|
        ensures segs[j].size.Success?
        ensures NeedsMinimum(j, |segs|) ==> segs[j].size.value >= minSize
        ensures !DigestOfNone(env, segs[j])
      {
        assert SegmentError(segs, j, env, minSize).None?;
      }
    }
    if SizesAcceptable(segs, minSize) && NoNullDigest(segs, env) {
      forall j | 0 <= j < |segs|
        ensures SegmentError(segs, j, env, minSize).None?
      {
        assert segs[j].size.Success?;
      }
    }
  }

  predicate HeadSucceeds(env: Env, seg: Segment) {
    IsSuccess(HeadOf(env, seg).status)
  }

  /** Sum of the sizes of the segments from `i` on whose HEAD succeeded. */
  function TotalFrom(segs: seq<Segment>, i: nat, env: Env): int
    requires i <= |segs| && SizesParseFrom(segs, i)
    decreases |segs| - i
  {
    if i == |segs| then 0
    else (if HeadSucceeds(env, segs[i]) then SizeAt(segs, i) else 0) + TotalFrom(segs, i + 1, env)
  }

  /** The records of the segments from `i` on whose HEAD succeeded. */
  function RecordsFrom(segs: seq<Segment>, i: nat, env: Env): seq<Record>
    requires i <= |segs| && SizesParseFrom(segs, i)
    decreases |segs| - i
  {
    if i == |segs| then []
    else (if HeadSucceeds(env, segs[i]) then [RecordOf(env, segs[i], SizeAt(segs, i))] else [])
         + RecordsFrom(segs, i + 1, env)
  }

  /** The problems of the segments from `i` on, segment by segment. */
  function ProblemsFrom(segs: seq<Segment>, i: nat, env: Env): seq<Problem>
    requires i <= |segs| && SizesParseFrom(segs, i)
    decreases |segs| - i
  {
    if i == |segs| then []
    else SegmentProblems(env, segs[i], SizeAt(segs, i)) + ProblemsFrom(segs, i + 1, env)
  }

  /** The etags fed to the SLO etag digest from `i` on: those that matched
      a successful HEAD. */
  function EtagsFrom(segs: seq<Segment>, i: nat, env: Env): seq<string>
    requires i <= |segs|
    decreases |segs| - i
  {
    if i == |segs| then []
    else
      var head := HeadOf(env, segs[i]);
      (if IsSuccess(head.status) && EtagMatches(segs[i], head) && head.etag.Some? then [head.etag.value] else [])
      + EtagsFrom(segs, i + 1, env)
  }

  // ---------------------------------------------------------------------
  // The loop against the reference definitions.

  /** The loop raises the error of the first segment that stops it. */
  lemma {:induction false} PutLoopRejects(segs: seq<Segment>, i: nat, k: nat, env: Env, minSize: int, acc: Acc)
    requires i <= k < |segs|
    requires forall j :: i <= j < k ==> SegmentError(segs, j, env, minSize).None?
    requires SegmentError(segs, k, env, minSize).Some?
    ensures PutLoop(segs, i, env, minSize, acc) == Failure(SegmentError(segs, k, env, minSize).value)
    decreases k - i
  {
    if i < k {
      assert SegmentError(segs, i, env, minSize).None?;
      var size := segs[i].size.value;
      PutLoopRejects(segs, i + 1, k, env, minSize, Absorb(acc, env, segs[i], size));
    }
  }

  /** One segment's effect on the running state is its share of the
      reference totals. */
  lemma AbsorbStep(segs: seq<Segment>, i: nat, env: Env, acc: Acc)
    requires i < |segs| && SizesParseFrom(segs, i)
    ensures var next := Absorb(acc, env, segs[i], SizeAt(segs, i));
      && next.total + TotalFrom(segs, i + 1, env) == acc.total + TotalFrom(segs, i, env)
      && next.records + RecordsFrom(segs, i + 1, env) == acc.records + RecordsFrom(segs, i, env)
      && next.problems + ProblemsFrom(segs, i + 1, env) == acc.problems + ProblemsFrom(segs, i, env)
      && next.etagParts + EtagsFrom(segs, i + 1, env) == acc.etagParts + EtagsFrom(segs, i, env)
  {
    var size := SizeAt(segs, i);
    var head := HeadOf(env, segs[i]);
    var ps := SegmentProblems(env, segs[i], size);
    var next := Absorb(acc, env, segs[i], size);
    assert ProblemsFrom(segs, i, env) == ps + ProblemsFrom(segs, i + 1, env);
    assert next.problems + ProblemsFrom(segs, i + 1, env) == acc.problems + (ps + ProblemsFrom(segs, i + 1, env));
    if IsSuccess(head.status) {
      var rec := [RecordOf(env, segs[i], size)];
      var tags := if EtagMatches(segs[i], head) && head.etag.Some? then [head.etag.value] else [];
      assert RecordsFrom(segs, i, env) == rec + RecordsFrom(segs, i + 1, env);
      assert EtagsFrom(segs, i, env) == tags + EtagsFrom(segs, i + 1, env);
      assert next.records + RecordsFrom(segs, i + 1, env) == acc.records + (rec + RecordsFrom(segs, i + 1, env));
      assert next.etagParts + EtagsFrom(segs, i + 1, env) == acc.etagParts + (tags + EtagsFrom(segs, i + 1, env));
    }
  }

  /** When no segment stops it, the loop adds up exactly the reference
      totals, records, problems and etags. */
  lemma {:induction false} PutLoopAccepts(segs: seq<Segment>, i: nat, env: Env, minSize: int, acc: Acc)
    requires i <= |segs| && AllPassFrom(segs, i, env, minSize)
    ensures SizesParseFrom(segs, i)
    ensures PutLoop(segs, i, env, minSize, acc) == Success(Acc(
      acc.total + TotalFrom(segs, i, env),
      acc.records + RecordsFrom(segs, i, env),
      acc.problems + ProblemsFrom(segs, i, env),
      acc.etagParts + EtagsFrom(segs, i, env)))
    decreases |segs| - i
  {
    forall j | i <= j < |segs|
      ensures segs[j].size.Success?
    {
      assert SegmentError(segs, j, env, minSize).None?;
    }
    if i < |segs| {
      assert SegmentError(segs, i, env, minSize).None?;
      var next := Absorb(acc, env, segs[i], SizeAt(segs, i));
      assert PutLoop(segs, i, env, minSize, acc) == PutLoop(segs, i + 1, env, minSize, next);
      PutLoopAccepts(segs, i + 1, env, minSize, next);
      AbsorbStep(segs, i, env, acc);
    } else {
      assert acc.records + [] == acc.records;
      assert acc.problems + [] == acc.problems;
      assert acc.etagParts + [] == acc.etagParts;
    }
  }

  /** No problem entry is reported exactly when every segment's HEAD
      succeeded with the declared size and etag. */
  lemma {:induction false} ProblemsFromEmpty(segs: seq<Segment>, i: nat, env: Env)
    requires i <= |segs| && SizesParseFrom(segs, i)
    ensures ProblemsFrom(segs, i, env) == [] <==>
      forall j :: i <= j < |segs| ==> SegmentMatches(env, segs[j], SizeAt(segs, j))
    decreases |segs| - i
  {
    if i < |segs| {
      ProblemsFromEmpty(segs, i + 1, env);
      var ps := SegmentProblems(env, segs[i], SizeAt(segs, i));
      var rest := ProblemsFrom(segs, i + 1, env);
      assert ProblemsFrom(segs, i, env) == ps + rest;
      assert ps + rest == [] <==> ps == [] && rest == [];
    }
  }

  /** Every segment from `i` on matched its HEAD. */
  predicate AllMatchFrom(segs: seq<Segment>, i: nat, env: Env)
    requires SizesParseFrom(segs, i)
  {
    forall j :: i <= j < |segs| ==> SegmentMatches(env, segs[j], SizeAt(segs, j))
  }

  /** When every HEAD matched, there is one record per segment, in upload order. */
  lemma {:induction false} CleanRecordsFrom(segs: seq<Segment>, i: nat, env: Env)
    requires i <= |segs| && SizesParseFrom(segs, i)
    requires AllMatchFrom(segs, i, env)
    ensures |RecordsFrom(segs, i, env)| == |segs| - i
    ensures forall k :: 0 <= k < |segs| - i ==>
      RecordsFrom(segs, i, env)[k] == RecordOf(env, segs[i + k], SizeAt(segs, i + k))
    decreases |segs| - i
  {
    if i < |segs| {
      assert SegmentMatches(env, segs[i], SizeAt(segs, i));
      CleanRecordsFrom(segs, i + 1, env);
      var rest := RecordsFrom(segs, i + 1, env);
      var all := RecordsFrom(segs, i, env);
      assert HeadSucceeds(env, segs[i]);
      assert all == [RecordOf(env, segs[i], SizeAt(segs, i))] + rest;
      forall k | 0 <= k < |segs| - i
        ensures all[k] == RecordOf(env, segs[i + k], SizeAt(segs, i + k))
      {
        if k > 0 {
          assert all[k] == rest[k - 1];
          assert i + 1 + (k - 1) == i + k;
        }
      }
    }
  }

  /** When every HEAD matched with an etag, every segment's etag went into
      the digest, in upload order. */
  lemma {:induction false} CleanEtagsFrom(segs: seq<Segment>, i: nat, env: Env)
    requires i <= |segs| && SizesParseFrom(segs, i)
    requires AllMatchFrom(segs, i, env)
    requires forall j :: i <= j < |segs| ==> !DigestOfNone(env, segs[j])
    ensures |EtagsFrom(segs, i, env)| == |segs| - i
    ensures forall k :: 0 <= k < |segs| - i ==> segs[i + k].etag == JString(EtagsFrom(segs, i, env)[k])
    decreases |segs| - i
  {
    if i < |segs| {
      assert SegmentMatches(env, segs[i], SizeAt(segs, i)) && !DigestOfNone(env, segs[i]);
      CleanEtagsFrom(segs, i + 1, env);
      var rest := EtagsFrom(segs, i + 1, env);
      var all := EtagsFrom(segs, i, env);
      assert HeadOf(env, segs[i]).etag.Some?;
      assert all == [HeadOf(env, segs[i]).etag.value] + rest;
      forall k | 0 <= k < |segs| - i
        ensures segs[i + k].etag == JString(all[k])
      {
        if k > 0 {
          assert all[k] == rest[k - 1];
          assert i + 1 + (k - 1) == i + k;
        }
      }
    }
  }

  /** When every HEAD matched, the total is the sum of sizes that each equal a
      HEAD's content length, so it is never negative. */
  lemma {:induction false} CleanTotalFrom(segs: seq<Segment>, i: nat, env: Env)
    requires i <= |segs| && SizesParseFrom(segs, i)
    requires AllMatchFrom(segs, i, env)
    ensures TotalFrom(segs, i, env) >= 0
    decreases |segs| - i
  {
    if i < |segs| {
      assert SegmentMatches(env, segs[i], SizeAt(segs, i));
      CleanTotalFrom(segs, i + 1, env);
      var head := HeadOf(env, segs[i]);
      assert HeadSucceeds(env, segs[i]) && Some(SizeAt(segs, i)) == head.contentLength;
      assert TotalFrom(segs, i, env) == SizeAt(segs, i) + TotalFrom(segs, i + 1, env);
    }
  }

  // ---------------------------------------------------------------------
  // The upload as a whole.

  /** An accepted upload had no segment that stopped the loop. */
  lemma AcceptedSegmentsPass(cfg: Config, req: PutRequest, env: Env, segs: seq<Segment>)
    requires ProcessSegments(cfg, req, env, segs).Success?
    ensures |segs| <= cfg.maxManifestSegments
    ensures AllPassFrom(segs, 0, env, cfg.minSegmentSize)
  {
    var k := FirstErrorFrom(segs, 0, env, cfg.minSegmentSize);
    if k < |segs| {
      PutLoopRejects(segs, 0, k, env, cfg.minSegmentSize, EmptyAcc);
      assert false;
    }
  }

  /** Accepted segment processing: the sizes obey the minimum rule, every
      HEAD succeeded with the declared size and etag, and the stored
      manifest lists the segments in upload order with their path (named
      `'/' + path.lstrip('/')`), the size as bytes, the etag as hash and the
      content type and sub-manifest flag from the HEAD; its content type
      carries `;swift_bytes=` and the (non-negative) total of the sizes, and
      every etag went into the digest in order. */
  lemma ProcessAccepted(cfg: Config, req: PutRequest, env: Env, segs: seq<Segment>)
    requires ProcessSegments(cfg, req, env, segs).Success?
    ensures var st := ProcessSegments(cfg, req, env, segs).value;
      && |segs| <= cfg.maxManifestSegments
      && SizesAcceptable(segs, cfg.minSegmentSize)
      && (forall j :: 0 <= j < |segs| ==> SegmentMatches(env, segs[j], SizeAt(segs, j)))
      && |st.records| == |segs|
      && (forall j :: 0 <= j < |segs| ==> st.records[j] == RecordOf(env, segs[j], SizeAt(segs, j)))
      && st.totalSize == TotalFrom(segs, 0, env) >= 0
      && st.contentType == BaseContentType(req) + SwiftBytesParam + ShowInt(st.totalSize)
      && |st.etagParts| == |segs|
      && (forall j :: 0 <= j < |segs| ==> segs[j].etag == JString(st.etagParts[j]))
  {
    AcceptedSegmentsPass(cfg, req, env, segs);
    AllPassIff(segs, env, cfg.minSegmentSize);
    PutLoopAccepts(segs, 0, env, cfg.minSegmentSize, EmptyAcc);
    var acc := Acc(TotalFrom(segs, 0, env), RecordsFrom(segs, 0, env), ProblemsFrom(segs, 0, env), EtagsFrom(segs, 0, env));
    assert PutLoop(segs, 0, env, cfg.minSegmentSize, EmptyAcc) == Success(acc) by {
      assert [] + acc.records == acc.records;
      assert [] + acc.problems == acc.problems;
      assert [] + acc.etagParts == acc.etagParts;
    }
    assert acc.problems == [];
    ProblemsFromEmpty(segs, 0, env);
    CleanTotalFrom(segs, 0, env);
    CleanRecordsFrom(segs, 0, env);
    CleanEtagsFrom(segs, 0, env);
    forall j | 0 <= j < |segs|
      ensures acc.records[j] == RecordOf(env, segs[j], SizeAt(segs, j))
      ensures segs[j].etag == JString(acc.etagParts[j])
    {
      assert 0 + j == j;
    }
  }

  /** An accepted upload passed every check and stores exactly what
      `ProcessAccepted` describes for the uploaded segments. */
  lemma PutAccepted(cfg: Config, req: PutRequest, heads: ObjectPath -> HeadResponse, decode: string -> Option<Json>)
    requires HandleMultipartPut(cfg, req, heads, decode).Success?
    ensures Admitted(cfg, req, decode)
    ensures var segs := UploadedSegments(cfg, req, decode);
      var env := EnvOf(req, heads);
      var st := HandleMultipartPut(cfg, req, heads, decode).value;
      && |segs| <= cfg.maxManifestSegments
      && SizesAcceptable(segs, cfg.minSegmentSize)
      && (forall j :: 0 <= j < |segs| ==> SegmentMatches(env, segs[j], SizeAt(segs, j)))
      && |st.records| == |segs|
      && st.totalSize == TotalFrom(segs, 0, env) >= 0
      && st.contentType == BaseContentType(req) + SwiftBytesParam + ShowInt(st.totalSize)
  {
    HandleMultipartPutShape(cfg, req, heads, decode);
    ProcessAccepted(cfg, req, EnvOf(req, heads), UploadedSegments(cfg, req, decode));
  }

  /** Within the segment cap, with sizes that obey the rules and no null
      etag digested, the upload is refused with a problem list exactly when
      some segment's HEAD failed or disagreed in size or etag; the list
      holds every such problem, segment by segment. */
  lemma ProcessRejectedIffProblems(cfg: Config, req: PutRequest, env: Env, segs: seq<Segment>)
    requires |segs| <= cfg.maxManifestSegments
    requires SizesAcceptable(segs, cfg.minSegmentSize)
    requires NoNullDigest(segs, env)
    ensures var r := ProcessSegments(cfg, req, env, segs);
      && (r.Success? || r == Failure(ProblemSegments(ProblemsFrom(segs, 0, env))))
      && (r.Failure? <==> exists j :: 0 <= j < |segs| && !SegmentMatches(env, segs[j], SizeAt(segs, j)))
  {
    AllPassIff(segs, env, cfg.minSegmentSize);
    PutLoopAccepts(segs, 0, env, cfg.minSegmentSize, EmptyAcc);
    ProblemsFromEmpty(segs, 0, env);
    assert EmptyAcc.problems + ProblemsFrom(segs, 0, env) == ProblemsFrom(segs, 0, env);
  }

  /** Within the segment cap, the first segment whose size is refused, or
      whose null etag reaches the digest, decides the outcome, whatever the
      later segments are. */
  lemma ProcessRejectsFirstBadSegment(cfg: Config, req: PutRequest, env: Env, segs: seq<Segment>, k: nat)
    requires |segs| <= cfg.maxManifestSegments
    requires k < |segs| && SegmentError(segs, k, env, cfg.minSegmentSize).Some?
    requires forall j :: 0 <= j < k ==> SegmentError(segs, j, env, cfg.minSegmentSize).None?
    ensures ProcessSegments(cfg, req, env, segs) == Failure(SegmentError(segs, k, env, cfg.minSegmentSize).value)
  {
    PutLoopRejects(segs, 0, k, env, cfg.minSegmentSize, EmptyAcc);
  }

  /** A manifest whose sizes break the rules is never stored and never
      answered with a problem list: it fails on the first offending
      segment's size or on an exception raised before it. */
  lemma BadSizesNeverStored(cfg: Config, req: PutRequest, env: Env, segs: seq<Segment>)
    requires |segs| <= cfg.maxManifestSegments
    requires !SizesAcceptable(segs, cfg.minSegmentSize)
    ensures var r := ProcessSegments(cfg, req, env, segs);
      && r.Failure?
      && (r.error.InvalidSize? || r.error.SegmentTooSmall? || r.error.Unhandled?)
  {
    AllPassIff(segs, env, cfg.minSegmentSize);
    var k := FirstErrorFrom(segs, 0, env, cfg.minSegmentSize);
    assert k < |segs|;
    PutLoopRejects(segs, 0, k, env, cfg.minSegmentSize, EmptyAcc);
  }

  /** A manifest of one segment below the minimum size is refused. */
  lemma LoneSmallSegmentRejected(cfg: Config, req: PutRequest, env: Env, segs: seq<Segment>)
    requires |segs| == 1 <= cfg.maxManifestSegments
    requires segs[0].size.Success? && segs[0].size.value < cfg.minSegmentSize
    ensures ProcessSegments(cfg, req, env, segs) == Failure(SegmentTooSmall(0))
  {
    ProcessRejectsFirstBadSegment(cfg, req, env, segs, 0);
  }

  /** The minimum size binds a single segment, and in a longer manifest it
      binds every segment except the last. */
  lemma MinimumRuleShape(segs: seq<Segment>, minSize: int)
    requires SizesParseFrom(segs, 0)
    ensures SizesAcceptable(segs, minSize) <==>
      forall j :: 0 <= j < |segs| ==> SizeAt(segs, j) >= minSize || (j == |segs| - 1 && j > 0)
  {
  }

  /** The total in the content type can be read back from it. */
  lemma SwiftBytesReadBack(base: string, total: int)
    ensures var ct := ContentTypeWithSize(base, total);
      && StartsWith(ct, base)
      && ct[|base| + |SwiftBytesParam|..] == ShowInt(total)
      && IntFromString(ct[|base| + |SwiftBytesParam|..]) == Some(total)
  {
    var ct := ContentTypeWithSize(base, total);
    assert ct[|base| + |SwiftBytesParam|..] == ShowInt(total);
    assert ct[..|base|] == base;
    IntFromShowInt(total);
  }
}
