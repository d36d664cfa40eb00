/** The manifest a client uploads with `?multipart-manifest=put`: a decoded
    JSON value, its structural validation (`parse_input`) and Python's
    `int()` applied to a segment's `size_bytes`. */
module SloManifest {
  import opened Results
  import opened Strings

  /** A decoded JSON value. Object members keep their textual order; when a
      name repeats, the last member wins, as it does when `json.loads`
      builds a dict. Numbers with a fraction or exponent decode to floats;
      `NaN`, `Infinity` and `-Infinity` are accepted too. */
  datatype Json =
    | JNull
    | JBool(b: bool)
    | JInt(i: int)
    | JFloat(f: Float)
    | JString(s: string)
    | JArray(items: seq<Json>)
    | JObject(members: seq<(string, Json)>)

  /** A decoded float, its finite values modelled as reals. */
  datatype Float = Finite(r: real) | NaN | Infinity | NegInfinity

  /** The key set of a decoded object, `set(d)` in Python. */
  function KeysOf(members: seq<(string, Json)>): set<string> {
    set i | 0 <= i < |members| :: members[i].0
  }

  /** `d[key]` / `d.get(key)` on a decoded object: the last member with
      that name. */
  function Lookup(members: seq<(string, Json)>, key: string): (r: Option<Json>)
    ensures r.Some? <==> key in KeysOf(members)
    ensures r.Some? ==> exists i :: 0 <= i < |members| && members[i] == (key, r.value)
  {
    if |members| == 0 then None
    else if members[|members| - 1].0 == key then Some(members[|members| - 1].1)
    else
      var r := Lookup(members[..|members| - 1], key);
      assert KeysOf(members) == KeysOf(members[..|members| - 1]) + {members[|members| - 1].0};
      r
  }

  /** Why `parse_input` refused its input. */
  datatype ManifestError =
    | NotJson          // "Manifest must be valid json."
    | InvalidManifest  // "Invalid SLO Manifest File"

  const RequiredKeys: set<string> := {"path", "etag", "size_bytes"}

  /** One element of a valid manifest: a dict with exactly the keys `path`,
      `etag` and `size_bytes`, whose `path` is a string that still contains
      a '/' once its leading slashes are removed. An element of any other
      shape makes `parse_input` raise (directly, or through the AttributeError
      or TypeError it catches). */
  predicate IsSegmentDict(j: Json) {
    j.JObject? && KeysOf(j.members) == RequiredKeys && PathNamesObject(Lookup(j.members, "path"))
  }

  /** `'/' in path.lstrip('/')` for a path that is a string: a container
      and an object name. */
  predicate PathNamesObject(path: Option<Json>) {
    path.Some? && path.value.JString? && '/' in LStrip(path.value.s, '/')
  }

  /** What `for seg_dict in parsed_data` visits, or None when the value is
      not iterable (TypeError). A dict yields its keys and a string its
      characters, each a string and so never a segment dict. */
  function Elements(j: Json): Option<seq<Json>> {
    match j
    case JArray(items) => Some(items)
    case JObject(members) => Some(seq(|members|, i requires 0 <= i < |members| => JString(members[i].0)))
    case JString(s) => Some(seq(|s|, i requires 0 <= i < |s| => JString([s[i]])))
    case _ => None
  }

  /** Index of the first element from `i` on that fails `ok`, or |es| if
      there is none: where a validation loop over `es` raises. */
  function FirstFailing<T>(es: seq<T>, ok: T -> bool, i: nat): (k: nat)
    requires i <= |es|
    ensures i <= k <= |es|
    ensures forall j :: i <= j < k ==> ok(es[j])
    ensures k < |es| ==> !ok(es[k])
    decreases |es| - i
  {
    if i == |es| || !ok(es[i]) then i else FirstFailing(es, ok, i + 1)
  }

  /** The decoded values `parse_input` accepts: a list of segment dicts,
      and also the two empty iterables that are not lists, `""` and `{}`. */
  predicate WellFormedManifest(j: Json) {
    || (j.JArray? && forall i :: 0 <= i < |j.items| ==> IsSegmentDict(j.items[i]))
    || j == JObject([])
    || j == JString("")
  }

  /** `parse_input`: `decoded` is what `json.loads` made of the body, None
      when it raised ValueError. On success the decoded data is returned
      unchanged. */
  function ParseInput(decoded: Option<Json>): (r: Result<Json, ManifestError>)
    ensures decoded.None? <==> r == Failure(NotJson)
    ensures r.Success? <==> decoded.Some? && WellFormedManifest(decoded.value)
    ensures r.Success? ==> r.value == decoded.value
  {
    match decoded
    case None => Failure(NotJson)
    case Some(j) =>
      match Elements(j)
      case None => Failure(InvalidManifest)
      case Some(es) =>
        if FirstFailing(es, IsSegmentDict, 0) == |es| then Success(j)
        else
          assert !WellFormedManifest(j) by {
            if j.JArray? {
              assert !IsSegmentDict(j.items[FirstFailing(es, IsSegmentDict, 0)]);
            } else if j.JObject? {
              assert !IsSegmentDict(es[0]);
            } else {
              assert !IsSegmentDict(es[0]);
            }
          }
          Failure(InvalidManifest)
  }

  /** A validated segment: the three values of its dict, its path without
      the leading slashes (the object it names, below the account), and what
      Python's `int()` makes of `size_bytes`. */
  datatype Segment = Segment(path: string, etag: Json, sizeBytes: Json, objectName: string, size: Result<int, IntError>)

  /** The segments of a manifest `parse_input` accepted, in upload order:
      `len(parsed_data)` of them (none for `""` and `{}`). */
  function Segments(j: Json): (segs: seq<Segment>)
    requires WellFormedManifest(j)
    ensures j.JArray? ==> |segs| == |j.items|
    ensures !j.JArray? ==> segs == []
    ensures forall i :: 0 <= i < |segs| ==>
      && Lookup(j.items[i].members, "path") == Some(JString(segs[i].path))
      && Lookup(j.items[i].members, "etag") == Some(segs[i].etag)
      && Lookup(j.items[i].members, "size_bytes") == Some(segs[i].sizeBytes)
      && segs[i].objectName == LStrip(segs[i].path, '/')
      && segs[i].size == ToInt(segs[i].sizeBytes)
  {
    if !j.JArray? then []
    else
      seq(|j.items|, i requires 0 <= i < |j.items| =>
        var m := j.items[i].members;
        assert "etag" in KeysOf(m) && "size_bytes" in KeysOf(m);
        var path := Lookup(m, "path").value.s;
        var sizeBytes := Lookup(m, "size_bytes").value;
        Segment(path, Lookup(m, "etag").value, sizeBytes, LStrip(path, '/'), ToInt(sizeBytes)))
  }

  /** Python's `int(x)` on a real: truncation toward zero. */
  function Truncate(x: real): (n: int)
    ensures x >= 0.0 ==> n as real <= x < n as real + 1.0
    ensures x < 0.0 ==> n as real - 1.0 < x <= n as real
  {
    if x >= 0.0 then x.Floor else -((-x).Floor)
  }

  /** How `int()` can raise: ValueError or TypeError (which the handler
      turns into 400 Bad Request), or OverflowError (which nothing in the
      middleware catches). */
  datatype IntError = NotAnInteger | Overflow

  /** Python's `int(seg_dict['size_bytes'])`: integers pass, booleans count
      as 0 and 1, finite floats truncate toward zero, NaN is a ValueError
      and an infinity an OverflowError, strings are parsed in base 10;
      null, lists and dicts are a TypeError. */
  function ToInt(j: Json): (r: Result<int, IntError>)
    ensures r == Failure(Overflow) <==> j == JFloat(Infinity) || j == JFloat(NegInfinity)
    ensures j.JInt? ==> r == Success(j.i)
    ensures j.JNull? || j.JArray? || j.JObject? ==> r == Failure(NotAnInteger)
  {
    match j
    case JInt(i) => Success(i)
    case JBool(b) => Success(if b then 1 else 0)
    case JFloat(Finite(x)) => Success(Truncate(x))
    case JFloat(NaN) => Failure(NotAnInteger)
    case JFloat(_) => Failure(Overflow)
    case JString(s) =>
      (match IntFromString(s)
       case Some(n) => Success(n)
       case None => Failure(NotAnInteger))
    case _ => Failure(NotAnInteger)
  }

  /** A size written as a decimal string reads back as the same integer. */
  lemma SizeStringRoundTrip(n: int)
    ensures ToInt(JString(ShowInt(n))) == Success(n)
  {
    IntFromShowInt(n);
  }
}
