/** `get_segments_to_delete_iter`: the queue that expands a manifest into
    the names to delete. Each queued entry is either a segment to yield or
    a (sub-)manifest to fetch; a manifest's segments are appended to the
    queue and the manifest itself is queued again behind them, so that it is
    deleted after them. GET responses are input data, one per object name
    inside the account. Because that data is a fixed snapshot, while the
    source's generator watches deletions happen, a manifest that lists
    itself would be expanded forever: the traversal is given a budget of
    steps and reports when it runs out. */
module SloDelete {
  import opened Results
  import opened Strings

  /** One dict of a manifest body, as the traversal reads it: its `name`
      and whether its `sub_slo` value is true. */
  datatype Entry = Entry(name: string, subSlo: bool)

  /** What a `multipart-manifest=get` GET of an object returned. `body` is
      the decoded manifest, None when it is not valid JSON. */
  datatype GetResponse = GetResponse(status: int, isSlo: bool, body: Option<seq<Entry>>)

  predicate IsSuccess(status: int) {
    200 <= status <= 299
  }

  const NotFound := 404

  datatype Outcome =
    | Finished                 // the queue drained
    | NotAManifest             // 400, the path has no container and object
    | TooManyBuffered          // 400, more than the buffer bound queued
    | ManifestUnreadable       // 500, a manifest body is not JSON
    | SubManifestUnavailable   // 500, a GET failed with other than 404
    | Suspended                // the step budget ran out

  /** The names yielded, in order, and how the traversal ended. */
  datatype Traversal = Traversal(yielded: seq<string>, outcome: Outcome)

  /** The effect of popping the head of the queue. */
  datatype Turn =
    | Yield(name: string, queue: seq<Entry>)
    | Expand(queue: seq<Entry>)
    | Stop(outcome: Outcome)

  /** The GET of a manifest entry goes to its name without the leading
      slashes, inside the request's account. */
  function Fetch(gets: string -> GetResponse, e: Entry): GetResponse {
    gets(LStrip(e.name, '/'))
  }

  /** One turn of the `while sub_segments` loop. */
  function Step(gets: string -> GetResponse, maxBuffered: int, queue: seq<Entry>): Turn
    requires |queue| > 0
  {
    if |queue| > maxBuffered then Stop(TooManyBuffered)
    else
      var e := queue[0];
      var rest := queue[1..];
      if !e.subSlo then Yield(e.name, rest)
      else
        var resp := Fetch(gets, e);
        if IsSuccess(resp.status) then
          if resp.isSlo then
            match resp.body
            case None => Stop(ManifestUnreadable)
            case Some(children) => Expand(rest + children + [Entry(e.name, false)])
          else Expand(rest + [Entry(e.name, false)])
        else if resp.status == NotFound then Expand(rest)
        else Stop(SubManifestUnavailable)
  }

  /** The traversal of `queue`, for at most `fuel` turns. */
  function Run(gets: string -> GetResponse, maxBuffered: int, queue: seq<Entry>, fuel: nat): (t: Traversal)
    ensures |t.yielded| <= fuel
    ensures |queue| == 0 ==> t == Traversal([], Finished)
    ensures t.outcome != NotAManifest
    decreases fuel
  {
    if |queue| == 0 then Traversal([], Finished)
    else if fuel == 0 then Traversal([], Suspended)
    else
      match Step(gets, maxBuffered, queue)
      case Stop(o) => Traversal([], o)
      case Yield(n, q) => Prepend(n, Run(gets, maxBuffered, q, fuel - 1))
      case Expand(q) => Run(gets, maxBuffered, q, fuel - 1)
  }

  function Prepend(n: string, t: Traversal): Traversal {
    Traversal([n] + t.yielded, t.outcome)
  }

  /** The first queue entry: the manifest named in the request. */
  function RootEntry(container: string, obj: string): Entry {
    Entry("/" + container + "/" + obj, true)
  }

  /** `n` is listed by the body of some GET response. */
  ghost predicate ListedBy(gets: string -> GetResponse, key: string, n: string) {
    var body := gets(key).body;
    body.Some? && exists c :: c in body.value && c.name == n
  }

  /** A name the traversal can come across: the root manifest's, or one
      listed in a manifest body. */
  ghost predicate Known(gets: string -> GetResponse, root: string, n: string) {
    n == root || exists key :: ListedBy(gets, key, n)
  }

  /** The generator, as a loop over the queue. `target` is the container
      and object of the request path, None when the path has fewer parts. */
  method DeleteSegments(gets: string -> GetResponse, maxBuffered: int, target: Option<(string, string)>, fuel: nat)
    returns (yielded: seq<string>, outcome: Outcome)
    ensures target.None? ==> yielded == [] && outcome == NotAManifest
    ensures target.Some? ==>
      Traversal(yielded, outcome) == Run(gets, maxBuffered, [RootEntry(target.value.0, target.value.1)], fuel)
    ensures target.Some? ==>
      forall k :: 0 <= k < |yielded| ==> Known(gets, RootEntry(target.value.0, target.value.1).name, yielded[k])
  {
    if target.None? {
      return [], NotAManifest;
    }
    var root := RootEntry(target.value.0, target.value.1);
    ghost var whole := Run(gets, maxBuffered, [root], fuel);
    var queue := [root];
    var f := fuel;
    yielded := [];
    while |queue| > 0 && f > 0
      invariant Resumes(gets, maxBuffered, yielded, queue, f, whole)
      invariant AllKnown(gets, root.name, Names(queue))
      invariant AllKnown(gets, root.name, yielded)
      decreases f
    {
      match Step(gets, maxBuffered, queue)
      case Stop(o) =>
        StopTurn(gets, maxBuffered, yielded, queue, f, whole);
        return yielded, o;
      case Yield(n, q) =>
        YieldTurn(gets, maxBuffered, root.name, yielded, queue, f, whole);
        yielded := yielded + [n];
        queue := q;
        f := f - 1;
      case Expand(q) =>
        ExpandTurn(gets, maxBuffered, root.name, yielded, queue, f, whole);
        queue := q;
        f := f - 1;
    }
    assert Run(gets, maxBuffered, queue, f).yielded == [];
    assert yielded + [] == yielded;
    outcome := if |queue| == 0 then Finished else Suspended;
  }

  /** The names yielded so far followed by the traversal of what is left
      make up the whole traversal. */
  predicate Resumes(gets: string -> GetResponse, maxBuffered: int, yielded: seq<string>, queue: seq<Entry>, f: nat, whole: Traversal) {
    var t := Run(gets, maxBuffered, queue, f);
    Traversal(yielded + t.yielded, t.outcome) == whole
  }

  ghost predicate AllKnown(gets: string -> GetResponse, root: string, names: seq<string>) {
    forall k :: 0 <= k < |names| ==> Known(gets, root, names[k])
  }

  /** A turn that stops ends the whole traversal with what was yielded. */
  lemma StopTurn(gets: string -> GetResponse, maxBuffered: int, yielded: seq<string>, queue: seq<Entry>, f: nat, whole: Traversal)
    requires |queue| > 0 && f > 0 && Step(gets, maxBuffered, queue).Stop?
    requires Resumes(gets, maxBuffered, yielded, queue, f, whole)
    ensures whole == Traversal(yielded, Step(gets, maxBuffered, queue).outcome)
  {
    assert yielded + [] == yielded;
  }

  /** A turn that yields moves one known name from the queue to the output. */
  lemma YieldTurn(gets: string -> GetResponse, maxBuffered: int, root: string, yielded: seq<string>, queue: seq<Entry>, f: nat, whole: Traversal)
    requires |queue| > 0 && f > 0 && Step(gets, maxBuffered, queue).Yield?
    requires Resumes(gets, maxBuffered, yielded, queue, f, whole)
    requires AllKnown(gets, root, Names(queue)) && AllKnown(gets, root, yielded)
    ensures var turn := Step(gets, maxBuffered, queue);
      && Resumes(gets, maxBuffered, yielded + [turn.name], turn.queue, f - 1, whole)
      && AllKnown(gets, root, Names(turn.queue))
      && AllKnown(gets, root, yielded + [turn.name])
  {
    var turn := Step(gets, maxBuffered, queue);
    var later := Run(gets, maxBuffered, turn.queue, f - 1);
    assert Run(gets, maxBuffered, queue, f) == Prepend(turn.name, later);
    assert yielded + ([turn.name] + later.yielded) == (yielded + [turn.name]) + later.yielded;
    assert turn.queue == queue[1..];
    assert turn.name == Names(queue)[0];
    assert forall k :: 0 <= k < |turn.queue| ==> Names(turn.queue)[k] == Names(queue)[k + 1];
  }

  /** A turn that expands keeps the output and queues only known names. */
  lemma ExpandTurn(gets: string -> GetResponse, maxBuffered: int, root: string, yielded: seq<string>, queue: seq<Entry>, f: nat, whole: Traversal)
    requires |queue| > 0 && f > 0 && Step(gets, maxBuffered, queue).Expand?
    requires Resumes(gets, maxBuffered, yielded, queue, f, whole)
    requires AllKnown(gets, root, Names(queue))
    ensures var turn := Step(gets, maxBuffered, queue);
      && Resumes(gets, maxBuffered, yielded, turn.queue, f - 1, whole)
      && AllKnown(gets, root, Names(turn.queue))
  {
    KnownAfterExpand(gets, maxBuffered, root, queue);
  }

  /** Expanding a manifest queues only names the traversal can know. */
  lemma KnownAfterExpand(gets: string -> GetResponse, maxBuffered: int, root: string, queue: seq<Entry>)
    requires |queue| > 0 && Step(gets, maxBuffered, queue).Expand?
    requires forall k :: 0 <= k < |queue| ==> Known(gets, root, queue[k].name)
    ensures var q := Step(gets, maxBuffered, queue).queue;
      forall k :: 0 <= k < |q| ==> Known(gets, root, q[k].name)
  {
    var q := Step(gets, maxBuffered, queue).queue;
    var e := queue[0];
    var resp := Fetch(gets, e);
    var key := LStrip(e.name, '/');
    forall k | 0 <= k < |q|
      ensures Known(gets, root, q[k].name)
    {
      if k < |queue| - 1 {
        assert q[k] == queue[k + 1];
      } else if k == |q| - 1 && IsSuccess(resp.status) {
        assert q[k].name == e.name;
      } else {
        var children := resp.body.value;
        var c := q[k];
        assert c == children[k - (|queue| - 1)];
        assert c in children;
        assert ListedBy(gets, key, c.name);
      }
    }
  }

  // ---------------------------------------------------------------------
  // What one turn does. Each lemma below is one branch of `Step` read off
  // `Run`, stated for the record; what a whole traversal deletes is stated
  // by `FinishedYieldsEveryPlainEntry` further down.

  /** More entries buffered than the bound stops the traversal before the
      head is looked at, so nothing more is yielded. `Run` unfolded once
      for this case. */
  lemma BufferBoundEnforced(gets: string -> GetResponse, maxBuffered: int, queue: seq<Entry>, fuel: nat)
    requires |queue| > maxBuffered && |queue| > 0 && fuel > 0
    ensures Run(gets, maxBuffered, queue, fuel) == Traversal([], TooManyBuffered)
  {
  }

  /** A segment at the head of the queue is yielded, and the rest of the
      queue goes on unchanged. `Run` unfolded once for this case. */
  lemma LeafYielded(gets: string -> GetResponse, maxBuffered: int, queue: seq<Entry>, fuel: nat)
    requires 0 < |queue| <= maxBuffered && fuel > 0 && !queue[0].subSlo
    ensures Run(gets, maxBuffered, queue, fuel) == Prepend(queue[0].name, Run(gets, maxBuffered, queue[1..], fuel - 1))
  {
  }

  /** A manifest that is gone (404) is treated as deleted: it is dropped
      from the queue and its name is never yielded for it. `Run` unfolded
      once for this case. */
  lemma MissingManifestSkipped(gets: string -> GetResponse, maxBuffered: int, queue: seq<Entry>, fuel: nat)
    requires 0 < |queue| <= maxBuffered && fuel > 0 && queue[0].subSlo
    requires Fetch(gets, queue[0]).status == NotFound
    ensures Run(gets, maxBuffered, queue, fuel) == Run(gets, maxBuffered, queue[1..], fuel - 1)
  {
  }

  /** A manifest that is still one has its segments queued behind the
      entries already waiting, and is itself queued again after them as a
      plain entry, to be yielded once they have been. `Run` unfolded once
      for this case. */
  lemma ManifestRequeuedAfterChildren(gets: string -> GetResponse, maxBuffered: int, queue: seq<Entry>, fuel: nat)
    requires 0 < |queue| <= maxBuffered && fuel > 0 && queue[0].subSlo
    requires IsSuccess(Fetch(gets, queue[0]).status) && Fetch(gets, queue[0]).isSlo
    requires Fetch(gets, queue[0]).body.Some?
    ensures var children := Fetch(gets, queue[0]).body.value;
      Run(gets, maxBuffered, queue, fuel)
        == Run(gets, maxBuffered, queue[1..] + children + [Entry(queue[0].name, false)], fuel - 1)
  {
  }

  /** An object that is no longer a manifest is deleted as a plain object,
      after the entries already waiting. `Run` unfolded once for this case. */
  lemma FormerManifestRequeued(gets: string -> GetResponse, maxBuffered: int, queue: seq<Entry>, fuel: nat)
    requires 0 < |queue| <= maxBuffered && fuel > 0 && queue[0].subSlo
    requires IsSuccess(Fetch(gets, queue[0]).status) && !Fetch(gets, queue[0]).isSlo
    ensures Run(gets, maxBuffered, queue, fuel)
      == Run(gets, maxBuffered, queue[1..] + [Entry(queue[0].name, false)], fuel - 1)
  {
  }

  /** A manifest body that is not JSON, or a failed GET other than 404,
      is a server error and stops the traversal. `Run` unfolded once for
      these cases. */
  lemma FetchFailureIsServerError(gets: string -> GetResponse, maxBuffered: int, queue: seq<Entry>, fuel: nat)
    requires 0 < |queue| <= maxBuffered && fuel > 0 && queue[0].subSlo
    ensures var resp := Fetch(gets, queue[0]);
      && (IsSuccess(resp.status) && resp.isSlo && resp.body.None? ==>
            Run(gets, maxBuffered, queue, fuel) == Traversal([], ManifestUnreadable))
      && (!IsSuccess(resp.status) && resp.status != NotFound ==>
            Run(gets, maxBuffered, queue, fuel) == Traversal([], SubManifestUnavailable))
  {
  }

  // ---------------------------------------------------------------------
  // Whole traversals.

  function Names(q: seq<Entry>): (ns: seq<string>)
    ensures |ns| == |q|
    ensures forall k :: 0 <= k < |q| ==> ns[k] == q[k].name
  {
    seq(|q|, k requires 0 <= k < |q| => q[k].name)
  }

  predicate AllLeaves(q: seq<Entry>) {
    forall k :: 0 <= k < |q| ==> !q[k].subSlo
  }

  /** A queue of plain segments within the bound is yielded in order, one
      turn per segment, and the traversal finishes. */
  lemma {:induction false} LeavesDrain(gets: string -> GetResponse, maxBuffered: int, queue: seq<Entry>, fuel: nat)
    requires AllLeaves(queue) && |queue| <= maxBuffered && |queue| <= fuel
    ensures Run(gets, maxBuffered, queue, fuel) == Traversal(Names(queue), Finished)
    decreases |queue|
  {
    if |queue| > 0 {
      LeavesDrain(gets, maxBuffered, queue[1..], fuel - 1);
      assert Names(queue) == [queue[0].name] + Names(queue[1..]);
    }
  }

  /** Deleting a manifest of plain segments yields every segment in
      manifest order and then the manifest itself, provided the segments
      and the re-queued manifest fit in the buffer. */
  lemma FlatManifestDeletesSegmentsThenManifest(
    gets: string -> GetResponse, maxBuffered: int, container: string, obj: string, fuel: nat)
    requires var resp := Fetch(gets, RootEntry(container, obj));
      IsSuccess(resp.status) && resp.isSlo && resp.body.Some? && AllLeaves(resp.body.value)
    requires |Fetch(gets, RootEntry(container, obj)).body.value| + 1 <= maxBuffered
    requires |Fetch(gets, RootEntry(container, obj)).body.value| + 2 <= fuel
    ensures var root := RootEntry(container, obj);
      Run(gets, maxBuffered, [root], fuel)
        == Traversal(Names(Fetch(gets, root).body.value) + [root.name], Finished)
  {
    var root := RootEntry(container, obj);
    var children := Fetch(gets, root).body.value;
    var q := children + [Entry(root.name, false)];
    assert [root][1..] + children + [Entry(root.name, false)] == q;
    assert Run(gets, maxBuffered, [root], fuel) == Run(gets, maxBuffered, q, fuel - 1);
    LeavesDrain(gets, maxBuffered, q, fuel - 1);
    assert Names(q) == Names(children) + [root.name];
  }

  /** What a turn keeps of the queue: a plain head is yielded and dropped,
      an expansion keeps every entry behind the head in front, and a stop
      is never a finished traversal. */
  lemma StepShape(gets: string -> GetResponse, maxBuffered: int, queue: seq<Entry>)
    requires |queue| > 0
    ensures var t := Step(gets, maxBuffered, queue);
      && (t.Yield? ==> t.name == queue[0].name && t.queue == queue[1..])
      && (t.Expand? ==> queue[0].subSlo && |queue| - 1 <= |t.queue| && t.queue[..|queue| - 1] == queue[1..])
      && (t.Stop? ==> t.outcome != Finished)
      && (|queue| <= maxBuffered && !queue[0].subSlo ==> t.Yield?)
  {
  }

  /** A traversal that finishes has yielded the name of every plain entry
      of the queue it started from: nothing queued for deletion is lost,
      whatever manifests are expanded on the way. */
  lemma {:induction false} FinishedYieldsEveryPlainEntry(
    gets: string -> GetResponse, maxBuffered: int, queue: seq<Entry>, fuel: nat)
    requires Run(gets, maxBuffered, queue, fuel).outcome == Finished
    ensures forall k :: 0 <= k < |queue| && !queue[k].subSlo ==>
      queue[k].name in Run(gets, maxBuffered, queue, fuel).yielded
    decreases fuel
  {
    if |queue| > 0 {
      StepShape(gets, maxBuffered, queue);
      var whole := Run(gets, maxBuffered, queue, fuel);
      match Step(gets, maxBuffered, queue)
      case Yield(n, q) =>
        FinishedYieldsEveryPlainEntry(gets, maxBuffered, q, fuel - 1);
        assert whole.yielded == [n] + Run(gets, maxBuffered, q, fuel - 1).yielded;
        forall k | 0 <= k < |queue| && !queue[k].subSlo
          ensures queue[k].name in whole.yielded
        {
          if k > 0 {
            assert queue[k] == q[k - 1];
          }
        }
      case Expand(q) =>
        FinishedYieldsEveryPlainEntry(gets, maxBuffered, q, fuel - 1);
        assert whole == Run(gets, maxBuffered, q, fuel - 1);
        forall k | 0 <= k < |queue| && !queue[k].subSlo
          ensures queue[k].name in whole.yielded
        {
          assert k > 0;
          assert queue[k] == q[..|queue| - 1][k - 1];
        }
      case Stop(_) =>
    }
  }

  /** A finished traversal whose first entry is a manifest that is still
      one deletes the manifest itself and every plain segment it lists:
      the "segments and sub-segments referenced in a manifest". */
  lemma ManifestAndSegmentsDeleted(gets: string -> GetResponse, maxBuffered: int, queue: seq<Entry>, fuel: nat)
    requires |queue| > 0 && queue[0].subSlo
    requires var resp := Fetch(gets, queue[0]); IsSuccess(resp.status) && resp.isSlo && resp.body.Some?
    requires Run(gets, maxBuffered, queue, fuel).outcome == Finished
    ensures var t := Run(gets, maxBuffered, queue, fuel);
      && queue[0].name in t.yielded
      && forall c :: c in Fetch(gets, queue[0]).body.value && !c.subSlo ==> c.name in t.yielded
  {
    var children := Fetch(gets, queue[0]).body.value;
    var q := queue[1..] + children + [Entry(queue[0].name, false)];
    assert fuel > 0 && |queue| <= maxBuffered;
    assert Run(gets, maxBuffered, queue, fuel) == Run(gets, maxBuffered, q, fuel - 1);
    FinishedYieldsEveryPlainEntry(gets, maxBuffered, q, fuel - 1);
    assert q[|q| - 1] == Entry(queue[0].name, false);
    forall c | c in children && !c.subSlo
      ensures c.name in Run(gets, maxBuffered, q, fuel - 1).yielded
    {
      var j :| 0 <= j < |children| && children[j] == c;
      assert q[|queue| - 1 + j] == c;
    }
  }

  /** A manifest listing more segments than fit in the buffer is refused
      before any of them is yielded. */
  lemma OverfullManifestRefused(
    gets: string -> GetResponse, maxBuffered: int, container: string, obj: string, fuel: nat)
    requires var resp := Fetch(gets, RootEntry(container, obj));
      IsSuccess(resp.status) && resp.isSlo && resp.body.Some?
    requires 1 <= maxBuffered < |Fetch(gets, RootEntry(container, obj)).body.value| + 1
    requires fuel >= 2
    ensures Run(gets, maxBuffered, [RootEntry(container, obj)], fuel) == Traversal([], TooManyBuffered)
  {
  }

  /** `name.lstrip('/')` of a name with one leading slash. */
  lemma StripOneSlash(rest: string)
    requires |rest| > 0 && rest[0] != '/'
    ensures LStrip("/" + rest, '/') == rest
  {
    assert ("/" + rest)[1..] == rest;
  }

  /** The first turn of `NestedManifestOrder`: the root is expanded. */
  lemma NestedFirstTurn(gets: string -> GetResponse, b: Entry, m: Entry)
    requires gets("c/m") == GetResponse(200, true, Some([Entry("/c/n", true), b]))
    requires m == Entry("/c/m", false)
    ensures Run(gets, 10, [RootEntry("c", "m")], 10) == Run(gets, 10, [Entry("/c/n", true), b, m], 9)
  {
    StripOneSlash("c/m");
    assert RootEntry("c", "m") == Entry("/c/m", true);
    assert [RootEntry("c", "m")][1..] + [Entry("/c/n", true), b] + [m] == [Entry("/c/n", true), b, m];
  }

  /** The second turn of `NestedManifestOrder`: the nested manifest is
      expanded behind what is already queued. */
  lemma NestedSecondTurn(gets: string -> GetResponse, a: Entry, b: Entry, m: Entry, n: Entry)
    requires gets("c/n") == GetResponse(200, true, Some([a]))
    requires n == Entry("/c/n", false)
    ensures Run(gets, 10, [Entry("/c/n", true), b, m], 9) == Run(gets, 10, [b, m, a, n], 8)
  {
    StripOneSlash("c/n");
    assert [Entry("/c/n", true), b, m][1..] + [a] + [n] == [b, m, a, n];
  }

  /** The queue is served in arrival order: the root manifest `/c/m` that
      lists a nested manifest `/c/n` and a segment `/c/b`, where `/c/n`
      lists `/c/a`, is yielded after `/c/b` but before `/c/a` and `/c/n`. */
  lemma NestedManifestOrder(gets: string -> GetResponse)
    requires gets("c/m") == GetResponse(200, true, Some([Entry("/c/n", true), Entry("/c/b", false)]))
    requires gets("c/n") == GetResponse(200, true, Some([Entry("/c/a", false)]))
    ensures Run(gets, 10, [RootEntry("c", "m")], 10) == Traversal(["/c/b", "/c/m", "/c/a", "/c/n"], Finished)
  {
    var m := Entry("/c/m", false);
    var n := Entry("/c/n", false);
    var a := Entry("/c/a", false);
    var b := Entry("/c/b", false);
    NestedFirstTurn(gets, b, m);
    NestedSecondTurn(gets, a, b, m, n);
    LeavesDrain(gets, 10, [b, m, a, n], 8);
    assert Names([b, m, a, n]) == ["/c/b", "/c/m", "/c/a", "/c/n"];
  }
}
