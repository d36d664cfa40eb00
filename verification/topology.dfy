/** Where the replication probe looks on disk: `posixpath.join`, the
    device each object server serves, found through the ring by port, and
    the check made after the sub-directories of every partition have been
    deleted: while `hashes.pkl` is still in place, replication must not
    bring them back, so no partition may list a directory. Two places
    in the probe do not do what they evidently mean to do; each is modelled
    as written next to its corrected form. */
module Topology {
  import opened Results
  import opened Strings

  // ---------------------------------------------------------------------
  // posixpath.join

  /** One step of `posixpath.join`: an absolute component replaces the path;
      otherwise it is added after a `/` unless the path is empty or already
      ends in one. */
  function JoinStep(path: string, b: string): string {
    if |b| > 0 && b[0] == '/' then b
    else if |path| == 0 || path[|path| - 1] == '/' then path + b
    else path + "/" + b
  }

  /** `os.path.join(a, *parts)`. */
  function PathJoin(a: string, parts: seq<string>): string
    decreases |parts|
  {
    if |parts| == 0 then a else PathJoin(JoinStep(a, parts[0]), parts[1..])
  }

  /** A directory entry name as `os.listdir` returns it. */
  predicate IsEntryName(s: string) {
    |s| > 0 && forall i :: 0 <= i < |s| ==> s[i] != '/'
  }

  /** Joining plain entry names onto a path that does not end in `/` puts a
      single `/` before each. */
  lemma {:induction false} JoinEntries(a: string, parts: seq<string>)
    requires |a| > 0 && a[|a| - 1] != '/'
    requires forall k :: 0 <= k < |parts| ==> IsEntryName(parts[k])
    ensures PathJoin(a, parts) == a + Slashed(parts)
    decreases |parts|
  {
    if |parts| > 0 {
      var b := parts[0];
      assert b[0] != '/';
      var next := a + "/" + b;
      assert JoinStep(a, b) == next;
      assert next[|next| - 1] == b[|b| - 1];
      JoinEntries(next, parts[1..]);
      assert Slashed(parts) == "/" + b + Slashed(parts[1..]);
    }
  }

  /** Each part preceded by a `/`. */
  function Slashed(parts: seq<string>): string
    decreases |parts|
  {
    if |parts| == 0 then "" else "/" + parts[0] + Slashed(parts[1..])
  }

  /** A bare `/` among the components throws away everything before it. */
  lemma SlashResets(a: string, d: string, x: string)
    requires IsEntryName(x)
    ensures PathJoin(a, ["objects", d, "/", x]) == "/" + x
  {
    var p := JoinStep(JoinStep(a, "objects"), d);
    assert ["objects", d, "/", x][1..] == [d, "/", x];
    assert [d, "/", x][1..] == ["/", x];
    assert ["/", x][1..] == [x];
    assert PathJoin(a, ["objects", d, "/", x]) == PathJoin(p, ["/", x]);
    assert JoinStep(p, "/") == "/";
    assert x[0] != '/';
    assert JoinStep("/", x) == "/" + x;
    assert PathJoin("/", [x]) == PathJoin("/" + x, []);
  }

  // ---------------------------------------------------------------------
  // The device of each node.

  /** One device of the object ring. */
  datatype RingDev = RingDev(port: int, device: string)

  /** One object server's configuration: where its devices are mounted and
      the port it listens on. */
  datatype NodeConf = NodeConf(devicesRoot: string, bindPort: int)

  /** The device of the last ring entry listening on `port`. */
  function LastMatchingDevice(devs: seq<RingDev>, port: int): Option<string>
    decreases |devs|
  {
    if |devs| == 0 then None
    else if devs[|devs| - 1].port == port then Some(devs[|devs| - 1].device)
    else LastMatchingDevice(devs[..|devs| - 1], port)
  }

  /** `d` is the device of an entry on `port` that no later entry on
      `port` follows. */
  predicate IsLastMatch(devs: seq<RingDev>, port: int, k: int) {
    0 <= k < |devs| && devs[k].port == port && forall j :: k < j < |devs| ==> devs[j].port != port
  }

  /** The loop over the ring keeps overwriting `device`, so the device is
      found exactly when some entry is on the port, and it is the last such
      entry's. */
  lemma {:induction false} LastMatchingDeviceSpec(devs: seq<RingDev>, port: int)
    ensures LastMatchingDevice(devs, port).None? <==> forall k :: 0 <= k < |devs| ==> devs[k].port != port
    ensures LastMatchingDevice(devs, port).Some? ==>
      exists k :: IsLastMatch(devs, port, k) && devs[k].device == LastMatchingDevice(devs, port).value
    decreases |devs|
  {
    if |devs| > 0 {
      var init := devs[..|devs| - 1];
      assert forall k :: 0 <= k < |init| ==> init[k] == devs[k];
      if devs[|devs| - 1].port == port {
        assert IsLastMatch(devs, port, |devs| - 1);
      } else {
        LastMatchingDeviceSpec(init, port);
        if LastMatchingDevice(init, port).Some? {
          var k :| IsLastMatch(init, port, k) && init[k].device == LastMatchingDevice(init, port).value;
          assert IsLastMatch(devs, port, k);
        }
      }
    }
  }

  datatype ResolveError =
    | UnboundDevice(node: nat)   // `device` read before any ring entry matched (UnboundLocalError)
    | NoDevice(node: nat)        // no ring entry listens on this node's port

  /** The loop of lines 104-110 as written: `device` is a local of the test
      method, so a node no ring entry matches reuses the device found for
      an earlier node, and only the first node can fail. */
  function ResolveAsWritten(nodes: seq<NodeConf>, devs: seq<RingDev>): Result<seq<string>, ResolveError> {
    ResolveAsWrittenFrom(nodes, devs, 0, None)
  }

  function ResolveAsWrittenFrom(nodes: seq<NodeConf>, devs: seq<RingDev>, i: nat, carried: Option<string>)
    : Result<seq<string>, ResolveError>
    requires i <= |nodes|
    decreases |nodes| - i
  {
    if i == |nodes| then Success([])
    else
      var device := match LastMatchingDevice(devs, nodes[i].bindPort)
        case Some(d) => Some(d)
        case None => carried;
      match device
      case None => Failure(UnboundDevice(i))
      case Some(d) =>
        match ResolveAsWrittenFrom(nodes, devs, i + 1, device)
        case Failure(e) => Failure(e)
        case Success(rest) => Success([PathJoin(nodes[i].devicesRoot, [d])] + rest)
  }

  /** The device path of each node, joined from its own device: a node no
      ring entry matches is an error. */
  function Resolve(nodes: seq<NodeConf>, devs: seq<RingDev>): Result<seq<string>, ResolveError> {
    ResolveFrom(nodes, devs, 0)
  }

  function ResolveFrom(nodes: seq<NodeConf>, devs: seq<RingDev>, i: nat): Result<seq<string>, ResolveError>
    requires i <= |nodes|
    decreases |nodes| - i
  {
    if i == |nodes| then Success([])
    else
      match LastMatchingDevice(devs, nodes[i].bindPort)
      case None => Failure(NoDevice(i))
      case Some(d) =>
        match ResolveFrom(nodes, devs, i + 1)
        case Failure(e) => Failure(e)
        case Success(rest) => Success([PathJoin(nodes[i].devicesRoot, [d])] + rest)
  }

  /** Every node has a device on its port. */
  predicate AllServed(nodes: seq<NodeConf>, devs: seq<RingDev>, i: nat) {
    forall j :: i <= j < |nodes| ==> LastMatchingDevice(devs, nodes[j].bindPort).Some?
  }

  /** The path of node `j`, from its own device. */
  function OwnPath(nodes: seq<NodeConf>, devs: seq<RingDev>, j: nat): string
    requires j < |nodes| && LastMatchingDevice(devs, nodes[j].bindPort).Some?
  {
    PathJoin(nodes[j].devicesRoot, [LastMatchingDevice(devs, nodes[j].bindPort).value])
  }

  /** The corrected resolution succeeds exactly when every node has a
      device, and then gives each node the path of its own device; when it
      fails it names the first node without one. */
  lemma {:induction false} ResolveSpec(nodes: seq<NodeConf>, devs: seq<RingDev>, i: nat)
    requires i <= |nodes|
    ensures var r := ResolveFrom(nodes, devs, i);
      && (r.Success? <==> AllServed(nodes, devs, i))
      && (r.Success? ==>
            |r.value| == |nodes| - i && forall k :: 0 <= k < |nodes| - i ==> r.value[k] == OwnPath(nodes, devs, i + k))
      && (r.Failure? ==>
            && r.error.NoDevice? && i <= r.error.node < |nodes|
            && LastMatchingDevice(devs, nodes[r.error.node].bindPort).None?
            && forall j :: i <= j < r.error.node ==> LastMatchingDevice(devs, nodes[j].bindPort).Some?)
    decreases |nodes| - i
  {
    if i < |nodes| {
      ResolveSpec(nodes, devs, i + 1);
      var r := ResolveFrom(nodes, devs, i);
      if LastMatchingDevice(devs, nodes[i].bindPort).Some? {
        var rest := ResolveFrom(nodes, devs, i + 1);
        if rest.Success? {
          var all := [OwnPath(nodes, devs, i)] + rest.value;
          assert r == Success(all);
          forall k | 0 <= k < |nodes| - i
            ensures all[k] == OwnPath(nodes, devs, i + k)
          {
            if k > 0 {
              assert all[k] == rest.value[k - 1];
              assert i + 1 + (k - 1) == i + k;
            }
          }
        }
      }
    }
  }

  /** Where every node has a device of its own, the loop as written finds
      the same paths as the corrected resolution. */
  lemma {:induction false} ResolveAgrees(nodes: seq<NodeConf>, devs: seq<RingDev>, i: nat, carried: Option<string>)
    requires i <= |nodes|
    requires forall j :: i <= j < |nodes| ==> LastMatchingDevice(devs, nodes[j].bindPort).Some?
    ensures var r := ResolveAsWrittenFrom(nodes, devs, i, carried);
      && r.Success? && |r.value| == |nodes| - i
      && forall k :: 0 <= k < |nodes| - i ==> r.value[k] == OwnPath(nodes, devs, i + k)
    decreases |nodes| - i
  {
    if i < |nodes| {
      var d := LastMatchingDevice(devs, nodes[i].bindPort).value;
      ResolveAgrees(nodes, devs, i + 1, Some(d));
      var rest := ResolveAsWrittenFrom(nodes, devs, i + 1, Some(d)).value;
      var all := [PathJoin(nodes[i].devicesRoot, [d])] + rest;
      assert ResolveAsWrittenFrom(nodes, devs, i, carried) == Success(all);
      forall k | 0 <= k < |nodes| - i
        ensures all[k] == OwnPath(nodes, devs, i + k)
      {
        if k > 0 {
          assert all[k] == rest[k - 1];
          assert i + 1 + (k - 1) == i + k;
        }
      }
    }
  }

  /** Two nodes, where the ring lists a device only for the first: as
      written the second node is given the first node's device, so the
      probe goes on with a path no server uses; the corrected resolution
      reports the second node. */
  lemma StaleDeviceReused(n1: NodeConf, n2: NodeConf, devs: seq<RingDev>)
    requires LastMatchingDevice(devs, n1.bindPort).Some? && LastMatchingDevice(devs, n2.bindPort).None?
    ensures var d := LastMatchingDevice(devs, n1.bindPort).value;
      && ResolveAsWritten([n1, n2], devs) == Success([PathJoin(n1.devicesRoot, [d]), PathJoin(n2.devicesRoot, [d])])
      && Resolve([n1, n2], devs) == Failure(NoDevice(1))
  {
    var d := LastMatchingDevice(devs, n1.bindPort).value;
    var nodes := [n1, n2];
    assert nodes[0] == n1 && nodes[1] == n2;
    assert ResolveAsWrittenFrom(nodes, devs, 2, Some(d)) == Success([]);
    assert [PathJoin(n2.devicesRoot, [d])] + [] == [PathJoin(n2.devicesRoot, [d])];
    assert ResolveAsWrittenFrom(nodes, devs, 1, Some(d)) == Success([PathJoin(n2.devicesRoot, [d])]);
    assert [PathJoin(n1.devicesRoot, [d])] + [PathJoin(n2.devicesRoot, [d])]
      == [PathJoin(n1.devicesRoot, [d]), PathJoin(n2.devicesRoot, [d])];
    assert ResolveFrom(nodes, devs, 1) == Failure(NoDevice(1));
  }

  // ---------------------------------------------------------------------
  // The check that deleted partition sub-directories stay deleted while
  // `hashes.pkl` remains (a directory found there is a stale one).

  /** A partition directory under `objects` and one entry it lists, in the
      order the nested `os.listdir` loops visit them. */
  datatype Visit = Visit(partition: string, entry: string)

  /** The first visited path that is a directory, if any: the assertion
      that fails. */
  function FirstDirectory(visits: seq<Visit>, isDir: string -> bool, pathOf: Visit -> string): (r: Option<string>)
    ensures r.None? <==> forall k :: 0 <= k < |visits| ==> !isDir(pathOf(visits[k]))
    ensures r.Some? ==> exists k :: (
      && 0 <= k < |visits| && r.value == pathOf(visits[k]) && isDir(r.value)
      && forall j :: 0 <= j < k ==> !isDir(pathOf(visits[j])))
    decreases |visits|
  {
    if |visits| == 0 then None
    else if isDir(pathOf(visits[0])) then Some(pathOf(visits[0]))
    else
      var r := FirstDirectory(visits[1..], isDir, pathOf);
      assert forall k :: 0 <= k < |visits| - 1 ==> visits[1..][k] == visits[k + 1];
      if r.Some? then
        var k :| (
          && 0 <= k < |visits| - 1 && r.value == pathOf(visits[1..][k]) && isDir(r.value)
          && forall j :: 0 <= j < k ==> !isDir(pathOf(visits[1..][j])));
        assert r.value == pathOf(visits[k + 1]);
        r
      else r
  }

  /** The path lines 184-185 test, with the `'/'` component as written. */
  function CheckedPathAsWritten(node: string, v: Visit): string {
    PathJoin(node, ["objects", v.partition, "/", v.entry])
  }

  /** The path the check means: the entry inside its partition. */
  function CheckedPath(node: string, v: Visit): string {
    PathJoin(node, ["objects", v.partition, v.entry])
  }

  function StaleCheckAsWritten(node: string, visits: seq<Visit>, isDir: string -> bool): Option<string> {
    FirstDirectory(visits, isDir, v => CheckedPathAsWritten(node, v))
  }

  function StaleCheck(node: string, visits: seq<Visit>, isDir: string -> bool): Option<string> {
    FirstDirectory(visits, isDir, v => CheckedPath(node, v))
  }

  /** As written, the check looks at `/<entry>` at the root of the file
      system, whatever the node: it cannot see the node's directories. */
  lemma StaleCheckAsWrittenIgnoresNode(node1: string, node2: string, visits: seq<Visit>, isDir: string -> bool)
    requires forall k :: 0 <= k < |visits| ==> IsEntryName(visits[k].entry)
    ensures StaleCheckAsWritten(node1, visits, isDir) == StaleCheckAsWritten(node2, visits, isDir)
    ensures StaleCheckAsWritten(node1, visits, isDir).None? <==>
      forall k :: 0 <= k < |visits| ==> !isDir("/" + visits[k].entry)
  {
    forall k | 0 <= k < |visits|
      ensures CheckedPathAsWritten(node1, visits[k]) == "/" + visits[k].entry
      ensures CheckedPathAsWritten(node2, visits[k]) == "/" + visits[k].entry
    {
      SlashResets(node1, visits[k].partition, visits[k].entry);
      SlashResets(node2, visits[k].partition, visits[k].entry);
    }
    SameFirstDirectory(visits, isDir, v => CheckedPathAsWritten(node1, v), v => CheckedPathAsWritten(node2, v));
  }

  lemma {:induction false} SameFirstDirectory(visits: seq<Visit>, isDir: string -> bool, p1: Visit -> string, p2: Visit -> string)
    requires forall k :: 0 <= k < |visits| ==> p1(visits[k]) == p2(visits[k])
    ensures FirstDirectory(visits, isDir, p1) == FirstDirectory(visits, isDir, p2)
    decreases |visits|
  {
    if |visits| > 0 {
      assert forall k :: 0 <= k < |visits| - 1 ==> visits[1..][k] == visits[k + 1];
      SameFirstDirectory(visits[1..], isDir, p1, p2);
    }
  }

  /** The corrected check passes exactly when no visited entry of any
      partition under the node's `objects` directory is a directory. */
  lemma StaleCheckSpec(node: string, visits: seq<Visit>, isDir: string -> bool)
    requires |node| > 0 && node[|node| - 1] != '/'
    requires forall k :: 0 <= k < |visits| ==> IsEntryName(visits[k].partition) && IsEntryName(visits[k].entry)
    ensures forall k :: 0 <= k < |visits| ==>
      CheckedPath(node, visits[k]) == node + "/objects/" + visits[k].partition + "/" + visits[k].entry
    ensures StaleCheck(node, visits, isDir).None? <==>
      forall k :: 0 <= k < |visits| ==> !isDir(node + "/objects/" + visits[k].partition + "/" + visits[k].entry)
  {
    forall k | 0 <= k < |visits|
      ensures CheckedPath(node, visits[k]) == node + "/objects/" + visits[k].partition + "/" + visits[k].entry
    {
      CheckedPathSpelled(node, visits[k]);
    }
  }

  /** The corrected path of one visit, spelled out. */
  lemma CheckedPathSpelled(node: string, v: Visit)
    requires |node| > 0 && node[|node| - 1] != '/'
    requires IsEntryName(v.partition) && IsEntryName(v.entry)
    ensures CheckedPath(node, v) == node + "/objects/" + v.partition + "/" + v.entry
  {
    assert IsEntryName("objects");
    JoinEntries(node, ["objects", v.partition, v.entry]);
    assert Slashed([v.entry]) == "/" + v.entry + Slashed([]);
    assert Slashed([v.partition, v.entry]) == "/" + v.partition + Slashed([v.entry]);
    assert Slashed(["objects", v.partition, v.entry]) == "/" + "objects" + Slashed([v.partition, v.entry]);
  }

  /** A partition that still holds a directory: the check as written
      passes, the corrected one reports the directory. */
  lemma StaleDirectoryMissed(node: string, partition: string, entry: string)
    requires |node| > 0 && node[|node| - 1] != '/'
    requires IsEntryName(partition) && IsEntryName(entry)
    ensures var target := node + "/objects/" + partition + "/" + entry;
      var isDir := (s: string) => s == target;
      && StaleCheckAsWritten(node, [Visit(partition, entry)], isDir) == None
      && StaleCheck(node, [Visit(partition, entry)], isDir) == Some(target)
  {
    var target := node + "/objects/" + partition + "/" + entry;
    var isDir := (s: string) => s == target;
    var visits := [Visit(partition, entry)];
    StaleCheckAsWrittenIgnoresNode(node, node, visits, isDir);
    assert |"/" + entry| < |target|;
    StaleCheckSpec(node, visits, isDir);
    assert CheckedPath(node, visits[0]) == target;
  }
}
