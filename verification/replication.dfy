/** The decisions of the replication probe once the trees have been
    walked: which node to wipe, the baseline it must get back, when it has
    got it back, and how long the probe keeps looking. */
module Replication {
  import opened Results
  import opened Strings

  // ---------------------------------------------------------------------
  // Choosing the node.

  /** `k` is the first index whose list is longest. */
  predicate IsFirstMax(lists: seq<seq<string>>, k: int) {
    && 0 <= k < |lists|
    && (forall i :: 0 <= i < |lists| ==> |lists[i]| <= |lists[k]|)
    && (forall i :: 0 <= i < k ==> |lists[i]| < |lists[k]|)
  }

  /** `find_max_occupancy_node`: the index of the first list of greatest
      length; 0 when there are no lists. */
  method FindMaxOccupancyNode(lists: seq<seq<string>>) returns (number: nat)
    ensures |lists| == 0 ==> number == 0
    ensures |lists| > 0 ==> IsFirstMax(lists, number)
  {
    var count := 0;
    number := 0;
    var length := 0;
    while count < |lists|
      invariant 0 <= count <= |lists|
      invariant count == 0 ==> number == 0 && length == 0
      invariant count > 0 ==> number < count && length == |lists[number]|
      invariant forall i :: 0 <= i < count ==> |lists[i]| <= length
      invariant forall i :: 0 <= i < number ==> |lists[i]| < length
      invariant number < count || (number == 0 && length == 0)
    {
      if length < |lists[count]| {
        length := |lists[count]|;
        number := count;
      }
      count := count + 1;
    }
  }

  /** There is only one first index of greatest length, so the choice is
      well defined whatever the lists are. */
  lemma FirstMaxUnique(lists: seq<seq<string>>, k: int, m: int)
    requires IsFirstMax(lists, k) && IsFirstMax(lists, m)
    ensures k == m
  {
    assert |lists[m]| <= |lists[k]|;
    assert |lists[k]| <= |lists[m]|;
  }

  // ---------------------------------------------------------------------
  // The baseline.

  const PendingSuffix := ".pending"

  /** The baseline file list: the chosen node's files without the names
      ending in `.pending`, in their order. */
  function DropPending(files: seq<string>): (r: seq<string>)
    ensures |r| <= |files|
  {
    if |files| == 0 then []
    else (if EndsWith(files[0], PendingSuffix) then [] else [files[0]]) + DropPending(files[1..])
  }

  /** A name is in the baseline exactly when it is one of the node's files
      and does not end in `.pending`; it keeps every other name as often as
      the node lists it. */
  lemma {:induction false} DropPendingSpec(files: seq<string>)
    ensures forall n :: n in DropPending(files) <==> n in files && !EndsWith(n, PendingSuffix)
    ensures forall n :: !EndsWith(n, PendingSuffix) ==> multiset(DropPending(files))[n] == multiset(files)[n]
    ensures forall n :: EndsWith(n, PendingSuffix) ==> multiset(DropPending(files))[n] == 0
  {
    if |files| > 0 {
      DropPendingSpec(files[1..]);
      assert files == [files[0]] + files[1..];
    }
  }

  /** Filtering the lists of two parts of a walk is filtering the whole. */
  lemma {:induction false} DropPendingAppend(a: seq<string>, b: seq<string>)
    ensures DropPending(a + b) == DropPending(a) + DropPending(b)
  {
    if |a| > 0 {
      DropPendingAppend(a[1..], b);
      assert (a + b)[1..] == a[1..] + b;
    } else {
      assert a + b == b;
    }
  }

  /** The baseline has no `.pending` name left to drop. */
  lemma {:induction false} DropPendingIdempotent(files: seq<string>)
    ensures DropPending(DropPending(files)) == DropPending(files)
  {
    if |files| > 0 {
      DropPendingIdempotent(files[1..]);
      var rest := DropPending(files[1..]);
      if EndsWith(files[0], PendingSuffix) {
        assert [] + rest == rest;
        assert DropPending(files) == rest;
      } else {
        assert DropPending(files) == [files[0]] + rest;
        assert ([files[0]] + rest)[1..] == rest;
      }
    }
  }

  // ---------------------------------------------------------------------
  // Convergence.

  /** Every baseline file and directory is listed again; other names do not
      matter. */
  predicate Converged(baseFiles: seq<string>, baseDirs: seq<string>, files: seq<string>, dirs: seq<string>) {
    && (forall f :: f in baseFiles ==> f in files)
    && (forall d :: d in baseDirs ==> d in dirs)
  }

  datatype Missing = MissingFile(name: string) | MissingDir(name: string)

  /** The first name of `base`, in its order, that `now` does not list. */
  function FirstMissing(base: seq<string>, now: seq<string>): (r: Option<string>)
    ensures r.None? <==> forall n :: n in base ==> n in now
    ensures r.Some? ==> r.value in base && r.value !in now
    ensures r.Some? ==> exists k :: 0 <= k < |base| && r.value == base[k] && forall j :: 0 <= j < k ==> base[j] in now
  {
    if |base| == 0 then None
    else if base[0] !in now then Some(base[0])
    else
      var rest := FirstMissing(base[1..], now);
      assert forall n :: n in base ==> n == base[0] || n in base[1..];
      if rest.Some? then
        var k :| 0 <= k < |base[1..]| && rest.value == base[1..][k] && forall j :: 0 <= j < k ==> base[1..][j] in now;
        assert forall j :: 1 <= j < k + 1 ==> base[j] == base[1..][j - 1];
        assert rest.value == base[k + 1];
        rest
      else rest
  }

  /** The assertions of one attempt, in order: every baseline file, then
      every baseline directory. The first that fails is the one reported. */
  function Check(baseFiles: seq<string>, baseDirs: seq<string>, files: seq<string>, dirs: seq<string>): (r: Option<Missing>)
  {
    match FirstMissing(baseFiles, files)
    case Some(f) => Some(MissingFile(f))
    case None =>
      match FirstMissing(baseDirs, dirs)
      case Some(d) => Some(MissingDir(d))
      case None => None
  }

  /** An attempt passes exactly when the node has converged, and a failing
      one names a baseline entry that is not listed. */
  lemma CheckIff(baseFiles: seq<string>, baseDirs: seq<string>, files: seq<string>, dirs: seq<string>)
    ensures Check(baseFiles, baseDirs, files, dirs).None? <==> Converged(baseFiles, baseDirs, files, dirs)
    ensures match Check(baseFiles, baseDirs, files, dirs)
      case Some(MissingFile(f)) => f in baseFiles && f !in files
      case Some(MissingDir(d)) => d in baseDirs && d !in dirs
      case None => true
  {
  }

  /** A node whose baseline was empty has converged from the start. */
  lemma EmptyBaselineConverges(files: seq<string>, dirs: seq<string>)
    ensures Converged([], [], files, dirs)
  {
  }

  /** Extra entries never undo convergence: listing more keeps it. */
  lemma ConvergedMonotone(baseFiles: seq<string>, baseDirs: seq<string>,
                          files: seq<string>, dirs: seq<string>, files2: seq<string>, dirs2: seq<string>)
    requires Converged(baseFiles, baseDirs, files, dirs)
    requires forall n :: n in files ==> n in files2
    requires forall n :: n in dirs ==> n in dirs2
    ensures Converged(baseFiles, baseDirs, files2, dirs2)
  {
  }

  /** The node has converged on its own listing once `.pending` files are
      set aside. */
  lemma BaselineOfItself(files: seq<string>, dirs: seq<string>)
    ensures Converged(DropPending(files), dirs, files, dirs)
  {
    DropPendingSpec(files);
  }

  // ---------------------------------------------------------------------
  // The poll.

  datatype PollResult =
    | Passed(attempt: nat)       // the check held at this attempt
    | TimedOut(attempt: nat)     // it failed here with more than 60 s gone
    | OutOfReadings              // the readings given ran out first

  const TimeLimit: real := 60.0

  /** Successive clock readings are at least a second apart per attempt,
      as the loop sleeps a second between attempts. */
  predicate SleepsBetween(clock: seq<real>) {
    forall i, j :: 0 <= i < j < |clock| ==> clock[j] - clock[i] >= (j - i) as real
  }

  /** The `while True` loop: attempt `k` passes when `passes[k]` holds;
      otherwise it gives up when `clock[k] - begin` exceeds 60 seconds, and
      else sleeps and tries again. The readings stand for `time.time()`. */
  method Poll(passes: seq<bool>, clock: seq<real>, begin: real) returns (r: PollResult)
    ensures r.Passed? ==> r.attempt < |passes| && r.attempt < |clock| && passes[r.attempt]
    ensures r.TimedOut? ==>
      r.attempt < |passes| && r.attempt < |clock| && !passes[r.attempt] && clock[r.attempt] - begin > TimeLimit
    ensures r.Passed? || r.TimedOut? ==>
      forall j :: 0 <= j < r.attempt ==> !passes[j] && clock[j] - begin <= TimeLimit
    ensures r.OutOfReadings? ==>
      forall j :: 0 <= j < |passes| && j < |clock| ==> !passes[j] && clock[j] - begin <= TimeLimit
    ensures SleepsBetween(clock) && |clock| > 0 && begin <= clock[0] && 62 <= |passes| && 62 <= |clock|
      ==> !r.OutOfReadings?
  {
    var k := 0;
    while k < |passes| && k < |clock|
      invariant 0 <= k <= |passes| && k <= |clock|
      invariant forall j :: 0 <= j < k ==> !passes[j] && clock[j] - begin <= TimeLimit
      invariant SleepsBetween(clock) && |clock| > 0 && begin <= clock[0] && 62 <= |passes| && 62 <= |clock|
        ==> k <= 61
    {
      if passes[k] {
        return Passed(k);
      }
      if clock[k] - begin > TimeLimit {
        return TimedOut(k);
      }
      if SleepsBetween(clock) && |clock| > 0 && begin <= clock[0] && 62 <= |passes| && 62 <= |clock| && k > 0 {
        assert clock[k] - clock[0] >= k as real;
      }
      k := k + 1;
    }
    return OutOfReadings;
  }
}
