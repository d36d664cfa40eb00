/** The directory trees the replication probe inspects: what a top-down
    `os.walk` of a device finds (`collect_info`) and the removal of every
    entry at the top of a device. A tree is a value; the order of a
    directory's children is the order in which the directory lists them. */
module FsTree {
  import opened Results

  datatype Node = File(name: string) | Dir(name: string, children: seq<Node>)

  /** The names of the files directly in a directory. */
  function FileNames(cs: seq<Node>): (r: seq<string>)
    ensures |r| <= |cs|
    ensures forall n :: n in r <==> File(n) in cs
  {
    if |cs| == 0 then []
    else (if cs[0].File? then [cs[0].name] else []) + FileNames(cs[1..])
  }

  /** The names of the directories directly in a directory. */
  function DirNames(cs: seq<Node>): (r: seq<string>)
    ensures |r| <= |cs|
    ensures forall n :: n in r <==> exists k :: 0 <= k < |cs| && cs[k].Dir? && cs[k].name == n
  {
    if |cs| == 0 then []
    else
      var rest := DirNames(cs[1..]);
      assert forall k :: 0 <= k < |cs| - 1 ==> cs[1..][k] == cs[k + 1];
      (if cs[0].Dir? then [cs[0].name] else []) + rest
  }

  /** The file names a top-down walk of a directory with children `cs`
      gathers: the files at this level, then the walk of each
      subdirectory in turn. */
  function WalkFiles(cs: seq<Node>): seq<string>
    decreases cs, 1
  {
    FileNames(cs) + SubWalkFiles(cs)
  }

  function SubWalkFiles(cs: seq<Node>): seq<string>
    decreases cs, 0
  {
    if |cs| == 0 then []
    else (if cs[0].Dir? then WalkFiles(cs[0].children) else []) + SubWalkFiles(cs[1..])
  }

  /** The directory names the same walk gathers. */
  function WalkDirs(cs: seq<Node>): seq<string>
    decreases cs, 1
  {
    DirNames(cs) + SubWalkDirs(cs)
  }

  function SubWalkDirs(cs: seq<Node>): seq<string>
    decreases cs, 0
  {
    if |cs| == 0 then []
    else (if cs[0].Dir? then WalkDirs(cs[0].children) else []) + SubWalkDirs(cs[1..])
  }

  /** The children a walk of `root` starts from: none when the root is not
      a directory, as `os.walk` yields nothing for a path it cannot list. */
  function Contents(root: Node): seq<Node> {
    if root.Dir? then root.children else []
  }

  /** Reference: a file called `n` lies somewhere below a directory whose
      children are `cs`. */
  predicate HasFileBelow(cs: seq<Node>, n: string)
    decreases cs
  {
    exists k :: 0 <= k < |cs| && (cs[k] == File(n) || (cs[k].Dir? && HasFileBelow(cs[k].children, n)))
  }

  /** Reference: a directory called `n` lies somewhere below. */
  predicate HasDirBelow(cs: seq<Node>, n: string)
    decreases cs
  {
    exists k :: 0 <= k < |cs| && cs[k].Dir? && (cs[k].name == n || HasDirBelow(cs[k].children, n))
  }

  /** The walk finds a file name exactly when a file of that name lies
      below, at any depth. */
  lemma {:induction false} WalkFilesIff(cs: seq<Node>, n: string)
    ensures n in WalkFiles(cs) <==> HasFileBelow(cs, n)
    decreases cs, 1
  {
    SubWalkFilesIff(cs, n);
  }

  lemma {:induction false} SubWalkFilesIff(cs: seq<Node>, n: string)
    ensures n in SubWalkFiles(cs) <==>
      exists k :: 0 <= k < |cs| && cs[k].Dir? && HasFileBelow(cs[k].children, n)
    decreases cs, 0
  {
    if |cs| > 0 {
      var rest := cs[1..];
      SubWalkFilesIff(rest, n);
      if cs[0].Dir? {
        WalkFilesIff(cs[0].children, n);
      }
      assert forall k :: 0 <= k < |rest| ==> rest[k] == cs[k + 1];
      if exists k :: 0 <= k < |cs| && cs[k].Dir? && HasFileBelow(cs[k].children, n) {
        var k :| 0 <= k < |cs| && cs[k].Dir? && HasFileBelow(cs[k].children, n);
        if k > 0 {
          assert rest[k - 1] == cs[k];
        }
      }
    }
  }

  /** The walk finds a directory name exactly when a directory of that name
      lies below, at any depth. */
  lemma {:induction false} WalkDirsIff(cs: seq<Node>, n: string)
    ensures n in WalkDirs(cs) <==> HasDirBelow(cs, n)
    decreases cs, 1
  {
    SubWalkDirsIff(cs, n);
  }

  lemma {:induction false} SubWalkDirsIff(cs: seq<Node>, n: string)
    ensures n in SubWalkDirs(cs) <==>
      exists k :: 0 <= k < |cs| && cs[k].Dir? && HasDirBelow(cs[k].children, n)
    decreases cs, 0
  {
    if |cs| > 0 {
      var rest := cs[1..];
      SubWalkDirsIff(rest, n);
      if cs[0].Dir? {
        WalkDirsIff(cs[0].children, n);
      }
      assert forall k :: 0 <= k < |rest| ==> rest[k] == cs[k + 1];
      if exists k :: 0 <= k < |cs| && cs[k].Dir? && HasDirBelow(cs[k].children, n) {
        var k :| 0 <= k < |cs| && cs[k].Dir? && HasDirBelow(cs[k].children, n);
        if k > 0 {
          assert rest[k - 1] == cs[k];
        }
      }
    }
  }

  /** Reference: the number of files anywhere below. */
  function FileCount(cs: seq<Node>): nat
    decreases cs
  {
    if |cs| == 0 then 0
    else (match cs[0] case File(_) => 1 case Dir(_, sub) => FileCount(sub)) + FileCount(cs[1..])
  }

  /** Depth is discarded but nothing is lost: the walk lists one name per
      file, duplicates included. */
  lemma {:induction false} WalkFilesCount(cs: seq<Node>)
    ensures |WalkFiles(cs)| == FileCount(cs)
    decreases cs
  {
    if |cs| > 0 {
      WalkFilesCount(cs[1..]);
      if cs[0].Dir? {
        WalkFilesCount(cs[0].children);
      }
      assert FileNames(cs) == (if cs[0].File? then [cs[0].name] else []) + FileNames(cs[1..]);
      assert SubWalkFiles(cs) == (if cs[0].Dir? then WalkFiles(cs[0].children) else []) + SubWalkFiles(cs[1..]);
    }
  }

  /** Reference: the number of directories anywhere below. */
  function DirCount(cs: seq<Node>): nat
    decreases cs
  {
    if |cs| == 0 then 0
    else (match cs[0] case File(_) => 0 case Dir(_, sub) => 1 + DirCount(sub)) + DirCount(cs[1..])
  }

  /** The directory list has one name per directory below, duplicates
      included: the length `find_max_occupancy_node` compares is the
      number of directories on the device. */
  lemma {:induction false} WalkDirsCount(cs: seq<Node>)
    ensures |WalkDirs(cs)| == DirCount(cs)
    decreases cs
  {
    if |cs| > 0 {
      WalkDirsCount(cs[1..]);
      if cs[0].Dir? {
        WalkDirsCount(cs[0].children);
      }
      assert DirNames(cs) == (if cs[0].Dir? then [cs[0].name] else []) + DirNames(cs[1..]);
      assert SubWalkDirs(cs) == (if cs[0].Dir? then WalkDirs(cs[0].children) else []) + SubWalkDirs(cs[1..]);
    }
  }

  /** `files` and `dirs` are what a walk of `root` gathers: exactly the
      names of the files and of the directories below it, one entry per
      file and one per directory. */
  ghost predicate Gathered(files: seq<string>, dirs: seq<string>, root: Node) {
    && (forall n :: n in files <==> HasFileBelow(Contents(root), n))
    && (forall n :: n in dirs <==> HasDirBelow(Contents(root), n))
    && |files| == FileCount(Contents(root))
    && |dirs| == DirCount(Contents(root))
  }

  lemma WalkGathers(root: Node)
    ensures Gathered(WalkFiles(Contents(root)), WalkDirs(Contents(root)), root)
  {
    var cs := Contents(root);
    forall n
      ensures n in WalkFiles(cs) <==> HasFileBelow(cs, n)
      ensures n in WalkDirs(cs) <==> HasDirBelow(cs, n)
    {
      WalkFilesIff(cs, n);
      WalkDirsIff(cs, n);
    }
    WalkFilesCount(cs);
    WalkDirsCount(cs);
  }

  /** The lists the walk of `root` produces, in walk order. */
  predicate Walked(files: seq<string>, dirs: seq<string>, root: Node) {
    files == WalkFiles(Contents(root)) && dirs == WalkDirs(Contents(root))
  }

  /** `collect_info`: for each root in turn, the file names and the
      directory names found anywhere below it, in walk order. */
  method CollectInfo(roots: seq<Node>) returns (files: seq<seq<string>>, dirs: seq<seq<string>>)
    ensures |files| == |roots| && |dirs| == |roots|
    ensures forall i :: 0 <= i < |roots| ==> Walked(files[i], dirs[i], roots[i])
    ensures forall i :: 0 <= i < |roots| ==> Gathered(files[i], dirs[i], roots[i])
  {
    files := [];
    dirs := [];
    var i := 0;
    while i < |roots|
      invariant 0 <= i <= |roots| && |files| == i && |dirs| == i
      invariant forall j :: 0 <= j < i ==> Walked(files[j], dirs[j], roots[j])
    {
      var cs := Contents(roots[i]);
      files := files + [WalkFiles(cs)];
      dirs := dirs + [WalkDirs(cs)];
      i := i + 1;
    }
    WalksGather(files, dirs, roots);
  }

  lemma WalksGather(files: seq<seq<string>>, dirs: seq<seq<string>>, roots: seq<Node>)
    requires |files| == |roots| && |dirs| == |roots|
    requires forall i :: 0 <= i < |roots| ==> Walked(files[i], dirs[i], roots[i])
    ensures forall i :: 0 <= i < |roots| ==> Gathered(files[i], dirs[i], roots[i])
  {
    forall j | 0 <= j < |roots|
      ensures Gathered(files[j], dirs[j], roots[j])
    {
      WalkGathers(roots[j]);
    }
  }

  datatype WipeError = NotADirectory(name: string)  // rmtree of a plain file raises OSError

  /** `for directory in os.listdir(node): shutil.rmtree(join(node,
      directory))`: each top-level directory is removed with everything
      below it; a plain file at the top makes `rmtree` raise, leaving it and
      every later entry in place. `left` is what remains at the top; the
      probe's following assertion, that the top is empty, holds exactly
      when the wipe raised nothing. */
  method Wipe(contents: seq<Node>) returns (left: seq<Node>, err: Option<WipeError>)
    ensures err.None? <==> forall k :: 0 <= k < |contents| ==> contents[k].Dir?
    ensures left == [] <==> err.None?
    ensures err.Some? ==> exists k :: (
      && 0 <= k < |contents|
      && contents[k].File?
      && (forall j :: 0 <= j < k ==> contents[j].Dir?)
      && err.value == NotADirectory(contents[k].name)
      && left == contents[k..])
  {
    var i := 0;
    while i < |contents|
      invariant 0 <= i <= |contents|
      invariant forall j :: 0 <= j < i ==> contents[j].Dir?
    {
      if contents[i].File? {
        return contents[i..], Some(NotADirectory(contents[i].name));
      }
      i := i + 1;
    }
    return [], None;
  }
}
