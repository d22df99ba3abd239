/** The string handling of `changeToWorkingDir` and the way
    `processConfigFile` folds the results of its conversions (Main.cpp).
    The drive and directory changes themselves, the XML loading and the
    converters are outside this model: their outcomes are inputs here. */
module MainProgram {
  import opened Wrappers
  import opened StringUtil

  const Separators: set<char> := {'\\', '/'}

  /** What `changeToWorkingDir` extracts from a path: the drive number it
      changes to, the directory it changes to, and the file name it
      returns. */
  datatype PathSplit = PathSplit(drive: Option<int>, dir: Option<string>, name: string)

  /** `rest` is what follows the first ':' of `path`. */
  predicate FollowsFirstColon(path: string, rest: string) {
    exists k :: 0 <= k < |path| && path[k] == ':' && ':' !in path[..k] && rest == path[k + 1..]
  }

  /** The path with everything up to and including the first ':' removed. */
  function AfterDrive(path: string): (r: string)
    ensures ':' !in path ==> r == path
    ensures ':' in path ==> FollowsFirstColon(path, r)
  {
    match FindFirst(path, ':')
    case None => path
    case Some(p) => path[p + 1..]
  }

  /** `changeToWorkingDir`: with a ':' the drive number is the upper-cased
      first character's distance from 'A', plus one; the directory is what
      comes before the last separator, and the name what comes after it. */
  function ChangeToWorkingDir(path: string): (r: PathSplit)
    ensures ':' in path <==> r.drive.Some?
    ensures ':' in path ==> r.drive.value == ToUpper(path[0]) as int - 'A' as int + 1
    ensures forall i :: 0 <= i < |r.name| ==> r.name[i] !in Separators
    ensures r.dir.None? ==> r.name == AfterDrive(path)
    ensures r.dir.Some? ==>
      exists sep :: sep in Separators && AfterDrive(path) == r.dir.value + [sep] + r.name
  {
    var drive := if ':' in path then Some(ToUpper(path[0]) as int - 'A' as int + 1) else None;
    var rest := AfterDrive(path);
    match FindLastOf(rest, Separators)
    case None => PathSplit(drive, None, rest)
    case Some(p) =>
      assert rest == rest[..p] + [rest[p]] + rest[p + 1..];
      PathSplit(drive, Some(rest[..p]), rest[p + 1..])
  }

  /** A bare file name goes through unchanged. */
  lemma ChangeToWorkingDirBareName(path: string)
    requires ':' !in path
    requires forall i :: 0 <= i < |path| ==> path[i] !in Separators
    ensures ChangeToWorkingDir(path) == PathSplit(None, None, path)
  {
  }

  /** Splitting a drive, a directory and a name that were joined together
      recovers the directory and the name. */
  lemma ChangeToWorkingDirJoin(letter: char, dir: string, name: string)
    requires letter != ':' && ':' !in dir && ':' !in name
    requires forall i :: 0 <= i < |name| ==> name[i] !in Separators
    ensures var r := ChangeToWorkingDir([letter, ':'] + dir + ['/'] + name);
      r == PathSplit(Some(ToUpper(letter) as int - 'A' as int + 1), Some(dir), name)
  {
    var rest := dir + ['/'] + name;
    assert [letter, ':'] + dir + ['/'] + name == [letter, ':'] + rest;
    LastSeparatorJoin(dir, name);
    SplitAfterDrive(letter, rest, |dir|);
    JoinParts(dir, name);
  }

  lemma JoinParts(dir: string, name: string)
    ensures (dir + ['/'] + name)[..|dir|] == dir
    ensures (dir + ['/'] + name)[|dir| + 1..] == name
  {
    var rest := dir + ['/'] + name;
    assert rest[..|dir|] == dir;
    assert rest[|dir| + 1..] == name;
  }

  /** A drive letter, a ':' and a remainder whose last separator is at `p`
      split into the drive, the remainder before `p` and the remainder
      after it. */
  lemma SplitAfterDrive(letter: char, rest: string, p: nat)
    requires letter != ':' && FindLastOf(rest, Separators) == Some(p)
    ensures p < |rest|
    ensures ChangeToWorkingDir([letter, ':'] + rest) ==
      PathSplit(Some(ToUpper(letter) as int - 'A' as int + 1), Some(rest[..p]), rest[p + 1..])
  {
    var path := [letter, ':'] + rest;
    assert path[0] == letter && path[1] == ':';
    AfterDriveJoin(letter, rest);
    SplitAtSeparator(path, rest, p);
    DriveOfPath(path);
  }

  /** With a ':' the drive comes from the first character. */
  lemma DriveOfPath(path: string)
    requires ':' in path
    ensures |path| > 0
    ensures ChangeToWorkingDir(path).drive == Some(ToUpper(path[0]) as int - 'A' as int + 1)
  {
  }

  /** Where the last separator after the drive lies decides the directory
      and the name. */
  lemma SplitAtSeparator(path: string, rest: string, p: nat)
    requires AfterDrive(path) == rest && FindLastOf(rest, Separators) == Some(p)
    ensures p < |rest|
    ensures ChangeToWorkingDir(path).dir == Some(rest[..p])
    ensures ChangeToWorkingDir(path).name == rest[p + 1..]
  {
  }

  lemma AfterDriveJoin(letter: char, rest: string)
    requires letter != ':'
    ensures AfterDrive([letter, ':'] + rest) == rest
  {
    var path := [letter, ':'] + rest;
    assert path[1..] == [':'] + rest;
    assert FindFirst(path[1..], ':') == Some(0);
    assert path[2..] == rest;
  }

  lemma {:induction false} LastSeparatorJoin(dir: string, name: string)
    requires forall i :: 0 <= i < |name| ==> name[i] !in Separators
    ensures FindLastOf(dir + ['/'] + name, Separators) == Some(|dir|)
  {
    var rest := dir + ['/'] + name;
    if name == [] {
      assert rest == dir + ['/'];
    } else {
      var shorter := name[..|name| - 1];
      LastSeparatorJoin(dir, shorter);
      assert rest[..|rest| - 1] == dir + ['/'] + shorter;
      assert rest[|rest| - 1] == name[|name| - 1];
    }
  }

  /** A child element of the configuration root, with what converting it
      would return; the converters themselves are outside this model. */
  datatype ConfigNode = ConfigNode(name: string, converted: bool)

  predicate IsMeshNode(n: ConfigNode) {
    n.name == "md2mesh" || n.name == "md3mesh" || n.name == "md5mesh"
  }

  /** Entry `i` is the last mesh entry of `nodes`. */
  predicate IsLastMesh(nodes: seq<ConfigNode>, i: int) {
    0 <= i < |nodes| && IsMeshNode(nodes[i]) &&
    forall j :: i < j < |nodes| ==> !IsMeshNode(nodes[j])
  }

  /** The result of the last mesh entry, or false when there is none. */
  function LastMeshResult(nodes: seq<ConfigNode>): (r: bool)
    ensures r <==> exists i :: IsLastMesh(nodes, i) && nodes[i].converted
  {
    if nodes == [] then false
    else if IsMeshNode(nodes[|nodes| - 1]) then
      assert IsLastMesh(nodes, |nodes| - 1);
      nodes[|nodes| - 1].converted
    else
      var prefix := nodes[..|nodes| - 1];
      assert forall i :: IsLastMesh(nodes, i) <==> IsLastMesh(prefix, i);
      LastMeshResult(prefix)
  }

  /** `processConfigFile` after the file is loaded (or not): each mesh entry
      overwrites the running result, so only the last one counts. */
  method ProcessConfig(loaded: bool, root: Option<string>, nodes: seq<ConfigNode>)
    returns (success: bool)
    ensures success <==> loaded && root == Some("conversion") && LastMeshResult(nodes)
  {
    if !loaded {
      return false;
    }
    if root.None? || root.value != "conversion" {
      return false;
    }
    success := false;
    var i := 0;
    while i < |nodes|
      invariant 0 <= i <= |nodes|
      invariant success == LastMeshResult(nodes[..i])
    {
      var node := nodes[i];
      if node.name == "md2mesh" {
        success := node.converted;
      } else if node.name == "md3mesh" {
        success := node.converted;
      } else if node.name == "md5mesh" {
        success := node.converted;
      }
      assert nodes[..i + 1][..i] == nodes[..i];
      i := i + 1;
    }
    assert nodes[..i] == nodes;
  }

  /** An earlier failure is masked by a later success, and vice versa:
      entries after the last mesh entry do not matter. */
  lemma {:induction false} LastMeshMasksEarlier(nodes: seq<ConfigNode>, last: ConfigNode, rest: seq<ConfigNode>)
    requires IsMeshNode(last)
    requires forall j :: 0 <= j < |rest| ==> !IsMeshNode(rest[j])
    ensures LastMeshResult(nodes + [last] + rest) == last.converted
  {
    var all := nodes + [last] + rest;
    if rest == [] {
      assert all == nodes + [last];
    } else {
      var shorter := rest[..|rest| - 1];
      LastMeshMasksEarlier(nodes, last, shorter);
      assert all[..|all| - 1] == nodes + [last] + shorter;
      assert !IsMeshNode(all[|all| - 1]);
    }
  }
}
