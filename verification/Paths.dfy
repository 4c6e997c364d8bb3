/** Paths as boost::filesystem takes them apart on POSIX systems, and as a snapshot joins the parts again. */
module Paths {
  import opened Bytes
  import opened OrderedMap
  import opened StringTable

  const SLASH: byte := 47
  const DOT: byte := 46

  /** Where the last slash before `end` is; -1 if there is none. */
  function LastSlash(path: Str, end: nat): (k: int)
    requires end <= |path|
    ensures -1 <= k < end && (k >= 0 ==> path[k] == SLASH)
    ensures forall j :: k < j < end ==> path[j] != SLASH
  {
    if end == 0 then -1 else if path[end - 1] == SLASH then end - 1 else LastSlash(path, end - 1)
  }

  /** Where the first slash from `i` on is; the length of the path if there is none. */
  function FirstSlash(path: Str, i: nat): (k: nat)
    requires i <= |path|
    ensures i <= k <= |path| && (k < |path| ==> path[k] == SLASH)
    ensures forall j :: i <= j < k ==> path[j] != SLASH
    decreases |path| - i
  {
    if i == |path| || path[i] == SLASH then i else FirstSlash(path, i + 1)
  }

  /** Going back from `end` over slashes, but not over the one at `root`. */
  function SkipSlashes(path: Str, end: nat, root: int): (e: nat)
    requires end <= |path|
    ensures e <= end && (root < e || root >= end) && forall j :: e <= j < end ==> path[j] == SLASH
    ensures e > 0 ==> e - 1 == root || path[e - 1] != SLASH
  {
    if end > 0 && end - 1 != root && path[end - 1] == SLASH then SkipSlashes(path, end - 1, root) else end
  }

  predicate DoubleSlashed(path: Str) {
    |path| >= 2 && path[0] == SLASH && path[1] == SLASH
  }

  /** filename_pos, for the whole path. */
  function FilenamePos(path: Str): (pos: nat)
    ensures path != [] ==> pos < |path|
  {
    var n := |path|;
    if path == [SLASH, SLASH] then 0
    else if n > 0 && path[n - 1] == SLASH then n - 1
    else
      var k := LastSlash(path, n);
      if k == -1 || (k == 1 && path[0] == SLASH) then 0 else k + 1
  }

  predicate IsRootSeparator(path: Str, pos: nat)
    requires pos < |path|
  {
    var p := SkipSlashes(path, pos, -1);
    p == 0 || (p >= 3 && DoubleSlashed(path) && FirstSlash(path, 2) == p)
  }

  /** root_directory_start; -1 if there is no root directory. */
  function RootDirectoryStart(path: Str, size: nat): int
    requires size <= |path|
  {
    if size == 2 && DoubleSlashed(path) then -1
    else if size > 3 && DoubleSlashed(path) && path[2] != SLASH then
      var pos := FirstSlash(path, 2);
      if pos < size then pos else -1
    else if size > 0 && path[0] == SLASH then 0
    else -1
  }

  /** path::filename: a trailing slash that is not the root stands for a dot. */
  function FileName(path: Str): Str {
    var pos := FilenamePos(path);
    if path == [] then []
    else if pos > 0 && path[pos] == SLASH && !IsRootSeparator(path, pos) then [DOT]
    else path[pos..]
  }

  /** path::parent_path. */
  function ParentPath(path: Str): Str {
    var end := FilenamePos(path);
    if path == [] then []
    else
      var root := RootDirectoryStart(path, end);
      var e := SkipSlashes(path, end, root);
      if e == 1 && root == 0 && path[end] == SLASH then [] else path[..e]
  }

  /** How a snapshot joins the two parts of a path. */
  function Joined(parent: Str, name: Str): Str {
    parent + [SLASH] + name
  }

  /** The key under which a path is found after its snapshot has been saved and loaded. */
  function LoadedKey(path: Str): Str {
    if SLASH in path then path else [SLASH] + path
  }

  /** Where the slash of the root directory is: behind the host, if the path begins with two slashes and a host. */
  function RootSlash(path: Str): (r: int)
    ensures r < 0 || r >= |path| || path[r] == SLASH
  {
    if DoubleSlashed(path) && |path| > 2 && path[2] != SLASH then FirstSlash(path, 2)
    else if path != [] && path[0] == SLASH then 0
    else -1
  }

  /** No slash at all; or a last one behind the root that neither ends the path nor follows a slash other
      than the root; or a host and just three slashes. */
  predicate Rejoins(path: Str) {
    SLASH in path ==>
      var k, r := LastSlash(path, |path|), RootSlash(path);
      || (r < k < |path| - 1 && (k == r + 1 || path[k - 1] != SLASH))
      || (k == |path| - 1 && 1 < r == |path| - 3 && path[r + 1] == SLASH)
  }

  /** A host alone is all file name, and has no parent. */
  lemma HostAlone(path: Str)
    requires DoubleSlashed(path) && LastSlash(path, |path|) == 1
    ensures FileName(path) == path && ParentPath(path) == []
  {
    hide LastSlash, FirstSlash, SkipSlashes;
    assert FilenamePos(path) == 0;
    assert path[0..] == path && path[..0] == [];
  }

  lemma HostFails(path: Str)
    requires DoubleSlashed(path) && LastSlash(path, |path|) == 1
    ensures Joined(ParentPath(path), FileName(path)) != path && !Rejoins(path)
  {
    hide FileName, ParentPath, Rejoins;
    HostAlone(path);
    RootOfHost(path);
    assert |Joined([], path)| == |path| + 1;
  }

  lemma RootOfHost(path: Str)
    requires DoubleSlashed(path) && LastSlash(path, |path|) == 1
    ensures !Rejoins(path)
  {
    hide LastSlash, FirstSlash;
    if |path| > 2 {
      assert path[2] != SLASH && FirstSlash(path, 2) == |path|;
    }
  }

  lemma NameStarts(path: Str)
    requires path != [] && !(DoubleSlashed(path) && LastSlash(path, |path|) == 1)
    ensures FilenamePos(path) == if path[|path| - 1] == SLASH then |path| - 1 else LastSlash(path, |path|) + 1
  {
    hide LastSlash;
    var k := LastSlash(path, |path|);
    assert k == 1 && path[0] == SLASH ==> DoubleSlashed(path);
  }

  lemma RootStarts(path: Str, size: nat)
    requires 0 < size <= |path| && RootSlash(path) < size && !(size == 2 && DoubleSlashed(path))
    ensures RootDirectoryStart(path, size) == RootSlash(path)
  {
    hide FirstSlash;
  }

  lemma RootFirst(path: Str)
    requires 0 <= LastSlash(path, |path|) && !(DoubleSlashed(path) && LastSlash(path, |path|) == 1)
    ensures RootSlash(path) <= LastSlash(path, |path|)
  {
    hide LastSlash, FirstSlash;
  }

  /** The parts of a path are joined to its loaded key exactly if it rejoins. */
  lemma RejoinsExactly(path: Str)
    ensures Joined(ParentPath(path), FileName(path)) == LoadedKey(path) <==> Rejoins(path)
  {
    hide LastSlash, RootSlash, ParentPath, FileName, Joined;
    var k := LastSlash(path, |path|);
    if SLASH !in path {
      PlainName(path);
    } else if k == |path| - 1 {
      TrailingSlash(path);
    } else {
      InnerSlash(path);
    }
  }

  lemma PlainName(path: Str)
    requires SLASH !in path
    ensures Joined(ParentPath(path), FileName(path)) == [SLASH] + path
  {
    hide LastSlash;
    if path != [] {
      assert path[0] != SLASH && LastSlash(path, |path|) == -1;
      NameStarts(path);
      assert FilenamePos(path) == 0 && path[0..] == path && path[..0] == [];
    }
  }

  lemma TrailingSlash(path: Str)
    requires path != [] && path[|path| - 1] == SLASH
    ensures Joined(ParentPath(path), FileName(path)) == path <==> Rejoins(path)
  {
    hide LastSlash, FilenamePos, IsRootSeparator, ParentPath, SkipSlashes, FirstSlash, RootSlash;
    var n := |path|;
    if path == [SLASH, SLASH] {
      assert LastSlash(path, 2) == 1;
      HostFails(path);
    } else {
      NameStarts(path);
      var joined := Joined(ParentPath(path), FileName(path));
      if n > 1 && !IsRootSeparator(path, n - 1) {
        assert joined[|joined| - 1] == DOT;
        DotRoot(path);
      } else {
        SlashRoot(path);
      }
    }
  }

  /** A host and three slashes end in the slash of their root directory. */
  lemma RootIsSeparator(path: Str)
    requires path != [] && path[|path| - 1] == SLASH && 1 < RootSlash(path) == |path| - 3
    requires path[RootSlash(path) + 1] == SLASH
    ensures IsRootSeparator(path, |path| - 1)
  {
    hide SkipSlashes, FirstSlash;
    var r := RootSlash(path);
    assert path[r - 1] != SLASH && FirstSlash(path, 2) == r;
    assert SkipSlashes(path, |path| - 1, -1) == r;
  }

  lemma DotRoot(path: Str)
    requires |path| > 1 && path[|path| - 1] == SLASH && !IsRootSeparator(path, |path| - 1)
    ensures !Rejoins(path)
  {
    hide LastSlash, RootSlash, IsRootSeparator;
    if Rejoins(path) {
      assert path[|path| - 1] == SLASH && LastSlash(path, |path|) == |path| - 1;
      RootIsSeparator(path);
    }
  }

  lemma SlashRoot(path: Str)
    requires path != [] && path != [SLASH, SLASH] && path[|path| - 1] == SLASH
    requires |path| == 1 || IsRootSeparator(path, |path| - 1)
    ensures Joined(ParentPath(path), FileName(path)) == path <==> Rejoins(path)
  {
    hide LastSlash, SkipSlashes, FirstSlash, FilenamePos, RootDirectoryStart;
    var n := |path|;
    assert FilenamePos(path) == n - 1 by { LastIsStart(path); }
    assert FileName(path) == [SLASH];
    if n > 1 {
      var p := SkipSlashes(path, n - 1, -1);
      if p == 0 {
        AllSlashes(path);
      } else {
        HostSlashes(path, p);
      }
    }
  }

  lemma LastIsStart(path: Str)
    requires path != [] && path != [SLASH, SLASH] && path[|path| - 1] == SLASH
    ensures FilenamePos(path) == |path| - 1
  {
    hide LastSlash;
  }

  lemma AllSlashes(path: Str)
    requires |path| > 2 && forall j :: 0 <= j < |path| ==> path[j] == SLASH
    requires FilenamePos(path) == |path| - 1
    ensures ParentPath(path) == [] && !Rejoins(path)
  {
    hide LastSlash, SkipSlashes, FirstSlash, FilenamePos;
    assert path[2] == SLASH;
  }

  lemma HostSlashes(path: Str, r: nat)
    requires |path| > 3 && DoubleSlashed(path) && 3 <= r < |path| && FirstSlash(path, 2) == r
    requires forall j :: r <= j < |path| ==> path[j] == SLASH
    requires FilenamePos(path) == |path| - 1
    ensures |ParentPath(path)| + 2 == |path| <==> Rejoins(path)
    ensures Rejoins(path) ==> ParentPath(path) + [SLASH, SLASH] == path
  {
    hide LastSlash, SkipSlashes, FirstSlash, FilenamePos;
    var n := |path|;
    assert path[n - 1] == SLASH && path[2] != SLASH;
    assert LastSlash(path, n) == n - 1;
    assert RootSlash(path) == r;
    var root := RootDirectoryStart(path, n - 1);
    assert root == if r < n - 1 then r else if n == 4 then 0 else -1;
    var e := SkipSlashes(path, n - 1, root);
    assert e == if r < n - 1 then r + 1 else r by { assert path[r - 1] != SLASH; }
    assert ParentPath(path) == path[..e];
  }

  lemma InnerSlash(path: Str)
    requires 0 <= LastSlash(path, |path|) < |path| - 1
    ensures Joined(ParentPath(path), FileName(path)) == path <==> Rejoins(path)
  {
    hide LastSlash, RootSlash, ParentPath, FileName, SkipSlashes, Joined, DoubleSlashed;
    var k, r := LastSlash(path, |path|), RootSlash(path);
    if DoubleSlashed(path) && k == 1 {
      HostFails(path);
    } else {
      RootFirst(path);
      InnerParts(path);
      var e := SkipSlashes(path, k + 1, r);
      BackOne(path, k, e);
      JoinedAround(path, k, e);
    }
  }

  lemma InnerParts(path: Str)
    requires 0 <= LastSlash(path, |path|) < |path| - 1 && !(DoubleSlashed(path) && LastSlash(path, |path|) == 1)
    requires RootSlash(path) <= LastSlash(path, |path|)
    ensures var k := LastSlash(path, |path|);
            && FileName(path) == path[k + 1..]
            && ParentPath(path) == path[..SkipSlashes(path, k + 1, RootSlash(path))]
  {
    hide LastSlash, RootSlash, SkipSlashes, FilenamePos, IsRootSeparator, RootDirectoryStart;
    var k := LastSlash(path, |path|);
    NameStarts(path);
    RootStarts(path, k + 1);
    assert path[k + 1] != SLASH;
  }

  lemma JoinedAround(path: Str, k: nat, e: nat)
    requires k < |path| && path[k] == SLASH && e <= |path|
    ensures Joined(path[..e], path[k + 1..]) == path <==> e == k
  {
    assert path == path[..k] + [SLASH] + path[k + 1..];
    assert |Joined(path[..e], path[k + 1..])| == e + |path| - k;
  }

  lemma BackOne(path: Str, k: nat, e: nat)
    requires k < |path| && path[k] == SLASH && RootSlash(path) <= k
    requires e == SkipSlashes(path, k + 1, RootSlash(path))
    ensures e == k <==> RootSlash(path) < k && (k == RootSlash(path) + 1 || path[k - 1] != SLASH)
  {
    hide SkipSlashes, FirstSlash;
  }

  lemma PathParts(path: Str)
    requires Rejoins(path)
    ensures Joined(ParentPath(path), FileName(path)) == LoadedKey(path)
  {
    hide ParentPath, FileName, Joined, LoadedKey;
    RejoinsExactly(path);
  }

  /** The one slash of `/f` is its root: it comes back as `//f`. */
  lemma RootDoesNotRejoin()
    ensures Joined(ParentPath([47, 102]), FileName([47, 102])) == [47, 47, 102]
  {
    var path := [SLASH, 102];
    assert LastSlash(path, 2) == 0;
    assert SkipSlashes(path, 1, 0) == 1;
  }

  lemma NotRoot(path: Str, pos: nat)
    requires !DoubleSlashed(path) && 0 < pos < |path| && path[pos] == SLASH
    ensures !IsRootSeparator(path, pos)
  {
    hide SkipSlashes, FirstSlash;
    assert path[0] != SLASH || path[1] != SLASH;
  }

  /** The name of a path with a slash at its end is a dot. */
  lemma TrailingSlashIsDot(path: Str)
    requires !DoubleSlashed(path) && |path| > 1 && path[|path| - 1] == 47
    ensures FileName(path) == [46]
  {
    hide LastSlash, FilenamePos, IsRootSeparator;
    NameStarts(path);
    NotRoot(path, |path| - 1);
  }

  lemma PartsNoNul(path: Str)
    requires NoNul(path)
    ensures NoNul(FileName(path)) && NoNul(ParentPath(path))
  {
    hide FilenamePos, RootDirectoryStart, IsRootSeparator;
  }

  lemma PartsShort(path: Str)
    ensures |FileName(path)| <= |path| && |ParentPath(path)| <= |path|
  {
    hide FilenamePos, RootDirectoryStart, IsRootSeparator;
  }
}
