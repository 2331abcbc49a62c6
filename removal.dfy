/** What `deleteDirectory` removes: the subtree below the directory, and every file row in it.
    The listing of the directory is walked node by node; the rows gone after the first `i`
    nodes are the subtrees of the directory nodes among them and the file nodes among them. */
module Removal {
  import opened Wrappers
  import opened Schema
  import opened Tree
  import opened Blobs
  import opened Nodes
  import opened Listed
  import Order
  import Paths

  /** Before the first node nothing is gone. */
  lemma RemovedNone(dirs: map<int, Dir>, files: map<int, FileRow>, rank: map<int, nat>, nodes: seq<FSNode>)
    requires Ranked(dirs, rank)
    ensures dirs - SubtreesBefore(dirs, rank, nodes, 0) == dirs
    ensures files - FilesUnder(files, SubtreesBefore(dirs, rank, nodes, 0)) - FilesBefore(nodes, 0) == files
  {
    assert SubtreesBefore(dirs, rank, nodes, 0) == {};
    assert FilesBefore(nodes, 0) == {};
    assert FilesUnder(files, {}) == {};
  }

  /** `path + "/" + name` resolves to the child `c` of the directory `path` names, also once
      a downward-closed set of other rows is gone. */
  lemma ChildResolves(dirs: map<int, Dir>, r: set<int>, owner: int, wd: string, path: string, d: int, c: int, name: string)
    requires UniqueDirKeys(dirs) && DownwardClosed(dirs, r) && d !in r && c !in r
    requires ResolveDir(dirs, owner, wd, path) == Success(Some(d))
    requires c in dirs && Matches(dirs[c], owner, Some(d), name) && Paths.IsAddressable(name)
    ensures ResolveDir(dirs - r, owner, wd, path + "/" + name) == Success(Some(c))
  {
    WalkAfterRemoval(dirs, r, owner, None, Paths.Segments(wd, path));
    ResolveChild(dirs - r, owner, wd, path, d, c, name);
  }

  /** Before the recursive delete of a listed directory: its path resolves to it, its subtree
      is as it was, and that subtree is smaller than the one being deleted. */
  lemma DirChildReady(dirs0: map<int, Dir>, files0: map<int, FileRow>, rank: map<int, nat>, owner: int,
                      wd: string, path: string, d: int, nodes: seq<FSNode>, nd: int, i: nat, dirs: map<int, Dir>)
    requires Ranked(dirs0, rank) && UniqueDirKeys(dirs0) && DirNamesAddressable(dirs0) && OwnersAgree(dirs0, files0)
    requires ResolveDir(dirs0, owner, wd, path) == Success(Some(d)) && d in dirs0 && dirs0[d].ownerId == owner
    requires ListsChildren(dirs0, files0, d, nodes, nd)
    requires i < |nodes| && nodes[i].nodeType == DirectoryNode
    requires dirs == dirs0 - SubtreesBefore(dirs0, rank, nodes, i)
    ensures nodes[i].id in dirs0 && Ranked(dirs, rank)
    ensures ResolveDir(dirs, owner, wd, path + "/" + nodes[i].name) == Success(Some(nodes[i].id))
    ensures Sub(dirs, rank, nodes[i].id) == Sub(dirs0, rank, nodes[i].id)
    ensures |Sub(dirs0, rank, nodes[i].id)| < |Sub(dirs0, rank, d)|
  {
    var c := nodes[i].id;
    var r := SubtreesBefore(dirs0, rank, nodes, i);
    BeforeClosed(dirs0, rank, nodes, i);
    BeforeMissesRoot(dirs0, files0, rank, d, nodes, nd, i);
    BeforeMissesNext(dirs0, files0, rank, d, nodes, nd, i);
    RemovalKeepsSubtree(dirs0, rank, r, c);
    SubtreeShrinks(dirs0, rank, c, d);
    ChildResolves(dirs0, r, owner, wd, path, d, c, nodes[i].name);
  }

  /** Before the delete of a listed file: its path looks up its row. */
  lemma FileChildReady(dirs0: map<int, Dir>, files0: map<int, FileRow>, rank: map<int, nat>, owner: int,
                       wd: string, path: string, d: int, nodes: seq<FSNode>, nd: int, i: nat,
                       dirs: map<int, Dir>, files: map<int, FileRow>)
    requires Ranked(dirs0, rank) && UniqueDirKeys(dirs0) && UniqueFileKeys(files0)
    requires FileNamesValid(files0) && OwnersAgree(dirs0, files0)
    requires ResolveDir(dirs0, owner, wd, path) == Success(Some(d)) && d in dirs0 && dirs0[d].ownerId == owner
    requires ListsChildren(dirs0, files0, d, nodes, nd)
    requires i < |nodes| && nodes[i].nodeType == FileNode
    requires dirs == dirs0 - SubtreesBefore(dirs0, rank, nodes, i)
    requires files == files0 - FilesUnder(files0, SubtreesBefore(dirs0, rank, nodes, i)) - FilesBefore(nodes, i)
    ensures LookupFile(dirs, files, owner, wd, path + "/" + nodes[i].name) == Success(Some(nodes[i].id))
  {
    var f := nodes[i].id;
    var name := nodes[i].name;
    var r := SubtreesBefore(dirs0, rank, nodes, i);
    BeforeClosed(dirs0, rank, nodes, i);
    BeforeMissesRoot(dirs0, files0, rank, d, nodes, nd, i);
    WalkAfterRemoval(dirs0, r, owner, None, Paths.Segments(wd, path));
    assert ResolveDir(dirs, owner, wd, path) == Success(Some(d));
    var parent := if path == "" then "/" else path;
    Paths.SplitPathOfChild(path, name);
    Paths.SlashIsWorkingDirectory(wd);
    assert ResolveDir(dirs, owner, wd, parent) == Success(Some(d));
    LookupOfSplit(dirs, files, owner, wd, path + "/" + name, parent, name);
    forall j | 0 <= j < i && nodes[j].nodeType == FileNode ensures nodes[j].id != f { }
    assert f !in FilesBefore(nodes, i);
    FileInIsTheMatch(files, owner, Some(d), name, f);
  }

  /** After the recursive delete of a listed directory: the rows gone are those of the first
      `i + 1` nodes, and the store is released once from the start. */
  lemma DirChildDone(dirs0: map<int, Dir>, files0: map<int, FileRow>, blobs0: map<string, seq<byte>>,
                     rank: map<int, nat>, nodes: seq<FSNode>, i: nat,
                     dirs: map<int, Dir>, files: map<int, FileRow>, blobs: map<string, seq<byte>>,
                     s: set<int>, dirs2: map<int, Dir>, files2: map<int, FileRow>, blobs2: map<string, seq<byte>>)
    requires Ranked(dirs0, rank) && i < |nodes| && nodes[i].nodeType == DirectoryNode
    requires dirs == dirs0 - SubtreesBefore(dirs0, rank, nodes, i)
    requires files == files0 - FilesUnder(files0, SubtreesBefore(dirs0, rank, nodes, i)) - FilesBefore(nodes, i)
    requires blobs == Release(blobs0, files0, files)
    requires s == Sub(dirs0, rank, nodes[i].id)
    requires dirs2 == dirs - s && files2 == files - FilesUnder(files, s) && blobs2 == Release(blobs, files, files2)
    ensures dirs2 == dirs0 - SubtreesBefore(dirs0, rank, nodes, i + 1)
    ensures files2 == files0 - FilesUnder(files0, SubtreesBefore(dirs0, rank, nodes, i + 1)) - FilesBefore(nodes, i + 1)
    ensures blobs2 == Release(blobs0, files0, files2)
  {
    BeforeStep(dirs0, rank, nodes, i);
    var r := SubtreesBefore(dirs0, rank, nodes, i);
    var r2 := SubtreesBefore(dirs0, rank, nodes, i + 1);
    assert r2 == r + s;
    var rhs := files0 - FilesUnder(files0, r2) - FilesBefore(nodes, i + 1);
    assert forall f :: f in files2 <==> f in rhs;
    assert Refs(files) <= Refs(files0) && Refs(files2) <= Refs(files);
    ReleaseComposes(blobs0, files0, files, files2);
  }

  /** After the delete of a listed file. */
  lemma FileChildDone(dirs0: map<int, Dir>, files0: map<int, FileRow>, blobs0: map<string, seq<byte>>,
                      rank: map<int, nat>, nodes: seq<FSNode>, i: nat,
                      dirs: map<int, Dir>, files: map<int, FileRow>, blobs: map<string, seq<byte>>,
                      files2: map<int, FileRow>, blobs2: map<string, seq<byte>>)
    requires Ranked(dirs0, rank) && i < |nodes| && nodes[i].nodeType == FileNode
    requires dirs == dirs0 - SubtreesBefore(dirs0, rank, nodes, i)
    requires files == files0 - FilesUnder(files0, SubtreesBefore(dirs0, rank, nodes, i)) - FilesBefore(nodes, i)
    requires blobs == Release(blobs0, files0, files)
    requires files2 == files - {nodes[i].id} && blobs2 == Release(blobs, files, files2)
    ensures dirs == dirs0 - SubtreesBefore(dirs0, rank, nodes, i + 1)
    ensures files2 == files0 - FilesUnder(files0, SubtreesBefore(dirs0, rank, nodes, i + 1)) - FilesBefore(nodes, i + 1)
    ensures blobs2 == Release(blobs0, files0, files2)
  {
    BeforeStep(dirs0, rank, nodes, i);
    var r := SubtreesBefore(dirs0, rank, nodes, i);
    var rhs := files0 - FilesUnder(files0, r) - FilesBefore(nodes, i + 1);
    assert forall f :: f in files2 <==> f in rhs;
    assert Refs(files) <= Refs(files0) && Refs(files2) <= Refs(files);
    ReleaseComposes(blobs0, files0, files, files2);
  }

  /** Once every listed node is deleted, what is gone is the subtree below `d` and the files
      in it; removing `d` itself completes the subtree. */
  lemma DeleteCovers(dirs0: map<int, Dir>, files0: map<int, FileRow>, rank: map<int, nat>, d: int,
                     nodes: seq<FSNode>, nd: int)
    requires Ranked(dirs0, rank) && d in dirs0 && ListsChildren(dirs0, files0, d, nodes, nd)
    ensures dirs0 - SubtreesBefore(dirs0, rank, nodes, |nodes|) - {d} == dirs0 - Sub(dirs0, rank, d)
    ensures files0 - FilesUnder(files0, SubtreesBefore(dirs0, rank, nodes, |nodes|)) - FilesBefore(nodes, |nodes|) ==
      files0 - FilesUnder(files0, Sub(dirs0, rank, d))
  {
    var n := |nodes|;
    ListingCovers(dirs0, files0, rank, d, nodes, nd);
    var r := SubtreesBefore(dirs0, rank, nodes, n);
    var s := Sub(dirs0, rank, d);
    var lhs := files0 - FilesUnder(files0, r) - FilesBefore(nodes, n);
    var rhs := files0 - FilesUnder(files0, s);
    assert forall f :: f in lhs <==> f in rhs;
  }

  /** Removing a downward-closed set of directories with every file row in them keeps the
      table invariants and the ranking. */
  lemma RemoveTreeConsistent(dirs: map<int, Dir>, files: map<int, FileRow>, nextDirId: int, nextFileId: int,
                             rank: map<int, nat>, r: set<int>)
    requires Consistent(dirs, files, nextDirId, nextFileId) && Ranked(dirs, rank) && DownwardClosed(dirs, r)
    ensures Consistent(dirs - r, files - FilesUnder(files, r), nextDirId, nextFileId)
    ensures Ranked(dirs - r, rank)
  {
  }

  /** After a delete of the subtree of `d`: the path no longer resolves, since the index
      left `d` the only row with its name below its parent. */
  lemma DeletedGone(dirs: map<int, Dir>, rank: map<int, nat>, owner: int, wd: string, path: string, d: int)
    requires Ranked(dirs, rank) && UniqueDirKeys(dirs)
    requires ResolveDir(dirs, owner, wd, path) == Success(Some(d))
    ensures ResolveDir(dirs - Sub(dirs, rank, d), owner, wd, path) == Failure(NotFound)
  {
    var s := Sub(dirs, rank, d);
    var segs := Paths.Segments(wd, path);
    assert |segs| != 0;
    WalkTarget(dirs, owner, None, segs);
    var init := segs[..|segs| - 1];
    var name := segs[|segs| - 1];
    assert segs == init + [name];
    var p := dirs[d].parentId;
    SubtreeIsClosed(dirs, rank, d);
    if p.Some? {
      assert p.value !in s by {
        if p.value in s {
          SubtreeRoot(dirs, rank, p.value, d);
        }
      }
    }
    WalkAfterRemoval(dirs, s, owner, None, init);
    WalkSnoc(dirs - s, owner, None, init, name);
    forall i | i in dirs - s ensures !Matches((dirs - s)[i], owner, p, name) {
      assert DirKey(dirs[i]) != DirKey(dirs[d]);
    }
  }
}
