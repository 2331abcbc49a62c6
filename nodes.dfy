/** The `FSNode` records the provider hands out, and the listing `listDirectory` builds from
    them: child directories by name, then child files by name. */
module Nodes {
  import opened Wrappers
  import opened Schema
  import opened Order
  import opened Tree
  import Paths

  datatype NodeType = FileNode | DirectoryNode

  datatype FSNode = FSNode(
    id: int,
    nodeType: NodeType,
    name: string,
    path: string,
    size: Option<int>,
    mimeType: Option<string>,
    createDate: int,
    updateDate: int,
    ownerId: int)

  /** `transformFile`: the row's fields, the canonical form of `relativePath`, and no empty
      media type (`mimeType || undefined`). */
  function TransformFile(wd: string, id: int, f: FileRow, relativePath: string): (n: FSNode)
    ensures n.nodeType == FileNode && n.id == id && n.name == f.name && n.ownerId == f.ownerId
    ensures n.createDate == f.createdAt && n.updateDate == f.updatedAt && n.size == f.size
    ensures n.mimeType.Some? ==> n.mimeType.value != "" && n.mimeType == f.mimeType
    ensures f.mimeType.Some? && f.mimeType.value != "" ==> n.mimeType == f.mimeType
    ensures Paths.Pieces(n.path) == Paths.Segments(wd, relativePath)
    ensures |n.path| >= 1 && n.path[0] == '/' && n.path[|n.path| - 1] == '/'
  {
    Paths.AbsolutePathSegments(wd, relativePath);
    FSNode(id, FileNode, f.name, Paths.GetAbsolutePath(wd, relativePath), f.size,
           if f.mimeType == Some("") then None else f.mimeType,
           f.createdAt, f.updatedAt, f.ownerId)
  }

  /** `transformDirectory`: a directory node never carries a size or a media type. */
  function TransformDirectory(wd: string, id: int, d: Dir, relativePath: string): (n: FSNode)
    ensures n.nodeType == DirectoryNode && n.id == id && n.name == d.name && n.ownerId == d.ownerId
    ensures n.createDate == d.createdAt && n.updateDate == d.updatedAt
    ensures n.size.None? && n.mimeType.None?
    ensures Paths.Pieces(n.path) == Paths.Segments(wd, relativePath)
    ensures |n.path| >= 1 && n.path[0] == '/' && n.path[|n.path| - 1] == '/'
  {
    Paths.AbsolutePathSegments(wd, relativePath);
    FSNode(id, DirectoryNode, d.name, Paths.GetAbsolutePath(wd, relativePath), None, None,
           d.createdAt, d.updatedAt, d.ownerId)
  }

  function DirNames(dirs: map<int, Dir>): map<int, string>
  {
    map i | i in dirs :: dirs[i].name
  }

  function FileNames(files: map<int, FileRow>): map<int, string>
  {
    map f | f in files :: files[f].name
  }

  /** The unique indexes, with the owner invariant, give siblings distinct names, so the
      listing's order by name is total. */
  lemma ChildNamesDistinct(dirs: map<int, Dir>, files: map<int, FileRow>, owner: int, at: Option<int>)
    requires UniqueDirKeys(dirs) && UniqueFileKeys(files) && OwnersAgree(dirs, files)
    requires ParentsExist(dirs) && DirectoriesExist(files, dirs)
    requires at.Some? ==> at.value in dirs && dirs[at.value].ownerId == owner
    ensures DistinctNames(ChildDirs(dirs, owner, at), DirNames(dirs))
    ensures DistinctNames(ChildFiles(files, owner, at), FileNames(files))
  {
    ChildrenOwned(dirs, files, owner, at);
    var cd := ChildDirs(dirs, owner, at);
    var cf := ChildFiles(files, owner, at);
    forall i, j | i in cd && j in cd && i != j ensures DirNames(dirs)[i] != DirNames(dirs)[j] {
      assert DirKey(dirs[i]) != DirKey(dirs[j]);
      assert dirs[i].ownerId == dirs[j].ownerId && dirs[i].parentId == dirs[j].parentId;
    }
    forall i, j | i in cf && j in cf && i != j ensures FileNames(files)[i] != FileNames(files)[j] {
      assert FileKey(files[i]) != FileKey(files[j]);
      assert files[i].ownerId == files[j].ownerId && files[i].directoryId == files[j].directoryId;
    }
  }

  /** Whether the children below `at` can be listed by name. */
  predicate Listable(dirs: map<int, Dir>, files: map<int, FileRow>, owner: int, at: Option<int>)
  {
    && DistinctNames(ChildDirs(dirs, owner, at), DirNames(dirs))
    && DistinctNames(ChildFiles(files, owner, at), FileNames(files))
  }

  /** The node `listDirectory` makes of each listed directory row. */
  function DirNodes(wd: string, dirs: map<int, Dir>, ids: seq<int>, path: string): (ns: seq<FSNode>)
    requires forall k :: 0 <= k < |ids| ==> ids[k] in dirs
    ensures |ns| == |ids|
  {
    seq(|ids|, k requires 0 <= k < |ids| => TransformDirectory(wd, ids[k], dirs[ids[k]], path))
  }

  /** The node `listDirectory` makes of each listed file row. */
  function FileNodes(wd: string, files: map<int, FileRow>, ids: seq<int>, path: string): (ns: seq<FSNode>)
    requires forall k :: 0 <= k < |ids| ==> ids[k] in files
    ensures |ns| == |ids|
  {
    seq(|ids|, k requires 0 <= k < |ids| => TransformFile(wd, ids[k], files[ids[k]], path))
  }

  /** The two queries of `listDirectory` for the directory `at`, each node tagged with the
      canonical form of `path`. */
  function Listing(dirs: map<int, Dir>, files: map<int, FileRow>, owner: int, wd: string, path: string, at: Option<int>): seq<FSNode>
    requires Listable(dirs, files, owner, at)
  {
    var ds := OrderByName(ChildDirs(dirs, owner, at), DirNames(dirs));
    var fs := OrderByName(ChildFiles(files, owner, at), FileNames(files));
    DirNodes(wd, dirs, ds, path) + FileNodes(wd, files, fs, path)
  }

  /** The directory part of a listing: every child directory once, sorted by name. */
  lemma DirNodesShape(wd: string, dirs: map<int, Dir>, s: set<int>, path: string)
    requires DistinctNames(s, DirNames(dirs))
    ensures var ns := DirNodes(wd, dirs, OrderByName(s, DirNames(dirs)), path);
      && |ns| == |s|
      && (forall k :: 0 <= k < |ns| ==>
            && ns[k].id in s
            && ns[k] == TransformDirectory(wd, ns[k].id, dirs[ns[k].id], path))
      && (forall i :: i in s ==> exists k :: 0 <= k < |ns| && ns[k].id == i)
      && (forall i, j :: 0 <= i < j < |ns| ==> LexLess(ns[i].name, ns[j].name))
  {
    var ids := OrderByName(s, DirNames(dirs));
    var ns := DirNodes(wd, dirs, ids, path);
    forall k | 0 <= k < |ns|
      ensures ns[k].id == ids[k] && ns[k] == TransformDirectory(wd, ids[k], dirs[ids[k]], path) && ns[k].name == DirNames(dirs)[ids[k]]
    {
    }
    forall i, j | 0 <= i < j < |ns| ensures LexLess(ns[i].name, ns[j].name) {
      assert ns[i].name == DirNames(dirs)[ids[i]] && ns[j].name == DirNames(dirs)[ids[j]];
    }
    forall i | i in s ensures exists k :: 0 <= k < |ns| && ns[k].id == i {
      var k :| 0 <= k < |ids| && ids[k] == i;
      assert ns[k].id == i;
    }
  }

  /** The file part of a listing: every child file once, sorted by name. */
  lemma FileNodesShape(wd: string, files: map<int, FileRow>, s: set<int>, path: string)
    requires DistinctNames(s, FileNames(files))
    ensures var ns := FileNodes(wd, files, OrderByName(s, FileNames(files)), path);
      && |ns| == |s|
      && (forall k :: 0 <= k < |ns| ==>
            && ns[k].id in s
            && ns[k] == TransformFile(wd, ns[k].id, files[ns[k].id], path))
      && (forall i :: i in s ==> exists k :: 0 <= k < |ns| && ns[k].id == i)
      && (forall i, j :: 0 <= i < j < |ns| ==> LexLess(ns[i].name, ns[j].name))
  {
    var ids := OrderByName(s, FileNames(files));
    var ns := FileNodes(wd, files, ids, path);
    forall k | 0 <= k < |ns|
      ensures ns[k].id == ids[k] && ns[k] == TransformFile(wd, ids[k], files[ids[k]], path) && ns[k].name == FileNames(files)[ids[k]]
    {
    }
    forall i, j | 0 <= i < j < |ns| ensures LexLess(ns[i].name, ns[j].name) {
      assert ns[i].name == FileNames(files)[ids[i]] && ns[j].name == FileNames(files)[ids[j]];
    }
    forall i | i in s ensures exists k :: 0 <= k < |ns| && ns[k].id == i {
      var k :| 0 <= k < |ids| && ids[k] == i;
      assert ns[k].id == i;
    }
  }

  /** The listing splits into its directory part and its file part. */
  lemma ListingParts(dirs: map<int, Dir>, files: map<int, FileRow>, owner: int, wd: string, path: string, at: Option<int>)
    requires Listable(dirs, files, owner, at)
    ensures var nodes := Listing(dirs, files, owner, wd, path, at);
      var nd := |ChildDirs(dirs, owner, at)|;
      && |nodes| == nd + |ChildFiles(files, owner, at)|
      && nodes[..nd] == DirNodes(wd, dirs, OrderByName(ChildDirs(dirs, owner, at), DirNames(dirs)), path)
      && nodes[nd..] == FileNodes(wd, files, OrderByName(ChildFiles(files, owner, at), FileNames(files)), path)
  {
    var dn := DirNodes(wd, dirs, OrderByName(ChildDirs(dirs, owner, at), DirNames(dirs)), path);
    var fn := FileNodes(wd, files, OrderByName(ChildFiles(files, owner, at), FileNames(files)), path);
    assert (dn + fn)[..|dn|] == dn && (dn + fn)[|dn|..] == fn;
  }

  /** What `listDirectory` promises of its first part: every child directory once, sorted by
      name, each node made from its row. */
  lemma ListingDirectories(dirs: map<int, Dir>, files: map<int, FileRow>, owner: int, wd: string, path: string, at: Option<int>)
    requires Listable(dirs, files, owner, at)
    ensures var nodes := Listing(dirs, files, owner, wd, path, at);
      var nd := |ChildDirs(dirs, owner, at)|;
      && nd <= |nodes|
      && (forall k :: 0 <= k < nd ==>
            nodes[k].id in ChildDirs(dirs, owner, at) && nodes[k] == TransformDirectory(wd, nodes[k].id, dirs[nodes[k].id], path))
      && (forall i :: i in ChildDirs(dirs, owner, at) ==> exists k :: 0 <= k < nd && nodes[k].id == i)
      && (forall i, j :: 0 <= i < j < nd ==> LexLess(nodes[i].name, nodes[j].name))
  {
    var nodes := Listing(dirs, files, owner, wd, path, at);
    var nd := |ChildDirs(dirs, owner, at)|;
    ListingParts(dirs, files, owner, wd, path, at);
    DirNodesShape(wd, dirs, ChildDirs(dirs, owner, at), path);
    var dn := nodes[..nd];
    forall k | 0 <= k < nd
      ensures nodes[k] == dn[k] && nodes[k].id in ChildDirs(dirs, owner, at)
      ensures nodes[k] == TransformDirectory(wd, nodes[k].id, dirs[nodes[k].id], path)
    {
    }
    forall i, j | 0 <= i < j < nd ensures LexLess(nodes[i].name, nodes[j].name) {
      assert nodes[i] == dn[i] && nodes[j] == dn[j];
    }
    forall i | i in ChildDirs(dirs, owner, at) ensures exists k :: 0 <= k < nd && nodes[k].id == i {
      var k :| 0 <= k < |dn| && dn[k].id == i;
      assert nodes[k] == dn[k];
    }
  }

  /** What `listDirectory` promises of its second part: after the directories, every child
      file once, sorted by name, each node made from its row. */
  lemma ListingFiles(dirs: map<int, Dir>, files: map<int, FileRow>, owner: int, wd: string, path: string, at: Option<int>)
    requires Listable(dirs, files, owner, at)
    ensures var nodes := Listing(dirs, files, owner, wd, path, at);
      var nd := |ChildDirs(dirs, owner, at)|;
      && nd <= |nodes|
      && var fn := nodes[nd..];
      && |fn| == |ChildFiles(files, owner, at)|
      && (forall k :: 0 <= k < |fn| ==>
            fn[k].id in ChildFiles(files, owner, at) && fn[k] == TransformFile(wd, fn[k].id, files[fn[k].id], path))
      && (forall f :: f in ChildFiles(files, owner, at) ==> exists k :: 0 <= k < |fn| && fn[k].id == f)
      && (forall i, j :: 0 <= i < j < |fn| ==> LexLess(fn[i].name, fn[j].name))
  {
    ListingParts(dirs, files, owner, wd, path, at);
    FileNodesShape(wd, files, ChildFiles(files, owner, at), path);
  }

  /** Every node made of rows of one owner is that owner's and carries the listed path. */
  lemma DirNodesOwned(wd: string, dirs: map<int, Dir>, s: set<int>, path: string, owner: int)
    requires DistinctNames(s, DirNames(dirs))
    requires forall i :: i in s ==> i in dirs && dirs[i].ownerId == owner
    ensures forall n :: n in DirNodes(wd, dirs, OrderByName(s, DirNames(dirs)), path) ==>
      n.ownerId == owner && n.path == Paths.GetAbsolutePath(wd, path)
  {
    var ids := OrderByName(s, DirNames(dirs));
    var ns := DirNodes(wd, dirs, ids, path);
    forall n | n in ns ensures n.ownerId == owner && n.path == Paths.GetAbsolutePath(wd, path) {
      var k :| 0 <= k < |ns| && ns[k] == n;
      assert ids[k] in s;
    }
  }

  lemma FileNodesOwned(wd: string, files: map<int, FileRow>, s: set<int>, path: string, owner: int)
    requires DistinctNames(s, FileNames(files))
    requires forall f :: f in s ==> f in files && files[f].ownerId == owner
    ensures forall n :: n in FileNodes(wd, files, OrderByName(s, FileNames(files)), path) ==>
      n.ownerId == owner && n.path == Paths.GetAbsolutePath(wd, path)
  {
    var ids := OrderByName(s, FileNames(files));
    var ns := FileNodes(wd, files, ids, path);
    forall n | n in ns ensures n.ownerId == owner && n.path == Paths.GetAbsolutePath(wd, path) {
      var k :| 0 <= k < |ns| && ns[k] == n;
      assert ids[k] in s;
    }
  }

  /** Every node the listing of one of the owner's directories returns is the owner's, and
      carries the canonical path of the listed directory. */
  lemma ListingOwned(dirs: map<int, Dir>, files: map<int, FileRow>, owner: int, wd: string, path: string, at: Option<int>)
    requires Listable(dirs, files, owner, at)
    requires OwnersAgree(dirs, files) && ParentsExist(dirs) && DirectoriesExist(files, dirs)
    requires at.Some? ==> at.value in dirs && dirs[at.value].ownerId == owner
    ensures forall n :: n in Listing(dirs, files, owner, wd, path, at) ==>
      n.ownerId == owner && n.path == Paths.GetAbsolutePath(wd, path)
  {
    var cd := ChildDirs(dirs, owner, at);
    var cf := ChildFiles(files, owner, at);
    assert (forall i :: i in cd ==> i in dirs && dirs[i].ownerId == owner)
        && (forall f :: f in cf ==> f in files && files[f].ownerId == owner) by {
      ChildrenOwned(dirs, files, owner, at);
    }
    DirNodesOwned(wd, dirs, cd, path, owner);
    FileNodesOwned(wd, files, cf, path, owner);
  }
}
