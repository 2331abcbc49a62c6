/** A directory's listing walked node by node, as `deleteDirectory` and `copyDirectory` do:
    after the first `i` nodes, the rows dealt with are the subtrees of the directory nodes among
    them and the file rows they name. */
module Listed {
  import opened Wrappers
  import opened Schema
  import opened Tree
  import opened Nodes
  import Order

  /** The rows of the subtrees of the directory nodes among the first `i` listed nodes. */
  ghost function SubtreesBefore(dirs: map<int, Dir>, rank: map<int, nat>, nodes: seq<FSNode>, i: nat): set<int>
    requires Ranked(dirs, rank) && i <= |nodes|
  {
    set x | x in dirs && exists j :: 0 <= j < i && nodes[j].nodeType == DirectoryNode && x in Sub(dirs, rank, nodes[j].id)
  }

  /** The file rows the file nodes among the first `i` listed nodes name. */
  function FilesBefore(nodes: seq<FSNode>, i: nat): set<int>
    requires i <= |nodes|
  {
    set j | 0 <= j < i && nodes[j].nodeType == FileNode :: nodes[j].id
  }

  /** One more node: its subtree, or its file row, joins the rows covered so far. */
  lemma BeforeStep(dirs: map<int, Dir>, rank: map<int, nat>, nodes: seq<FSNode>, i: nat)
    requires Ranked(dirs, rank) && i < |nodes|
    ensures SubtreesBefore(dirs, rank, nodes, i + 1) ==
      SubtreesBefore(dirs, rank, nodes, i) + (if nodes[i].nodeType == DirectoryNode then Sub(dirs, rank, nodes[i].id) else {})
    ensures FilesBefore(nodes, i + 1) == FilesBefore(nodes, i) + (if nodes[i].nodeType == FileNode then {nodes[i].id} else {})
  {
    var next := SubtreesBefore(dirs, rank, nodes, i + 1);
    var rhs := SubtreesBefore(dirs, rank, nodes, i) + (if nodes[i].nodeType == DirectoryNode then Sub(dirs, rank, nodes[i].id) else {});
    forall x | x in next ensures x in rhs {
      var j :| 0 <= j < i + 1 && nodes[j].nodeType == DirectoryNode && x in Sub(dirs, rank, nodes[j].id);
    }
    forall x | x in rhs ensures x in next {
      if x in SubtreesBefore(dirs, rank, nodes, i) {
        var j :| 0 <= j < i && nodes[j].nodeType == DirectoryNode && x in Sub(dirs, rank, nodes[j].id);
      }
    }
    var fnext := FilesBefore(nodes, i + 1);
    var frhs := FilesBefore(nodes, i) + (if nodes[i].nodeType == FileNode then {nodes[i].id} else {});
    forall f | f in fnext ensures f in frhs {
      var j :| 0 <= j < i + 1 && nodes[j].nodeType == FileNode && nodes[j].id == f;
    }
  }

  /** Subtrees are downward closed, and so is a union of them. */
  lemma BeforeClosed(dirs: map<int, Dir>, rank: map<int, nat>, nodes: seq<FSNode>, i: nat)
    requires Ranked(dirs, rank) && i <= |nodes|
    ensures DownwardClosed(dirs, SubtreesBefore(dirs, rank, nodes, i))
  {
    var r := SubtreesBefore(dirs, rank, nodes, i);
    forall x | x in dirs && dirs[x].parentId.Some? && dirs[x].parentId.value in r ensures x in r {
      var p := dirs[x].parentId.value;
      var j :| 0 <= j < i && nodes[j].nodeType == DirectoryNode && p in Sub(dirs, rank, nodes[j].id);
      SubtreeIsClosed(dirs, rank, nodes[j].id);
    }
  }

  // ---------------------------------------------------------------------------------------
  // The listing of a directory, node by node

  /** `nodes` lists the children of `d`: first its child directories, then its files, each
      row once and under its own name. */
  ghost predicate ListsChildren(dirs: map<int, Dir>, files: map<int, FileRow>, d: int, nodes: seq<FSNode>, nd: int)
  {
    && 0 <= nd <= |nodes|
    && (forall k :: 0 <= k < |nodes| ==> (nodes[k].nodeType == DirectoryNode <==> k < nd))
    && (forall k :: 0 <= k < nd ==>
          nodes[k].id in dirs && dirs[nodes[k].id].parentId == Some(d) && nodes[k].name == dirs[nodes[k].id].name)
    && (forall k :: nd <= k < |nodes| ==>
          nodes[k].id in files && files[nodes[k].id].directoryId == Some(d) && nodes[k].name == files[nodes[k].id].name)
    && (forall j, k :: 0 <= j < k < |nodes| && nodes[j].nodeType == nodes[k].nodeType ==> nodes[j].id != nodes[k].id)
    && (forall c :: c in dirs && dirs[c].parentId == Some(d) ==> exists k :: 0 <= k < nd && nodes[k].id == c)
    && (forall f :: f in files && files[f].directoryId == Some(d) ==> exists k :: nd <= k < |nodes| && nodes[k].id == f)
  }

  /** The directory part of the listing of `d`. */
  lemma DirPartLists(wd: string, dirs: map<int, Dir>, owner: int, path: string, d: int)
    requires Order.DistinctNames(ChildDirs(dirs, owner, Some(d)), DirNames(dirs))
    ensures var dn := DirNodes(wd, dirs, Order.OrderByName(ChildDirs(dirs, owner, Some(d)), DirNames(dirs)), path);
      && (forall k :: 0 <= k < |dn| ==>
            && dn[k].nodeType == DirectoryNode && dn[k].id in dirs
            && dirs[dn[k].id].parentId == Some(d) && dn[k].name == dirs[dn[k].id].name)
      && (forall j, k :: 0 <= j < k < |dn| ==> dn[j].id != dn[k].id)
      && (forall c :: c in dirs && dirs[c].parentId == Some(d) ==> exists k :: 0 <= k < |dn| && dn[k].id == c)
  {
    var s := ChildDirs(dirs, owner, Some(d));
    var ids := Order.OrderByName(s, DirNames(dirs));
    var dn := DirNodes(wd, dirs, ids, path);
    forall j, k | 0 <= j < k < |dn| ensures dn[j].id != dn[k].id {
      Order.LexIrreflexive(DirNames(dirs)[ids[j]]);
      assert dn[j].id == ids[j] && dn[k].id == ids[k];
    }
    forall c | c in dirs && dirs[c].parentId == Some(d) ensures exists k :: 0 <= k < |dn| && dn[k].id == c {
      assert c in s;
      var k :| 0 <= k < |ids| && ids[k] == c;
      assert dn[k].id == c;
    }
  }

  /** The file part of the listing of `d`. */
  lemma FilePartLists(wd: string, files: map<int, FileRow>, owner: int, path: string, d: int)
    requires Order.DistinctNames(ChildFiles(files, owner, Some(d)), FileNames(files))
    ensures var fn := FileNodes(wd, files, Order.OrderByName(ChildFiles(files, owner, Some(d)), FileNames(files)), path);
      && (forall k :: 0 <= k < |fn| ==>
            && fn[k].nodeType == FileNode && fn[k].id in files
            && files[fn[k].id].directoryId == Some(d) && fn[k].name == files[fn[k].id].name)
      && (forall j, k :: 0 <= j < k < |fn| ==> fn[j].id != fn[k].id)
      && (forall f :: f in files && files[f].directoryId == Some(d) ==> exists k :: 0 <= k < |fn| && fn[k].id == f)
  {
    var s := ChildFiles(files, owner, Some(d));
    var ids := Order.OrderByName(s, FileNames(files));
    var fn := FileNodes(wd, files, ids, path);
    forall j, k | 0 <= j < k < |fn| ensures fn[j].id != fn[k].id {
      Order.LexIrreflexive(FileNames(files)[ids[j]]);
      assert fn[j].id == ids[j] && fn[k].id == ids[k];
    }
    forall f | f in files && files[f].directoryId == Some(d) ensures exists k :: 0 <= k < |fn| && fn[k].id == f {
      assert f in s;
      var k :| 0 <= k < |ids| && ids[k] == f;
      assert fn[k].id == f;
    }
  }

  /** Two parts that each list their rows make a listing of the children. */
  lemma PartsListChildren(dirs: map<int, Dir>, files: map<int, FileRow>, d: int, dn: seq<FSNode>, fn: seq<FSNode>)
    requires forall k :: 0 <= k < |dn| ==>
      dn[k].nodeType == DirectoryNode && dn[k].id in dirs && dirs[dn[k].id].parentId == Some(d) && dn[k].name == dirs[dn[k].id].name
    requires forall j, k :: 0 <= j < k < |dn| ==> dn[j].id != dn[k].id
    requires forall c :: c in dirs && dirs[c].parentId == Some(d) ==> exists k :: 0 <= k < |dn| && dn[k].id == c
    requires forall k :: 0 <= k < |fn| ==>
      fn[k].nodeType == FileNode && fn[k].id in files && files[fn[k].id].directoryId == Some(d) && fn[k].name == files[fn[k].id].name
    requires forall j, k :: 0 <= j < k < |fn| ==> fn[j].id != fn[k].id
    requires forall f :: f in files && files[f].directoryId == Some(d) ==> exists k :: 0 <= k < |fn| && fn[k].id == f
    ensures ListsChildren(dirs, files, d, dn + fn, |dn|)
  {
    var nodes := dn + fn;
    var nd := |dn|;
    forall j, k | 0 <= j < k < |nodes| && nodes[j].nodeType == nodes[k].nodeType ensures nodes[j].id != nodes[k].id {
      if k < nd {
        assert nodes[j] == dn[j] && nodes[k] == dn[k];
      } else if j >= nd {
        assert nodes[j] == fn[j - nd] && nodes[k] == fn[k - nd];
      }
    }
    forall f | f in files && files[f].directoryId == Some(d) ensures exists k :: nd <= k < |nodes| && nodes[k].id == f {
      var k :| 0 <= k < |fn| && fn[k].id == f;
      assert nodes[nd + k] == fn[k];
    }
    forall c | c in dirs && dirs[c].parentId == Some(d) ensures exists k :: 0 <= k < nd && nodes[k].id == c {
      var k :| 0 <= k < |dn| && dn[k].id == c;
      assert nodes[k] == dn[k];
    }
  }

  /** What `listDirectory` returns for one of the owner's directories lists its children. */
  lemma ListingListsChildren(dirs: map<int, Dir>, files: map<int, FileRow>, owner: int, wd: string, path: string, d: int)
    requires Listable(dirs, files, owner, Some(d))
    ensures ListsChildren(dirs, files, d, Listing(dirs, files, owner, wd, path, Some(d)), |ChildDirs(dirs, owner, Some(d))|)
  {
    DirPartLists(wd, dirs, owner, path, d);
    FilePartLists(wd, files, owner, path, d);
    var dn := DirNodes(wd, dirs, Order.OrderByName(ChildDirs(dirs, owner, Some(d)), DirNames(dirs)), path);
    var fn := FileNodes(wd, files, Order.OrderByName(ChildFiles(files, owner, Some(d)), FileNames(files)), path);
    PartsListChildren(dirs, files, d, dn, fn);
  }

  /** A child's subtree is smaller than its parent's: it misses the parent. */
  lemma SubtreeShrinks(dirs: map<int, Dir>, rank: map<int, nat>, c: int, d: int)
    requires Ranked(dirs, rank) && c in dirs && dirs[c].parentId == Some(d)
    ensures Sub(dirs, rank, c) <= Sub(dirs, rank, d) - {d}
    ensures |Sub(dirs, rank, c)| < |Sub(dirs, rank, d)|
  {
    var sc := Sub(dirs, rank, c);
    var sd := Sub(dirs, rank, d);
    forall x | x in sc ensures x in sd && x != d {
      SubtreeTransitive(dirs, rank, x, c, d);
      SubtreeRoot(dirs, rank, x, c);
    }
    assert d in sd - sc;
    assert sd == sc + (sd - sc);
  }

  /** The listed directory itself is never among the rows covered. */
  lemma BeforeMissesRoot(dirs: map<int, Dir>, files: map<int, FileRow>, rank: map<int, nat>, d: int,
                          nodes: seq<FSNode>, nd: int, i: nat)
    requires Ranked(dirs, rank) && ListsChildren(dirs, files, d, nodes, nd) && i <= |nodes|
    ensures SubtreesBefore(dirs, rank, nodes, i) <= Sub(dirs, rank, d) - {d}
  {
    forall x | x in SubtreesBefore(dirs, rank, nodes, i) ensures x in Sub(dirs, rank, d) - {d} {
      var j :| 0 <= j < i && nodes[j].nodeType == DirectoryNode && x in Sub(dirs, rank, nodes[j].id);
      SubtreeShrinks(dirs, rank, nodes[j].id, d);
    }
  }

  /** The subtree of the next directory node misses the rows covered so far: those lie in its
      siblings' subtrees. */
  lemma BeforeMissesNext(dirs: map<int, Dir>, files: map<int, FileRow>, rank: map<int, nat>, d: int,
                          nodes: seq<FSNode>, nd: int, i: nat)
    requires Ranked(dirs, rank) && ListsChildren(dirs, files, d, nodes, nd)
    requires i < |nodes| && nodes[i].nodeType == DirectoryNode
    ensures SubtreesBefore(dirs, rank, nodes, i) !! Sub(dirs, rank, nodes[i].id)
  {
    forall x | x in SubtreesBefore(dirs, rank, nodes, i) && x in Sub(dirs, rank, nodes[i].id) ensures false {
      var j :| 0 <= j < i && nodes[j].nodeType == DirectoryNode && x in Sub(dirs, rank, nodes[j].id);
      SiblingSubtreesDisjoint(dirs, rank, nodes[j].id, nodes[i].id);
    }
  }

  /** Once every node is walked, the rows covered are the subtree of `d` without `d` itself,
      and with the file nodes they cover every file row in the subtree. */
  lemma ListingCovers(dirs: map<int, Dir>, files: map<int, FileRow>, rank: map<int, nat>, d: int,
                      nodes: seq<FSNode>, nd: int)
    requires Ranked(dirs, rank) && d in dirs && ListsChildren(dirs, files, d, nodes, nd)
    ensures SubtreesBefore(dirs, rank, nodes, |nodes|) == Sub(dirs, rank, d) - {d}
    ensures FilesUnder(files, SubtreesBefore(dirs, rank, nodes, |nodes|)) + FilesBefore(nodes, |nodes|) ==
      FilesUnder(files, Sub(dirs, rank, d))
  {
    var n := |nodes|;
    var r := SubtreesBefore(dirs, rank, nodes, n);
    var s := Sub(dirs, rank, d);
    BeforeMissesRoot(dirs, files, rank, d, nodes, nd, n);
    forall x | x in s && x != d ensures x in r {
      var c := ChildAbove(dirs, rank, x, d);
      var k :| 0 <= k < nd && nodes[k].id == c;
      assert x in Sub(dirs, rank, nodes[k].id);
    }
    assert r == s - {d};
    assert d in s;
    forall f | f in files && files[f].directoryId == Some(d) ensures f in FilesBefore(nodes, n) {
      var k :| nd <= k < n && nodes[k].id == f;
    }
    forall f | f in FilesBefore(nodes, n) ensures f in files && files[f].directoryId == Some(d) {
      var k :| 0 <= k < n && nodes[k].nodeType == FileNode && nodes[k].id == f;
    }
    var lhs := FilesUnder(files, r) + FilesBefore(nodes, n);
    var rhs := FilesUnder(files, s);
    assert forall f :: f in lhs <==> f in rhs;
  }
}
