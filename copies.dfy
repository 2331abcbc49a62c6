/** What `copyDirectory` adds: a copy of the source's subtree under new ids, every directory row
    and every file row of it exactly once, each copy below the copy of its parent. The listing
    of the source is walked node by node; after the first `i` nodes, the rows copied are the
    source itself, the subtrees of the directory nodes among them and the file rows in those
    subtrees or named by the file nodes among them. */
module Copies {
  import opened Wrappers
  import opened Schema
  import opened Tree
  import opened Nodes
  import opened Listed
  import Paths

  /** The row `copyFile` inserts: the source's content key, size and type under the new name
      and directory. */
  function CopiedRow(src: FileRow, at: Option<int>, name: string, owner: int, now: int): (r: FileRow)
    ensures r.uri == src.uri && r.size == src.size && r.mimeType == src.mimeType
    ensures FileMatches(r, owner, at, name)
    ensures r.createdAt == now && r.updatedAt == now
  {
    FileRow(name, at, src.uri, src.size, src.mimeType, owner, now, now)
  }

  /** `big` is `small` with rows added, all under ids from `lo` up to `hi`. */
  ghost predicate Adds<T>(small: map<int, T>, big: map<int, T>, lo: int, hi: int)
  {
    && Extends(big, small)
    && forall y :: y in big && y !in small ==> lo <= y < hi
  }

  /** Of the directory rows added, only the one under `lo` hangs below `at`; every other one
      hangs below an added row. */
  ghost predicate RowsHang(small: map<int, Dir>, big: map<int, Dir>, lo: int, hi: int, at: Option<int>)
  {
    forall y :: y in big && y !in small ==>
      if y == lo then big[y].parentId == at
      else big[y].parentId.Some? && lo <= big[y].parentId.value < hi
  }

  /** Every file row added lies in an added directory. */
  ghost predicate FilesHang(small: map<int, FileRow>, big: map<int, FileRow>, lo: int, hi: int)
  {
    forall g :: g in big && g !in small ==> big[g].directoryId.Some? && lo <= big[g].directoryId.value < hi
  }

  /** The ids a map sends its keys to. */
  ghost function Image(m: map<int, int>): set<int>
  {
    set x | x in m :: m[x]
  }

  /** `m` carries the directories `keys` of `src`, among them `d`, one to one onto the ids from
      `lo` up to `hi` of `dst`: the copy of `d` is `top` under `lo`, and the copy of every other
      one is a row of `owner` with that directory's name below the copy of its parent. */
  ghost predicate DirsCopied(src: map<int, Dir>, keys: set<int>, d: int, dst: map<int, Dir>, m: map<int, int>,
                             lo: int, hi: int, top: Dir, owner: int, now: int)
  {
    && m.Keys == keys && d in m && m[d] == lo && lo in dst && dst[lo] == top
    && (forall x :: x in m ==> lo <= m[x] < hi && m[x] in dst)
    && (forall x, y :: x in m && y in m && m[x] == m[y] ==> x == y)
    && (forall i :: lo <= i < hi ==> i in Image(m))
    && (forall x :: x in m && x != d ==>
          && x in src && src[x].parentId.Some? && src[x].parentId.value in m
          && dst[m[x]] == Dir(src[x].name, Some(m[src[x].parentId.value]), owner, now, now))
  }

  /** `fm` carries the file rows `keys` of `src` one to one onto the ids from `lo` up to `hi` of
      `dst`: each copy keeps the content key, size, type and name, and lies in the copy (by `m`)
      of its directory. */
  ghost predicate FilesCopied(src: map<int, FileRow>, keys: set<int>, dst: map<int, FileRow>, fm: map<int, int>,
                              lo: int, hi: int, m: map<int, int>, owner: int, now: int)
  {
    && fm.Keys == keys
    && (forall f :: f in fm ==> lo <= fm[f] < hi && fm[f] in dst)
    && (forall f, g :: f in fm && g in fm && fm[f] == fm[g] ==> f == g)
    && (forall i :: lo <= i < hi ==> i in Image(fm))
    && (forall f :: f in fm ==>
          && f in src && src[f].directoryId.Some? && src[f].directoryId.value in m
          && dst[fm[f]] == CopiedRow(src[f], Some(m[src[f].directoryId.value]), src[f].name, owner, now))
  }

  /** A whole copy of the subtree of `d`: the tables only grow, by the copies of its directory
      rows (the copy of `d` being `top`) and of the file rows in it, and nothing else is added
      anywhere but below the copy. */
  ghost predicate TreeCopied(src: map<int, Dir>, rank: map<int, nat>, srcFiles: map<int, FileRow>, d: int,
                             dst: map<int, Dir>, dstFiles: map<int, FileRow>, m: map<int, int>, fm: map<int, int>,
                             lo: int, hi: int, flo: int, fhi: int, top: Dir, owner: int, now: int)
    requires Ranked(src, rank)
  {
    && flo <= fhi
    && Adds(src, dst, lo, hi) && Adds(srcFiles, dstFiles, flo, fhi)
    && RowsHang(src, dst, lo, hi, top.parentId) && FilesHang(srcFiles, dstFiles, lo, hi)
    && DirsCopied(src, Sub(src, rank, d), d, dst, m, lo, hi, top, owner, now)
    && FilesCopied(srcFiles, FilesUnder(srcFiles, Sub(src, rank, d)), dstFiles, fm, flo, fhi, m, owner, now)
  }

  /** The copy after the first `i` listed nodes of `d`: the rows covered so far are copied, and
      the rows below the copy of `d` are the copies of the nodes so far, by name. */
  ghost predicate CopyProgress(src: map<int, Dir>, rank: map<int, nat>, srcFiles: map<int, FileRow>, d: int,
                               nodes: seq<FSNode>, i: nat, dst: map<int, Dir>, dstFiles: map<int, FileRow>,
                               m: map<int, int>, fm: map<int, int>, lo: int, hi: int, flo: int, fhi: int,
                               top: Dir, owner: int, now: int)
    requires Ranked(src, rank) && i <= |nodes|
  {
    && flo <= fhi
    && Adds(src, dst, lo, hi) && Adds(srcFiles, dstFiles, flo, fhi)
    && RowsHang(src, dst, lo, hi, top.parentId) && FilesHang(srcFiles, dstFiles, lo, hi)
    && DirsCopied(src, {d} + SubtreesBefore(src, rank, nodes, i), d, dst, m, lo, hi, top, owner, now)
    && FilesCopied(srcFiles, FilesUnder(srcFiles, SubtreesBefore(src, rank, nodes, i)) + FilesBefore(nodes, i),
                   dstFiles, fm, flo, fhi, m, owner, now)
    && DirsNamed(dst, lo, nodes, i) && FilesNamed(dstFiles, lo, nodes, i)
  }

  /** The directory rows below `lo` carry the names of directory nodes before the `i`-th. */
  ghost predicate DirsNamed(dst: map<int, Dir>, lo: int, nodes: seq<FSNode>, i: nat)
    requires i <= |nodes|
  {
    forall y :: y in dst && dst[y].parentId == Some(lo) ==>
      exists j :: 0 <= j < i && nodes[j].nodeType == DirectoryNode && dst[y].name == nodes[j].name
  }

  /** The file rows in `lo` carry the names of file nodes before the `i`-th. */
  ghost predicate FilesNamed(dstFiles: map<int, FileRow>, lo: int, nodes: seq<FSNode>, i: nat)
    requires i <= |nodes|
  {
    forall g :: g in dstFiles && dstFiles[g].directoryId == Some(lo) ==>
      exists j :: 0 <= j < i && nodes[j].nodeType == FileNode && dstFiles[g].name == nodes[j].name
  }

  // ---------------------------------------------------------------------------------------
  // The old rows' subtrees after rows are added

  /** A row that was there keeps its ancestry when rows are only added. */
  lemma {:induction false} ExtendsKeepsAncestry(small: map<int, Dir>, rs: map<int, nat>, big: map<int, Dir>,
                                                rb: map<int, nat>, x: int, c: int)
    requires Ranked(small, rs) && Ranked(big, rb) && Extends(big, small) && x in small
    ensures InSubtree(big, rb, x, c) == InSubtree(small, rs, x, c)
    decreases rs[x]
  {
    if x != c && small[x].parentId.Some? {
      ExtendsKeepsAncestry(small, rs, big, rb, small[x].parentId.value, c);
    }
  }

  /** An added row lies below no old row `c` whose subtree misses `at`: its ancestry climbs
      through added rows to the first one, which hangs below `at`. */
  lemma {:induction false} AddedNotBelow(small: map<int, Dir>, rs: map<int, nat>, big: map<int, Dir>, rb: map<int, nat>,
                                         lo: int, hi: int, at: Option<int>, c: int, x: int)
    requires Ranked(small, rs) && Ranked(big, rb) && Adds(small, big, lo, hi) && DirIdsBelow(small, lo)
    requires RowsHang(small, big, lo, hi, at) && c in small
    requires at.Some? ==> at.value in small && !InSubtree(small, rs, at.value, c)
    requires x in big && x !in small
    ensures !InSubtree(big, rb, x, c)
    decreases rb[x]
  {
    var p := big[x].parentId;
    if p.Some? {
      if p.value in small {
        ExtendsKeepsAncestry(small, rs, big, rb, p.value, c);
      } else {
        AddedNotBelow(small, rs, big, rb, lo, hi, at, c, p.value);
      }
    }
  }

  /** The subtree of an old row whose subtree misses `at` is what it was. */
  lemma AddedKeepsSubtree(small: map<int, Dir>, rs: map<int, nat>, big: map<int, Dir>, rb: map<int, nat>,
                          lo: int, hi: int, at: Option<int>, c: int)
    requires Ranked(small, rs) && Ranked(big, rb) && Adds(small, big, lo, hi) && DirIdsBelow(small, lo)
    requires RowsHang(small, big, lo, hi, at) && c in small
    requires at.Some? ==> at.value in small && at.value !in Sub(small, rs, c)
    ensures Sub(big, rb, c) == Sub(small, rs, c)
  {
    forall x | x in big ensures InSubtree(big, rb, x, c) <==> x in small && InSubtree(small, rs, x, c) {
      if x in small {
        ExtendsKeepsAncestry(small, rs, big, rb, x, c);
      } else {
        AddedNotBelow(small, rs, big, rb, lo, hi, at, c, x);
      }
    }
  }

  /** A key under which `m` holds the value `i`. */
  lemma KeyOf(m: map<int, int>, i: int) returns (x: int)
    requires i in Image(m)
    ensures x in m && m[x] == i
  {
    x :| x in m && m[x] == i;
  }

  // ---------------------------------------------------------------------------------------
  // Walking the listing

  /** Before the first node only the row `top` for `d` is in, and no row hangs below it. */
  lemma CopyStarts(src: map<int, Dir>, rank: map<int, nat>, srcFiles: map<int, FileRow>, d: int, nodes: seq<FSNode>,
                   lo: int, flo: int, top: Dir, owner: int, now: int)
    requires Ranked(src, rank) && DirIdsBelow(src, lo) && ParentsExist(src) && d in src
    requires DirectoriesExist(srcFiles, src)
    requires top.parentId.Some? ==> top.parentId.value in src
    ensures CopyProgress(src, rank, srcFiles, d, nodes, 0, src[lo := top], srcFiles, map[d := lo], map[],
                         lo, lo + 1, flo, flo, top, owner, now)
  {
    assert SubtreesBefore(src, rank, nodes, 0) == {};
    assert FilesBefore(nodes, 0) == {};
    assert FilesUnder(srcFiles, {}) == {};
    var m := map[d := lo];
    assert m[d] in Image(m);
  }

  /** Two copies side by side make one: the second copies directories `k2` of the first's result
      (which agree with `src`), and its first row hangs below the copy of an already copied row. */
  lemma ComposeDirs(src: map<int, Dir>, k1: set<int>, d: int, a: map<int, Dir>, m1: map<int, int>, lo: int, mid: int,
                    top: Dir, k2: set<int>, c: int, b: map<int, Dir>, m2: map<int, int>, hi: int, owner: int, now: int)
    requires DirsCopied(src, k1, d, a, m1, lo, mid, top, owner, now)
    requires c in src && src[c].parentId.Some? && src[c].parentId.value in k1
    requires DirsCopied(a, k2, c, b, m2, mid, hi, Dir(src[c].name, Some(m1[src[c].parentId.value]), owner, now, now), owner, now)
    requires Extends(b, a) && k1 !! k2
    requires Extends(a, src) && k2 <= src.Keys
    ensures DirsCopied(src, k1 + k2, d, b, m1 + m2, lo, hi, top, owner, now)
  {
    var m := m1 + m2;
    forall x | x in m ensures lo <= m[x] < hi && m[x] in b {
      if x in k2 {
        assert m[x] == m2[x];
      } else {
        assert m[x] == m1[x];
      }
    }
    forall x, y | x in m && y in m && m[x] == m[y] ensures x == y {
      assert if x in k2 then m[x] == m2[x] else m[x] == m1[x];
      assert if y in k2 then m[y] == m2[y] else m[y] == m1[y];
    }
    forall i | lo <= i < hi ensures i in Image(m) {
      if i < mid {
        var x := KeyOf(m1, i);
        assert x !in k2 && m[x] == i;
      } else {
        var x := KeyOf(m2, i);
        assert m[x] == i;
      }
    }
    assert d !in k2 && m[d] == lo;
    forall x | x in m && x != d
      ensures x in src && src[x].parentId.Some? && src[x].parentId.value in m
      ensures b[m[x]] == Dir(src[x].name, Some(m[src[x].parentId.value]), owner, now, now)
    {
      if x in k2 {
        assert m[x] == m2[x];
        if x != c {
          var p := a[x].parentId.value;
          assert m[p] == m2[p];
        } else {
          var p := src[c].parentId.value;
          assert p !in k2 && m[p] == m1[p];
        }
      } else {
        var p := src[x].parentId.value;
        assert m[x] == m1[x] && p !in k2 && m[p] == m1[p];
      }
    }
  }

  /** The file copies of two copies side by side make one. */
  lemma ComposeFiles(src: map<int, FileRow>, f1: set<int>, a: map<int, FileRow>, fm1: map<int, int>, lo: int, mid: int,
                     m1: map<int, int>, f2: set<int>, b: map<int, FileRow>, fm2: map<int, int>, hi: int,
                     m2: map<int, int>, owner: int, now: int)
    requires FilesCopied(src, f1, a, fm1, lo, mid, m1, owner, now)
    requires FilesCopied(a, f2, b, fm2, mid, hi, m2, owner, now)
    requires Extends(b, a) && f1 !! f2 && m1.Keys !! m2.Keys && lo <= mid <= hi
    requires Extends(a, src) && f2 <= src.Keys
    ensures FilesCopied(src, f1 + f2, b, fm1 + fm2, lo, hi, m1 + m2, owner, now)
  {
    var fm := fm1 + fm2;
    var m := m1 + m2;
    forall f | f in fm ensures lo <= fm[f] < hi && fm[f] in b {
      if f in f2 {
        assert fm[f] == fm2[f];
      } else {
        assert fm[f] == fm1[f];
      }
    }
    forall f, g | f in fm && g in fm && fm[f] == fm[g] ensures f == g {
      assert if f in f2 then fm[f] == fm2[f] else fm[f] == fm1[f];
      assert if g in f2 then fm[g] == fm2[g] else fm[g] == fm1[g];
    }
    forall i | lo <= i < hi ensures i in Image(fm) {
      if i < mid {
        var f := KeyOf(fm1, i);
        assert f !in f2 && fm[f] == i;
      } else {
        var f := KeyOf(fm2, i);
        assert fm[f] == i;
      }
    }
    forall f | f in fm
      ensures f in src && src[f].directoryId.Some? && src[f].directoryId.value in m
      ensures b[fm[f]] == CopiedRow(src[f], Some(m[src[f].directoryId.value]), src[f].name, owner, now)
    {
      if f in f2 {
        var x := a[f].directoryId.value;
        assert fm[f] == fm2[f] && m[x] == m2[x];
      } else {
        var x := src[f].directoryId.value;
        assert fm[f] == fm1[f] && x !in m2 && m[x] == m1[x];
      }
    }
  }

  /** Rows added in two rounds are added once. */
  lemma AddsCompose<T>(a: map<int, T>, b: map<int, T>, c: map<int, T>, lo: int, mid: int, hi: int)
    requires Adds(a, b, lo, mid) && Adds(b, c, mid, hi) && lo <= mid <= hi
    ensures Adds(a, c, lo, hi)
  {
    forall y | y in c && y !in a ensures lo <= y < hi {
      if y in b {
        assert lo <= y < mid;
      }
    }
  }

  /** Adding file rows that all lie in added directories leaves the files of old directories
      as they were. */
  lemma AddedKeepsFilesUnder(small: map<int, FileRow>, big: map<int, FileRow>, flo: int, fhi: int,
                             lo: int, hi: int, s: set<int>)
    requires Adds(small, big, flo, fhi) && FilesHang(small, big, lo, hi)
    requires forall x :: x in s ==> x < lo
    ensures FilesUnder(big, s) == FilesUnder(small, s)
  {
    assert forall f :: f in FilesUnder(big, s) <==> f in FilesUnder(small, s);
  }

  // ---------------------------------------------------------------------------------------
  // One node of the listing copied

  /** The listed file `nodes[i]` is not yet copied: it is no earlier file node, and it lies in
      `d`, which is in no earlier node's subtree. */
  lemma FileNotYetCopied(src: map<int, Dir>, rank: map<int, nat>, srcFiles: map<int, FileRow>, d: int,
                         nodes: seq<FSNode>, nd: int, i: nat)
    requires Ranked(src, rank) && ListsChildren(src, srcFiles, d, nodes, nd)
    requires i < |nodes| && nodes[i].nodeType == FileNode
    ensures nodes[i].id !in FilesUnder(srcFiles, SubtreesBefore(src, rank, nodes, i)) + FilesBefore(nodes, i)
  {
    BeforeMissesRoot(src, srcFiles, rank, d, nodes, nd, i);
    forall j | 0 <= j < i && nodes[j].nodeType == FileNode ensures nodes[j].id != nodes[i].id { }
  }

  /** No row below the copy holds the name of the directory node `i` yet: the rows there carry
      the names of earlier directory nodes, which are `d`'s other children. */
  lemma DirNameFree(src: map<int, Dir>, srcFiles: map<int, FileRow>, d: int, nodes: seq<FSNode>, nd: int, i: nat,
                    lo: int, flo: int, dirs: map<int, Dir>, owner: int, now: int)
    requires Consistent(src, srcFiles, lo, flo) && d in src && ListsChildren(src, srcFiles, d, nodes, nd)
    requires i < |nodes| && nodes[i].nodeType == DirectoryNode && DirsNamed(dirs, lo, nodes, i)
    ensures !DirKeyTaken(dirs, DirKey(Dir(nodes[i].name, Some(lo), owner, now, now)))
  {
    var c := nodes[i].id;
    var name := nodes[i].name;
    forall y | y in dirs && dirs[y].parentId == Some(lo) ensures dirs[y].name != name {
      var j :| 0 <= j < i && nodes[j].nodeType == DirectoryNode && dirs[y].name == nodes[j].name;
      SiblingNamesDistinct(src, lo, nodes[j].id, c);
    }
    var key := DirKey(Dir(name, Some(lo), owner, now, now));
    forall y | y in dirs ensures DirKey(dirs[y]) != key {
      if dirs[y].parentId != Some(lo) {
        assert Coalesce(dirs[y].parentId) != lo;
      }
    }
  }

  /** No file in the copy holds the name of the file node `i` yet. */
  lemma FileNameFree(src: map<int, Dir>, srcFiles: map<int, FileRow>, d: int, nodes: seq<FSNode>, nd: int, i: nat,
                     lo: int, flo: int, files: map<int, FileRow>, owner: int, now: int)
    requires Consistent(src, srcFiles, lo, flo) && d in src && ListsChildren(src, srcFiles, d, nodes, nd)
    requires i < |nodes| && nodes[i].nodeType == FileNode && FilesNamed(files, lo, nodes, i)
    ensures !FileKeyTaken(files, FileKey(CopiedRow(srcFiles[nodes[i].id], Some(lo), nodes[i].name, owner, now)))
  {
    var f := nodes[i].id;
    var name := nodes[i].name;
    forall g | g in files && files[g].directoryId == Some(lo) ensures files[g].name != name {
      var j :| 0 <= j < i && nodes[j].nodeType == FileNode && files[g].name == nodes[j].name;
      assert FileKey(srcFiles[nodes[j].id]) != FileKey(srcFiles[f]);
    }
    var key := FileKey(CopiedRow(srcFiles[f], Some(lo), name, owner, now));
    forall g | g in files ensures FileKey(files[g]) != key {
      if files[g].directoryId != Some(lo) {
        assert Coalesce(files[g].directoryId) != lo;
      }
    }
  }

  /** While the copy grows, the source path still names `d` and the destination path the
      copy. */
  lemma CopyResolves(src: map<int, Dir>, lo: int, top: Dir, dirs: map<int, Dir>, owner: int, wd: string,
                     path: string, d: int, target: string)
    requires lo !in src && Extends(dirs, src) && lo in dirs && dirs[lo] == top && UniqueDirKeys(dirs)
    requires ResolveDir(src, owner, wd, path) == Success(Some(d))
    requires ResolveDir(src[lo := top], owner, wd, target) == Success(Some(lo))
    ensures ResolveDir(dirs, owner, wd, path) == Success(Some(d))
    ensures ResolveDir(dirs, owner, wd, target) == Success(Some(lo))
  {
    assert Extends(dirs, src[lo := top]);
    ResolveExtends(src, dirs, owner, wd, path);
    ResolveExtends(src[lo := top], dirs, owner, wd, target);
  }

  /** Before the copy of the listed directory `nodes[i]` into the copy `lo` of `d`: its path
      resolves to it, its subtree is as it was and smaller than that of `d`, and the copy is
      outside it. */
  lemma DirChildFacts(src: map<int, Dir>, rank0: map<int, nat>, srcFiles: map<int, FileRow>, d: int,
                      nodes: seq<FSNode>, nd: int, i: nat, dirs: map<int, Dir>, rank: map<int, nat>,
                      lo: int, hi: int, flo: int, at: Option<int>, owner: int, wd: string, path: string)
    requires Ranked(src, rank0) && Consistent(src, srcFiles, lo, flo)
    requires ResolveDir(src, owner, wd, path) == Success(Some(d)) && d in src && src[d].ownerId == owner
    requires ListsChildren(src, srcFiles, d, nodes, nd) && i < |nodes| && nodes[i].nodeType == DirectoryNode
    requires at.Some? ==> at.value in src && (at.value in Sub(src, rank0, d) ==> at.value == d)
    requires Ranked(dirs, rank) && UniqueDirKeys(dirs) && Adds(src, dirs, lo, hi) && RowsHang(src, dirs, lo, hi, at)
    ensures var c := nodes[i].id;
      && c in src && src[c].parentId == Some(d) && src[c].ownerId == owner && c in dirs && dirs[c] == src[c]
      && nodes[i].name == src[c].name && Paths.IsAddressable(nodes[i].name)
      && ResolveDir(dirs, owner, wd, path + "/" + nodes[i].name) == Success(Some(c))
      && Sub(dirs, rank, c) == Sub(src, rank0, c) && lo !in Sub(src, rank0, c)
      && |Sub(src, rank0, c)| < |Sub(src, rank0, d)|
  {
    var c := nodes[i].id;
    var name := nodes[i].name;
    assert i < nd;
    assert src[c].ownerId == owner;
    ResolveChild(src, owner, wd, path, d, c, name);
    ResolveExtends(src, dirs, owner, wd, path + "/" + name);
    SubtreeShrinks(src, rank0, c, d);
    AddedKeepsSubtree(src, rank0, dirs, rank, lo, hi, at, c);
  }

  /** Before the copy of the listed file `nodes[i]` into the copy of `d`: its path finds it. */
  lemma FileChildFacts(src: map<int, Dir>, srcFiles: map<int, FileRow>, d: int, nodes: seq<FSNode>, nd: int, i: nat,
                       dirs: map<int, Dir>, files: map<int, FileRow>, flo: int, fhi: int, owner: int, wd: string, path: string)
    requires OwnersAgree(src, srcFiles) && FileNamesValid(srcFiles)
    requires d in src && src[d].ownerId == owner
    requires ListsChildren(src, srcFiles, d, nodes, nd) && i < |nodes| && nodes[i].nodeType == FileNode
    requires ResolveDir(dirs, owner, wd, path) == Success(Some(d))
    requires UniqueFileKeys(files) && Adds(srcFiles, files, flo, fhi)
    ensures var f := nodes[i].id;
      && f in srcFiles && srcFiles[f].directoryId == Some(d) && srcFiles[f].ownerId == owner
      && f in files && files[f] == srcFiles[f] && nodes[i].name == srcFiles[f].name
      && nodes[i].name != "" && '/' !in nodes[i].name
      && LookupFile(dirs, files, owner, wd, path + "/" + nodes[i].name) == Success(Some(f))
  {
    var f := nodes[i].id;
    var name := nodes[i].name;
    assert srcFiles[f].ownerId == owner;
    var parent := if path == "" then "/" else path;
    Paths.SplitPathOfChild(path, name);
    Paths.SlashIsWorkingDirectory(wd);
    assert ResolveDir(dirs, owner, wd, parent) == Success(Some(d));
    LookupOfSplit(dirs, files, owner, wd, path + "/" + name, parent, name);
    FileInIsTheMatch(files, owner, Some(d), name, f);
  }

  /** The rows below the copy after one directory node copied: the new ones hang below its
      copy, whose one new child carries the node's name. */
  lemma DirStepHang(src: map<int, Dir>, nodes: seq<FSNode>, i: nat, dirs: map<int, Dir>, lo: int, hi: int,
                    at: Option<int>, dirs2: map<int, Dir>, hi2: int)
    requires i < |nodes| && lo < hi <= hi2
    requires Adds(src, dirs, lo, hi) && RowsHang(src, dirs, lo, hi, at) && DirsNamed(dirs, lo, nodes, i)
    requires Adds(dirs, dirs2, hi, hi2) && RowsHang(dirs, dirs2, hi, hi2, Some(lo))
    requires hi in dirs2 && dirs2[hi].name == nodes[i].name && nodes[i].nodeType == DirectoryNode
    ensures Adds(src, dirs2, lo, hi2) && RowsHang(src, dirs2, lo, hi2, at) && DirsNamed(dirs2, lo, nodes, i + 1)
  {
    AddsCompose(src, dirs, dirs2, lo, hi, hi2);
    forall y | y in dirs2 && dirs2[y].parentId == Some(lo)
      ensures exists j :: 0 <= j < i + 1 && nodes[j].nodeType == DirectoryNode && dirs2[y].name == nodes[j].name
    {
      if y in dirs {
        var j :| 0 <= j < i && nodes[j].nodeType == DirectoryNode && dirs[y].name == nodes[j].name;
        assert dirs2[y] == dirs[y];
      } else {
        assert y == hi;
      }
    }
  }

  /** The files in the copy after one directory node copied. */
  lemma DirStepFilesHang(srcFiles: map<int, FileRow>, nodes: seq<FSNode>, i: nat, files: map<int, FileRow>,
                         lo: int, hi: int, flo: int, fhi: int, files2: map<int, FileRow>, hi2: int, fhi2: int)
    requires i < |nodes| && lo < hi <= hi2 && flo <= fhi <= fhi2
    requires Adds(srcFiles, files, flo, fhi) && FilesHang(srcFiles, files, lo, hi) && FilesNamed(files, lo, nodes, i)
    requires Adds(files, files2, fhi, fhi2) && FilesHang(files, files2, hi, hi2)
    ensures Adds(srcFiles, files2, flo, fhi2) && FilesHang(srcFiles, files2, lo, hi2) && FilesNamed(files2, lo, nodes, i + 1)
  {
    AddsCompose(srcFiles, files, files2, flo, fhi, fhi2);
    forall g | g in files2 && files2[g].directoryId == Some(lo)
      ensures exists j :: 0 <= j < i + 1 && nodes[j].nodeType == FileNode && files2[g].name == nodes[j].name
    {
      var j :| 0 <= j < i && nodes[j].nodeType == FileNode && files[g].name == nodes[j].name;
      assert files2[g] == files[g];
    }
  }

  /** The directory side of one directory node copied: the copy of its subtree `sc`, hanging
      below the copy of `d`, joins the copy of `d` and of the subtrees `sb` so far. */
  lemma DirCopyDoneDirs(src: map<int, Dir>, d: int, c: int, sb: set<int>, sc: set<int>, scNow: set<int>, sb2: set<int>,
                        nodes: seq<FSNode>, i: nat, dirs: map<int, Dir>, m: map<int, int>, lo: int, hi: int,
                        top: Dir, owner: int, now: int, dirs2: map<int, Dir>, m2: map<int, int>, hi2: int)
    requires i < |nodes| && nodes[i].nodeType == DirectoryNode
    requires c in src && src[c].parentId == Some(d) && nodes[i].name == src[c].name
    requires sb2 == sb + sc && sb !! sc && d !in sc && sc <= src.Keys
    requires Adds(src, dirs, lo, hi) && RowsHang(src, dirs, lo, hi, top.parentId) && DirsNamed(dirs, lo, nodes, i)
    requires DirsCopied(src, {d} + sb, d, dirs, m, lo, hi, top, owner, now)
    requires Adds(dirs, dirs2, hi, hi2) && RowsHang(dirs, dirs2, hi, hi2, Some(lo))
    requires DirsCopied(dirs, scNow, c, dirs2, m2, hi, hi2, Dir(nodes[i].name, Some(lo), owner, now, now), owner, now)
    requires scNow == sc
    ensures lo < hi <= hi2
    ensures Adds(src, dirs2, lo, hi2) && RowsHang(src, dirs2, lo, hi2, top.parentId) && DirsNamed(dirs2, lo, nodes, i + 1)
    ensures DirsCopied(src, {d} + sb2, d, dirs2, m + m2, lo, hi2, top, owner, now)
  {
    assert lo < hi <= hi2 by {
      assert d in m && c in m2;
    }
    DirStepHang(src, nodes, i, dirs, lo, hi, top.parentId, dirs2, hi2);
    assert ({d} + sb) + sc == {d} + sb2;
    ComposeDirs(src, {d} + sb, d, dirs, m, lo, hi, top, sc, c, dirs2, m2, hi2, owner, now);
  }

  /** The file side of one directory node copied: the copies of the files in the subtree `sc`
      join the copies so far, those of the files in `sb` and of the files `fb` of `d`. */
  lemma DirCopyDoneFiles(src: map<int, Dir>, srcFiles: map<int, FileRow>, d: int, sb: set<int>, sc: set<int>,
                         scNow: set<int>, sb2: set<int>, fb: set<int>, nodes: seq<FSNode>, i: nat, files: map<int, FileRow>,
                         m: map<int, int>, fm: map<int, int>, lo: int, hi: int, flo: int, fhi: int, owner: int, now: int,
                         files2: map<int, FileRow>, m2: map<int, int>, fm2: map<int, int>, hi2: int, fhi2: int)
    requires i < |nodes| && lo < hi <= hi2 && flo <= fhi <= fhi2
    requires sb2 == sb + sc && sb !! sc && d !in sc && sc <= src.Keys && DirIdsBelow(src, lo)
    requires forall f :: f in fb ==> f in srcFiles && srcFiles[f].directoryId == Some(d)
    requires m.Keys == {d} + sb && m2.Keys == scNow && scNow == sc
    requires Adds(srcFiles, files, flo, fhi) && FilesHang(srcFiles, files, lo, hi) && FilesNamed(files, lo, nodes, i)
    requires FilesCopied(srcFiles, FilesUnder(srcFiles, sb) + fb, files, fm, flo, fhi, m, owner, now)
    requires Adds(files, files2, fhi, fhi2) && FilesHang(files, files2, hi, hi2)
    requires FilesCopied(files, FilesUnder(files, scNow), files2, fm2, fhi, fhi2, m2, owner, now)
    ensures Adds(srcFiles, files2, flo, fhi2) && FilesHang(srcFiles, files2, lo, hi2) && FilesNamed(files2, lo, nodes, i + 1)
    ensures FilesCopied(srcFiles, FilesUnder(srcFiles, sb2) + fb, files2, fm + fm2, flo, fhi2, m + m2, owner, now)
  {
    DirStepFilesHang(srcFiles, nodes, i, files, lo, hi, flo, fhi, files2, hi2, fhi2);
    AddedKeepsFilesUnder(srcFiles, files, flo, fhi, lo, hi, sc);
    forall f | f in FilesUnder(srcFiles, sc) ensures f !in FilesUnder(srcFiles, sb) + fb {
      assert srcFiles[f].directoryId.value in sc;
    }
    assert FilesUnder(srcFiles, sb2) + fb == (FilesUnder(srcFiles, sb) + fb) + FilesUnder(srcFiles, sc);
    ComposeFiles(srcFiles, FilesUnder(srcFiles, sb) + fb, files, fm, flo, fhi, m,
                 FilesUnder(srcFiles, sc), files2, fm2, fhi2, m2, owner, now);
  }

  /** The subtree of a listed directory splits off from the rows the earlier nodes cover. */
  lemma DirStepSets(src: map<int, Dir>, rank0: map<int, nat>, srcFiles: map<int, FileRow>, d: int,
                    nodes: seq<FSNode>, nd: int, i: nat)
    requires Ranked(src, rank0) && d in src && ListsChildren(src, srcFiles, d, nodes, nd)
    requires i < |nodes| && nodes[i].nodeType == DirectoryNode
    ensures var sb := SubtreesBefore(src, rank0, nodes, i);
      var sc := Sub(src, rank0, nodes[i].id);
      && SubtreesBefore(src, rank0, nodes, i + 1) == sb + sc && FilesBefore(nodes, i + 1) == FilesBefore(nodes, i)
      && sb !! sc && d !in sc && sc <= src.Keys
      && nodes[i].id in src && src[nodes[i].id].parentId == Some(d) && nodes[i].name == src[nodes[i].id].name
  {
    BeforeStep(src, rank0, nodes, i);
    BeforeMissesNext(src, srcFiles, rank0, d, nodes, nd, i);
    SubtreeShrinks(src, rank0, nodes[i].id, d);
  }

  /** The file nodes listed so far name files of `d`. */
  lemma FilesBeforeInDir(src: map<int, Dir>, srcFiles: map<int, FileRow>, d: int, nodes: seq<FSNode>, nd: int, i: nat)
    requires ListsChildren(src, srcFiles, d, nodes, nd) && i <= |nodes|
    ensures forall f :: f in FilesBefore(nodes, i) ==> f in srcFiles && srcFiles[f].directoryId == Some(d)
  {
    forall f | f in FilesBefore(nodes, i) ensures f in srcFiles && srcFiles[f].directoryId == Some(d) {
      var j :| 0 <= j < i && nodes[j].nodeType == FileNode && nodes[j].id == f;
    }
  }

  /** After the copy of the listed directory `nodes[i]` below the copy of `d`: the copy covers
      the first `i + 1` nodes. */
  lemma DirCopyDone(src: map<int, Dir>, rank0: map<int, nat>, srcFiles: map<int, FileRow>, d: int,
                    nodes: seq<FSNode>, nd: int, i: nat, dirs: map<int, Dir>, rank: map<int, nat>, files: map<int, FileRow>,
                    m: map<int, int>, fm: map<int, int>, lo: int, hi: int, flo: int, fhi: int, top: Dir, owner: int, now: int,
                    dirs2: map<int, Dir>, files2: map<int, FileRow>, m2: map<int, int>, fm2: map<int, int>, hi2: int, fhi2: int)
    requires Ranked(src, rank0) && DirIdsBelow(src, lo) && d in src && ListsChildren(src, srcFiles, d, nodes, nd)
    requires i < |nodes| && nodes[i].nodeType == DirectoryNode
    requires CopyProgress(src, rank0, srcFiles, d, nodes, i, dirs, files, m, fm, lo, hi, flo, fhi, top, owner, now)
    requires Ranked(dirs, rank) && Sub(dirs, rank, nodes[i].id) == Sub(src, rank0, nodes[i].id)
    requires TreeCopied(dirs, rank, files, nodes[i].id, dirs2, files2, m2, fm2, hi, hi2, fhi, fhi2,
                        Dir(nodes[i].name, Some(lo), owner, now, now), owner, now)
    ensures CopyProgress(src, rank0, srcFiles, d, nodes, i + 1, dirs2, files2, m + m2, fm + fm2, lo, hi2, flo, fhi2, top, owner, now)
  {
    var c := nodes[i].id;
    var sb := SubtreesBefore(src, rank0, nodes, i);
    var sc := Sub(src, rank0, c);
    var sb2 := SubtreesBefore(src, rank0, nodes, i + 1);
    DirStepSets(src, rank0, srcFiles, d, nodes, nd, i);
    FilesBeforeInDir(src, srcFiles, d, nodes, nd, i);
    var scNow := Sub(dirs, rank, c);
    DirCopyDoneDirs(src, d, c, sb, sc, scNow, sb2, nodes, i, dirs, m, lo, hi, top, owner, now, dirs2, m2, hi2);
    DirCopyDoneFiles(src, srcFiles, d, sb, sc, scNow, sb2, FilesBefore(nodes, i), nodes, i, files, m, fm, lo, hi, flo, fhi,
                     owner, now, files2, m2, fm2, hi2, fhi2);
  }

  /** One more file copied under the next id. */
  lemma FileStepCopied(srcFiles: map<int, FileRow>, keys: set<int>, files: map<int, FileRow>, fm: map<int, int>,
                       flo: int, fhi: int, m: map<int, int>, f: int, row: FileRow, owner: int, now: int)
    requires FilesCopied(srcFiles, keys, files, fm, flo, fhi, m, owner, now) && f !in keys && fhi !in files && flo <= fhi
    requires f in srcFiles && srcFiles[f].directoryId.Some? && srcFiles[f].directoryId.value in m
    requires row == CopiedRow(srcFiles[f], Some(m[srcFiles[f].directoryId.value]), srcFiles[f].name, owner, now)
    ensures FilesCopied(srcFiles, keys + {f}, files[fhi := row], fm[f := fhi], flo, fhi + 1, m, owner, now)
  {
    var fm2 := fm[f := fhi];
    var files2 := files[fhi := row];
    forall g | g in fm2 ensures flo <= fm2[g] < fhi + 1 && fm2[g] in files2 {
    }
    forall g, h | g in fm2 && h in fm2 && fm2[g] == fm2[h] ensures g == h {
      assert if g == f then fm2[g] == fhi else fm2[g] < fhi;
      assert if h == f then fm2[h] == fhi else fm2[h] < fhi;
    }
    forall g | g in fm2 ensures files2[fm2[g]] == CopiedRow(srcFiles[g], Some(m[srcFiles[g].directoryId.value]), srcFiles[g].name, owner, now) {
      assert if g == f then fm2[g] == fhi else fm2[g] < fhi && files2[fm2[g]] == files[fm[g]];
    }
    forall j | flo <= j < fhi + 1 ensures j in Image(fm2) {
      if j < fhi {
        var g := KeyOf(fm, j);
        assert fm2[g] == j;
      } else {
        assert fm2[f] == j;
      }
    }
  }

  /** The rows below the copy after one file node copied into it. */
  lemma FileStepHang(srcFiles: map<int, FileRow>, nodes: seq<FSNode>, i: nat, dirs: map<int, Dir>,
                     files: map<int, FileRow>, lo: int, hi: int, flo: int, fhi: int, row: FileRow)
    requires i < |nodes| && nodes[i].nodeType == FileNode && lo < hi && flo <= fhi
    requires Adds(srcFiles, files, flo, fhi) && FilesHang(srcFiles, files, lo, hi) && FilesNamed(files, lo, nodes, i)
    requires DirsNamed(dirs, lo, nodes, i) && fhi !in srcFiles
    requires row.directoryId == Some(lo) && row.name == nodes[i].name
    ensures Adds(srcFiles, files[fhi := row], flo, fhi + 1) && FilesHang(srcFiles, files[fhi := row], lo, hi)
    ensures FilesNamed(files[fhi := row], lo, nodes, i + 1) && DirsNamed(dirs, lo, nodes, i + 1)
  {
    var files2 := files[fhi := row];
    forall g | g in files2 && files2[g].directoryId == Some(lo)
      ensures exists j :: 0 <= j < i + 1 && nodes[j].nodeType == FileNode && files2[g].name == nodes[j].name
    {
      if g != fhi {
        var j :| 0 <= j < i && nodes[j].nodeType == FileNode && files[g].name == nodes[j].name;
      }
    }
    forall y | y in dirs && dirs[y].parentId == Some(lo)
      ensures exists j :: 0 <= j < i + 1 && nodes[j].nodeType == DirectoryNode && dirs[y].name == nodes[j].name
    {
      var j :| 0 <= j < i && nodes[j].nodeType == DirectoryNode && dirs[y].name == nodes[j].name;
    }
  }

  /** After the copy of the listed file `nodes[i]` into the copy of `d`: the copy covers the
      first `i + 1` nodes. */
  lemma FileCopyDone(src: map<int, Dir>, rank0: map<int, nat>, srcFiles: map<int, FileRow>, d: int,
                     nodes: seq<FSNode>, nd: int, i: nat, dirs: map<int, Dir>, files: map<int, FileRow>,
                     m: map<int, int>, fm: map<int, int>, lo: int, hi: int, flo: int, fhi: int, top: Dir, owner: int, now: int,
                     row: FileRow, files2: map<int, FileRow>)
    requires Ranked(src, rank0) && FileIdsBelow(srcFiles, flo) && d in src && ListsChildren(src, srcFiles, d, nodes, nd)
    requires i < |nodes| && nodes[i].nodeType == FileNode
    requires CopyProgress(src, rank0, srcFiles, d, nodes, i, dirs, files, m, fm, lo, hi, flo, fhi, top, owner, now)
    requires row == CopiedRow(srcFiles[nodes[i].id], Some(lo), nodes[i].name, owner, now) && files2 == files[fhi := row]
    ensures CopyProgress(src, rank0, srcFiles, d, nodes, i + 1, dirs, files2, m, fm[nodes[i].id := fhi],
                         lo, hi, flo, fhi + 1, top, owner, now)
  {
    var f := nodes[i].id;
    assert nd <= i && srcFiles[f].directoryId == Some(d) && nodes[i].name == srcFiles[f].name;
    assert lo < hi by {
      assert d in m;
    }
    BeforeStep(src, rank0, nodes, i);
    FileNotYetCopied(src, rank0, srcFiles, d, nodes, nd, i);
    var keys := FilesUnder(srcFiles, SubtreesBefore(src, rank0, nodes, i)) + FilesBefore(nodes, i);
    assert keys + {f} == FilesUnder(srcFiles, SubtreesBefore(src, rank0, nodes, i + 1)) + FilesBefore(nodes, i + 1);
    FileStepCopied(srcFiles, keys, files, fm, flo, fhi, m, f, row, owner, now);
    FileStepHang(srcFiles, nodes, i, dirs, files, lo, hi, flo, fhi, row);
  }

  /** Once every listed node is copied, the copy is a whole copy of the subtree of `d`. */
  lemma CopyFinishes(src: map<int, Dir>, rank0: map<int, nat>, srcFiles: map<int, FileRow>, d: int,
                     nodes: seq<FSNode>, nd: int, dirs: map<int, Dir>, files: map<int, FileRow>,
                     m: map<int, int>, fm: map<int, int>, lo: int, hi: int, flo: int, fhi: int, top: Dir, owner: int, now: int)
    requires Ranked(src, rank0) && d in src && ListsChildren(src, srcFiles, d, nodes, nd)
    requires CopyProgress(src, rank0, srcFiles, d, nodes, |nodes|, dirs, files, m, fm, lo, hi, flo, fhi, top, owner, now)
    ensures TreeCopied(src, rank0, srcFiles, d, dirs, files, m, fm, lo, hi, flo, fhi, top, owner, now)
  {
    var sub := Sub(src, rank0, d);
    var before := SubtreesBefore(src, rank0, nodes, |nodes|);
    ListingCovers(src, srcFiles, rank0, d, nodes, nd);
    SubtreeRoot(src, rank0, d, d);
    assert {d} + before == sub;
    DirsCopiedSameKeys(src, {d} + before, sub, d, dirs, m, lo, hi, top, owner, now);
    FilesCopiedSameKeys(srcFiles, FilesUnder(srcFiles, before) + FilesBefore(nodes, |nodes|), FilesUnder(srcFiles, sub),
                        files, fm, flo, fhi, m, owner, now);
  }

  lemma DirsCopiedSameKeys(src: map<int, Dir>, keys: set<int>, keys2: set<int>, d: int, dst: map<int, Dir>, m: map<int, int>,
                           lo: int, hi: int, top: Dir, owner: int, now: int)
    requires DirsCopied(src, keys, d, dst, m, lo, hi, top, owner, now) && keys == keys2
    ensures DirsCopied(src, keys2, d, dst, m, lo, hi, top, owner, now)
  {
  }

  lemma FilesCopiedSameKeys(src: map<int, FileRow>, keys: set<int>, keys2: set<int>, dst: map<int, FileRow>, fm: map<int, int>,
                            lo: int, hi: int, m: map<int, int>, owner: int, now: int)
    requires FilesCopied(src, keys, dst, fm, lo, hi, m, owner, now) && keys == keys2
    ensures FilesCopied(src, keys2, dst, fm, lo, hi, m, owner, now)
  {
  }
}
