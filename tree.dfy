/** The directory tree the `directories` table encodes through `parentId`: acyclicity, subtrees,
    and how a path's segments resolve one directory at a time. */
module Tree {
  import opened Wrappers
  import opened Schema
  import Paths

  /** A witness that the parent links have no cycle: every parent ranks below its child. */
  ghost predicate Ranked(dirs: map<int, Dir>, rank: map<int, nat>)
  {
    forall i :: i in dirs ==>
      && i in rank
      && (dirs[i].parentId.Some? ==>
            && dirs[i].parentId.value in dirs
            && dirs[i].parentId.value in rank
            && rank[dirs[i].parentId.value] < rank[i])
  }

  /** Following parent links from `x` reaches `d`. */
  ghost predicate InSubtree(dirs: map<int, Dir>, rank: map<int, nat>, x: int, d: int)
    requires Ranked(dirs, rank) && x in dirs
    decreases rank[x]
  {
    x == d || (dirs[x].parentId.Some? && InSubtree(dirs, rank, dirs[x].parentId.value, d))
  }

  /** The subtree rooted at `d`: `d` and everything below it. */
  ghost function Sub(dirs: map<int, Dir>, rank: map<int, nat>, d: int): set<int>
    requires Ranked(dirs, rank)
  {
    set x | x in dirs && InSubtree(dirs, rank, x, d)
  }

  /** The subtree of the directory `path` names; empty when it names none or the root. */
  ghost function SubtreeAt(dirs: map<int, Dir>, rank: map<int, nat>, owner: int, wd: string, path: string): set<int>
    requires Ranked(dirs, rank)
  {
    match ResolveDir(dirs, owner, wd, path)
    case Success(Some(d)) => Sub(dirs, rank, d)
    case _ => {}
  }

  /** No row outside `r` has its parent inside `r`. */
  ghost predicate DownwardClosed(dirs: map<int, Dir>, r: set<int>)
  {
    forall x :: x in dirs && dirs[x].parentId.Some? && dirs[x].parentId.value in r ==> x in r
  }

  /** The file rows that sit in a directory of `s`. */
  function FilesUnder(files: map<int, FileRow>, s: set<int>): set<int>
  {
    set f | f in files && files[f].directoryId.Some? && files[f].directoryId.value in s
  }

  // ---------------------------------------------------------------------------------------
  // Subtrees

  /** Which ranking witnesses acyclicity does not matter. */
  lemma {:induction false} RankIndependent(dirs: map<int, Dir>, r1: map<int, nat>, r2: map<int, nat>, x: int, d: int)
    requires Ranked(dirs, r1) && Ranked(dirs, r2) && x in dirs
    ensures InSubtree(dirs, r1, x, d) == InSubtree(dirs, r2, x, d)
    decreases r1[x]
  {
    if x != d && dirs[x].parentId.Some? {
      RankIndependent(dirs, r1, r2, dirs[x].parentId.value, d);
    }
  }

  lemma SubRankIndependent(dirs: map<int, Dir>, r1: map<int, nat>, r2: map<int, nat>, d: int)
    requires Ranked(dirs, r1) && Ranked(dirs, r2)
    ensures Sub(dirs, r1, d) == Sub(dirs, r2, d)
  {
    forall x | x in dirs ensures InSubtree(dirs, r1, x, d) == InSubtree(dirs, r2, x, d) {
      RankIndependent(dirs, r1, r2, x, d);
    }
  }

  /** A subtree's root is a row, ranks lowest in it, and is its only member with that rank. */
  lemma {:induction false} SubtreeRoot(dirs: map<int, Dir>, rank: map<int, nat>, x: int, d: int)
    requires Ranked(dirs, rank) && x in dirs && InSubtree(dirs, rank, x, d)
    ensures d in dirs && rank[d] <= rank[x]
    ensures x != d ==> rank[d] < rank[x]
    decreases rank[x]
  {
    if x != d {
      SubtreeRoot(dirs, rank, dirs[x].parentId.value, d);
    }
  }

  lemma {:induction false} SubtreeTransitive(dirs: map<int, Dir>, rank: map<int, nat>, x: int, y: int, d: int)
    requires Ranked(dirs, rank) && x in dirs && y in dirs
    requires InSubtree(dirs, rank, x, y) && InSubtree(dirs, rank, y, d)
    ensures InSubtree(dirs, rank, x, d)
    decreases rank[x]
  {
    if x != y {
      SubtreeTransitive(dirs, rank, dirs[x].parentId.value, y, d);
    }
  }

  /** Two directories above a common descendant lie one above the other. */
  lemma {:induction false} AncestorsComparable(dirs: map<int, Dir>, rank: map<int, nat>, x: int, a: int, b: int)
    requires Ranked(dirs, rank) && x in dirs
    requires InSubtree(dirs, rank, x, a) && InSubtree(dirs, rank, x, b)
    ensures a in dirs && b in dirs
    ensures InSubtree(dirs, rank, a, b) || InSubtree(dirs, rank, b, a)
    decreases rank[x]
  {
    SubtreeRoot(dirs, rank, x, a);
    SubtreeRoot(dirs, rank, x, b);
    if x != a && x != b {
      AncestorsComparable(dirs, rank, dirs[x].parentId.value, a, b);
    }
  }

  /** The subtrees of two distinct children of one directory share no row. */
  lemma SiblingSubtreesDisjoint(dirs: map<int, Dir>, rank: map<int, nat>, c1: int, c2: int)
    requires Ranked(dirs, rank) && c1 in dirs && c2 in dirs && c1 != c2
    requires dirs[c1].parentId.Some? && dirs[c1].parentId == dirs[c2].parentId
    ensures Sub(dirs, rank, c1) !! Sub(dirs, rank, c2)
  {
    forall x | x in Sub(dirs, rank, c1) && x in Sub(dirs, rank, c2) ensures false {
      AncestorsComparable(dirs, rank, x, c1, c2);
      var p := dirs[c1].parentId.value;
      if InSubtree(dirs, rank, c1, c2) {
        SubtreeRoot(dirs, rank, p, c2);
      } else {
        SubtreeRoot(dirs, rank, p, c1);
      }
    }
  }

  /** Below `d`, every row lies in the subtree of exactly one child of `d`. */
  lemma {:induction false} ChildAbove(dirs: map<int, Dir>, rank: map<int, nat>, x: int, d: int) returns (c: int)
    requires Ranked(dirs, rank) && x in dirs && InSubtree(dirs, rank, x, d) && x != d
    ensures c in dirs && dirs[c].parentId == Some(d) && InSubtree(dirs, rank, x, c)
    decreases rank[x]
  {
    var p := dirs[x].parentId.value;
    if p == d {
      c := x;
    } else {
      c := ChildAbove(dirs, rank, p, d);
    }
  }

  /** A subtree is its root together with the subtrees of the root's children. */
  lemma SubtreeDecomposes(dirs: map<int, Dir>, rank: map<int, nat>, d: int, x: int)
    requires Ranked(dirs, rank) && d in dirs
    ensures x in Sub(dirs, rank, d) <==>
      x == d || exists c :: c in dirs && dirs[c].parentId == Some(d) && x in Sub(dirs, rank, c)
  {
    if x in Sub(dirs, rank, d) && x != d {
      var c := ChildAbove(dirs, rank, x, d);
      assert x in Sub(dirs, rank, c);
    }
    if exists c :: c in dirs && dirs[c].parentId == Some(d) && x in Sub(dirs, rank, c) {
      var c :| c in dirs && dirs[c].parentId == Some(d) && x in Sub(dirs, rank, c);
      SubtreeTransitive(dirs, rank, x, c, d);
    }
  }

  lemma SubtreeIsClosed(dirs: map<int, Dir>, rank: map<int, nat>, d: int)
    requires Ranked(dirs, rank)
    ensures DownwardClosed(dirs, Sub(dirs, rank, d))
  {
  }

  lemma ClosedUnion(dirs: map<int, Dir>, a: set<int>, b: set<int>)
    requires DownwardClosed(dirs, a) && DownwardClosed(dirs, b)
    ensures DownwardClosed(dirs, a + b)
  {
  }

  /** Removing a downward-closed set of rows keeps the ranking and leaves every remaining row's
      ancestry as it was. */
  lemma {:induction false} RemovalKeepsAncestry(dirs: map<int, Dir>, rank: map<int, nat>, r: set<int>, x: int, d: int)
    requires Ranked(dirs, rank) && DownwardClosed(dirs, r) && x in dirs && x !in r
    ensures Ranked(dirs - r, rank)
    ensures InSubtree(dirs - r, rank, x, d) == InSubtree(dirs, rank, x, d)
    decreases rank[x]
  {
    var rest := dirs - r;
    assert Ranked(rest, rank);
    if x != d && dirs[x].parentId.Some? {
      RemovalKeepsAncestry(dirs, rank, r, dirs[x].parentId.value, d);
    }
  }

  /** Removing a downward-closed set that misses the subtree of `c` leaves that subtree alone. */
  lemma RemovalKeepsSubtree(dirs: map<int, Dir>, rank: map<int, nat>, r: set<int>, c: int)
    requires Ranked(dirs, rank) && DownwardClosed(dirs, r) && Sub(dirs, rank, c) !! r
    ensures Ranked(dirs - r, rank)
    ensures Sub(dirs - r, rank, c) == Sub(dirs, rank, c)
  {
    var rest := dirs - r;
    assert Ranked(rest, rank);
    forall x | x in rest ensures InSubtree(rest, rank, x, c) == InSubtree(dirs, rank, x, c) {
      RemovalKeepsAncestry(dirs, rank, r, x, c);
    }
  }

  // ---------------------------------------------------------------------------------------
  // Resolving segments

  /** The lookup one step of `getDirectory` and `createDirectory` runs: a directory with this
      name and owner whose parent is `at` (`at` none: at the owner's root). */
  predicate Matches(d: Dir, owner: int, at: Option<int>, name: string)
  {
    d.name == name && d.ownerId == owner && d.parentId == at
  }

  ghost function Child(dirs: map<int, Dir>, owner: int, at: Option<int>, name: string): (r: Option<int>)
    ensures r.Some? ==> r.value in dirs && Matches(dirs[r.value], owner, at, name)
    ensures r.None? ==> forall i :: i in dirs ==> !Matches(dirs[i], owner, at, name)
  {
    if exists i :: i in dirs && Matches(dirs[i], owner, at, name) then
      Some(var i :| i in dirs && Matches(dirs[i], owner, at, name); i)
    else
      None
  }

  /** The unique index makes the lookup's answer the only match. */
  lemma ChildIsTheMatch(dirs: map<int, Dir>, owner: int, at: Option<int>, name: string, i: int)
    requires UniqueDirKeys(dirs) && i in dirs && Matches(dirs[i], owner, at, name)
    ensures Child(dirs, owner, at, name) == Some(i)
  {
    var c := Child(dirs, owner, at, name);
    assert DirKey(dirs[c.value]) == DirKey(dirs[i]);
  }

  /** Resolve `segs` one at a time starting below `at`: the directory reached (none: the root),
      or none at all when some segment has no match. */
  ghost function Walk(dirs: map<int, Dir>, owner: int, at: Option<int>, segs: seq<string>): Option<Option<int>>
    decreases |segs|
  {
    if |segs| == 0 then Some(at)
    else
      match Child(dirs, owner, at, segs[0])
      case None => None
      case Some(c) => Walk(dirs, owner, Some(c), segs[1..])
  }

  /** Walking the segments from the `i`-th on: the `i`-th is looked up below `at`, then the rest
      below what it names. */
  lemma WalkStep(dirs: map<int, Dir>, owner: int, at: Option<int>, segs: seq<string>, i: nat)
    requires i < |segs|
    ensures Walk(dirs, owner, at, segs[i..]) ==
      match Child(dirs, owner, at, segs[i])
      case None => None
      case Some(c) => Walk(dirs, owner, Some(c), segs[i + 1..])
  {
    assert segs[i..][0] == segs[i] && segs[i..][1..] == segs[i + 1..];
  }

  /** What `getDirectory(path)` answers: the root (none), the directory the path names, or
      `NotFound`. */
  ghost function ResolveDir(dirs: map<int, Dir>, owner: int, wd: string, path: string): Result<Option<int>>
  {
    match Walk(dirs, owner, None, Paths.Segments(wd, path))
    case None => Failure(NotFound)
    case Some(at) => Success(at)
  }

  /** The longest prefix of `segs` that resolves below `at`, and where it ends. */
  ghost function Prefix(dirs: map<int, Dir>, owner: int, at: Option<int>, segs: seq<string>): (r: (nat, Option<int>))
    ensures r.0 <= |segs|
    decreases |segs|
  {
    if |segs| == 0 then (0, at)
    else
      match Child(dirs, owner, at, segs[0])
      case None => (0, at)
      case Some(c) =>
        var (k, end) := Prefix(dirs, owner, Some(c), segs[1..]);
        (k + 1, end)
  }

  lemma {:induction false} WalkSnoc(dirs: map<int, Dir>, owner: int, at: Option<int>, segs: seq<string>, name: string)
    ensures Walk(dirs, owner, at, segs + [name]) ==
      match Walk(dirs, owner, at, segs)
      case None => None
      case Some(x) =>
        match Child(dirs, owner, x, name)
        case None => None
        case Some(c) => Some(Some(c))
    decreases |segs|
  {
    var s := segs + [name];
    if |segs| == 0 {
      assert s[1..] == [];
    } else {
      assert s[0] == segs[0] && s[1..] == segs[1..] + [name];
      var c := Child(dirs, owner, at, segs[0]);
      if c.Some? {
        WalkSnoc(dirs, owner, c, segs[1..], name);
      }
    }
  }

  /** Resolving `a + b` resolves `a`, then `b` below where `a` ends. */
  lemma {:induction false} WalkConcat(dirs: map<int, Dir>, owner: int, at: Option<int>, a: seq<string>, b: seq<string>)
    ensures Walk(dirs, owner, at, a + b) ==
      match Walk(dirs, owner, at, a)
      case None => None
      case Some(x) => Walk(dirs, owner, x, b)
    decreases |a|
  {
    if |a| == 0 {
      assert a + b == b;
    } else {
      assert (a + b)[0] == a[0] && (a + b)[1..] == a[1..] + b;
      var c := Child(dirs, owner, at, a[0]);
      if c.Some? {
        WalkConcat(dirs, owner, c, a[1..], b);
      }
    }
  }

  /** The longest resolving prefix does resolve, and the segment after it has no match. */
  lemma {:induction false} PrefixResolves(dirs: map<int, Dir>, owner: int, at: Option<int>, segs: seq<string>)
    ensures var (k, end) := Prefix(dirs, owner, at, segs);
      && Walk(dirs, owner, at, segs[..k]) == Some(end)
      && (k < |segs| ==> Child(dirs, owner, end, segs[k]).None?)
      && (k == |segs| <==> Walk(dirs, owner, at, segs).Some?)
      && (k == |segs| ==> Walk(dirs, owner, at, segs) == Some(end))
    decreases |segs|
  {
    if |segs| != 0 {
      var c := Child(dirs, owner, at, segs[0]);
      if c.Some? {
        PrefixResolves(dirs, owner, c, segs[1..]);
        var (k, end) := Prefix(dirs, owner, c, segs[1..]);
        assert segs[..k + 1][0] == segs[0];
        assert segs[..k + 1][1..] == segs[1..][..k];
      } else {
        assert segs[..0] == [];
      }
    }
  }

  /** Map `small` sits inside `big` with the same rows. */
  ghost predicate Extends<T>(big: map<int, T>, small: map<int, T>)
  {
    forall i :: i in small ==> i in big && big[i] == small[i]
  }

  /** Adding rows never changes what an existing path resolves to: the unique index keeps the
      old match the only one. */
  lemma {:induction false} WalkExtends(small: map<int, Dir>, big: map<int, Dir>, owner: int, at: Option<int>, segs: seq<string>)
    requires Extends(big, small) && UniqueDirKeys(big)
    requires Walk(small, owner, at, segs).Some?
    ensures Walk(big, owner, at, segs) == Walk(small, owner, at, segs)
    decreases |segs|
  {
    if |segs| != 0 {
      var c := Child(small, owner, at, segs[0]);
      ChildIsTheMatch(big, owner, at, segs[0], c.value);
      WalkExtends(small, big, owner, c, segs[1..]);
    }
  }

  lemma {:induction false} WalkStaysInClosed(dirs: map<int, Dir>, r: set<int>, owner: int, c: int, segs: seq<string>)
    requires DownwardClosed(dirs, r) && c in r
    requires Walk(dirs, owner, Some(c), segs).Some?
    ensures Walk(dirs, owner, Some(c), segs).value.Some?
    ensures Walk(dirs, owner, Some(c), segs).value.value in r
    decreases |segs|
  {
    if |segs| != 0 {
      var c' := Child(dirs, owner, Some(c), segs[0]);
      WalkStaysInClosed(dirs, r, owner, c'.value, segs[1..]);
    }
  }

  /** Removing a downward-closed set that does not hold a path's target leaves the path
      resolving to it. */
  lemma {:induction false} WalkAfterRemoval(dirs: map<int, Dir>, r: set<int>, owner: int, at: Option<int>, segs: seq<string>)
    requires UniqueDirKeys(dirs) && DownwardClosed(dirs, r)
    requires at.Some? ==> at.value !in r
    requires Walk(dirs, owner, at, segs).Some?
    requires var y := Walk(dirs, owner, at, segs).value; y.Some? ==> y.value !in r
    ensures Walk(dirs - r, owner, at, segs) == Walk(dirs, owner, at, segs)
    decreases |segs|
  {
    if |segs| != 0 {
      var c := Child(dirs, owner, at, segs[0]).value;
      if c in r {
        WalkStaysInClosed(dirs, r, owner, c, segs[1..]);
      }
      ChildIsTheMatch(dirs - r, owner, at, segs[0], c);
      WalkAfterRemoval(dirs, r, owner, Some(c), segs[1..]);
    }
  }

  /** A resolved directory belongs to the resolving owner and carries the last segment's name. */
  lemma {:induction false} WalkTarget(dirs: map<int, Dir>, owner: int, at: Option<int>, segs: seq<string>)
    requires |segs| != 0 && Walk(dirs, owner, at, segs).Some?
    ensures var y := Walk(dirs, owner, at, segs).value;
      && y.Some? && y.value in dirs
      && dirs[y.value].ownerId == owner
      && dirs[y.value].name == segs[|segs| - 1]
      && Walk(dirs, owner, at, segs[..|segs| - 1]) == Some(dirs[y.value].parentId)
  {
    var init := segs[..|segs| - 1];
    assert segs == init + [segs[|segs| - 1]];
    WalkSnoc(dirs, owner, at, init, segs[|segs| - 1]);
  }

  // ---------------------------------------------------------------------------------------
  // The chain `createDirectory` inserts

  /** Fresh rows `start`, `start + 1`, … named by `names`, each the parent of the next, the first
      under `parent`. */
  function Chain(start: int, parent: Option<int>, names: seq<string>, owner: int, now: int): map<int, Dir>
    decreases |names|
  {
    if |names| == 0 then map[]
    else
      Chain(start + 1, Some(start), names[1..], owner, now)[start := Dir(names[0], parent, owner, now, now)]
  }

  lemma {:induction false} ChainShape(start: int, parent: Option<int>, names: seq<string>, owner: int, now: int)
    ensures forall i :: i in Chain(start, parent, names, owner, now) <==> start <= i < start + |names|
    ensures forall i :: i in Chain(start, parent, names, owner, now) ==>
      Chain(start, parent, names, owner, now)[i] ==
        Dir(names[i - start], if i == start then parent else Some(i - 1), owner, now, now)
    decreases |names|
  {
    if |names| != 0 {
      var tail := Chain(start + 1, Some(start), names[1..], owner, now);
      ChainShape(start + 1, Some(start), names[1..], owner, now);
      var ch := Chain(start, parent, names, owner, now);
      assert ch == tail[start := Dir(names[0], parent, owner, now, now)];
      forall i | i in ch
        ensures start <= i < start + |names|
        ensures ch[i] == Dir(names[i - start], if i == start then parent else Some(i - 1), owner, now, now)
      {
        if i != start {
          assert i in tail;
          assert names[1..][i - (start + 1)] == names[i - start];
        }
      }
      forall i | start <= i < start + |names| ensures i in ch {
        if i != start {
          assert i in tail;
        }
      }
    }
  }

  /** Growing the chain by one name adds one row, under the chain's last row. */
  lemma ChainSnoc(start: int, at: Option<int>, names: seq<string>, name: string, owner: int, now: int)
    ensures Chain(start, at, names + [name], owner, now) ==
      Chain(start, at, names, owner, now)[start + |names| :=
        Dir(name, if |names| == 0 then at else Some(start + |names| - 1), owner, now, now)]
  {
    var long := Chain(start, at, names + [name], owner, now);
    var short := Chain(start, at, names, owner, now);
    var row := Dir(name, if |names| == 0 then at else Some(start + |names| - 1), owner, now, now);
    ChainShape(start, at, names + [name], owner, now);
    ChainShape(start, at, names, owner, now);
    forall i | i in long ensures i in short[start + |names| := row] && long[i] == short[start + |names| := row][i] {
      if i < start + |names| {
        assert (names + [name])[i - start] == names[i - start];
      }
    }
    assert forall i :: i in short[start + |names| := row] ==> i in long;
  }

  /** The chain, written out in order, resolves segment by segment to its last row. */
  lemma {:induction false} ChainWalk(m: map<int, Dir>, start: int, at: Option<int>, names: seq<string>, owner: int, now: int)
    requires Extends(m, Chain(start, at, names, owner, now)) && UniqueDirKeys(m)
    ensures Walk(m, owner, at, names) == Some(if |names| == 0 then at else Some(start + |names| - 1))
    decreases |names|
  {
    if |names| != 0 {
      var tail := Chain(start + 1, Some(start), names[1..], owner, now);
      ChainShape(start + 1, Some(start), names[1..], owner, now);
      assert start in Chain(start, at, names, owner, now);
      ChildIsTheMatch(m, owner, at, names[0], start);
      assert Extends(m, tail) by {
        forall i | i in tail ensures i in m && m[i] == tail[i] {
          assert i != start;
          assert i in Chain(start, at, names, owner, now);
        }
      }
      ChainWalk(m, start + 1, Some(start), names[1..], owner, now);
    }
  }

  /** The rank a row inserted below `parent` takes: one above its parent's. */
  ghost function RankBelow(rank: map<int, nat>, parent: Option<int>): nat
  {
    if parent.Some? && parent.value in rank then rank[parent.value] + 1 else 0
  }

  /** A row inserted under a new id below an existing directory keeps the tree ranked. */
  lemma InsertKeepsRanked(dirs: map<int, Dir>, rank: map<int, nat>, id: int, row: Dir)
    requires Ranked(dirs, rank) && id !in dirs
    requires row.parentId.Some? ==> row.parentId.value in dirs
    ensures Ranked(dirs[id := row], rank[id := RankBelow(rank, row.parentId)])
  {
    var d2, r2 := dirs[id := row], rank[id := RankBelow(rank, row.parentId)];
    forall i | i in d2
      ensures i in r2
      ensures d2[i].parentId.Some? ==>
        d2[i].parentId.value in d2 && d2[i].parentId.value in r2 && r2[d2[i].parentId.value] < r2[i]
    {
      if i == id {
        assert r2[id] == RankBelow(rank, row.parentId);
        if row.parentId.Some? {
          assert row.parentId.value != id && r2[row.parentId.value] == rank[row.parentId.value];
        }
      } else if d2[i].parentId.Some? {
        assert d2[i].parentId.value != id;
      }
    }
  }

  /** The ranks that place the chain `ch`, starting at id `start`, below `at`. */
  ghost function ChainRank(rank: map<int, nat>, ch: map<int, Dir>, start: int, at: Option<int>): map<int, nat>
  {
    var base: nat := if at.Some? && at.value in rank then rank[at.value] else 0;
    rank + map i | i in ch :: if i >= start then base + 1 + (i - start) else 0
  }

  /** Row `j` of the table is not the chain's row `i`'s duplicate. */
  lemma ChainRowFresh(dirs: map<int, Dir>, start: int, at: Option<int>, names: seq<string>, owner: int, now: int, i: int, j: int)
    requires DirIdsBelow(dirs, start) && ParentsExist(dirs)
    requires at.Some? ==> at.value in dirs
    requires |names| != 0 ==> Child(dirs, owner, at, names[0]).None?
    requires i in Chain(start, at, names, owner, now) && j in dirs
    ensures DirKey(Chain(start, at, names, owner, now)[i]) != DirKey(dirs[j])
  {
    ChainShape(start, at, names, owner, now);
    var row := Chain(start, at, names, owner, now)[i];
    assert Coalesce(dirs[j].parentId) < start;
    if i == start {
      assert !Matches(dirs[j], owner, at, names[0]);
      CoalesceKeysFaithful(row, dirs[j]);
    } else {
      assert Coalesce(row.parentId) >= start;
    }
  }

  /** Within the chain, the rows' parents tell them apart. */
  lemma ChainParentKeys(dirs: map<int, Dir>, start: int, at: Option<int>, names: seq<string>, owner: int, now: int, i: int)
    requires DirIdsBelow(dirs, start) && (at.Some? ==> at.value in dirs)
    requires i in Chain(start, at, names, owner, now)
    ensures i == start ==> Coalesce(Chain(start, at, names, owner, now)[i].parentId) < start
    ensures i != start ==> Coalesce(Chain(start, at, names, owner, now)[i].parentId) == i - 1 >= start
  {
    ChainShape(start, at, names, owner, now);
  }

  /** The chain's rows take fresh ids, and the first one's key is free: inserting it keeps the
      unique index. */
  lemma ChainKeepsKeysUnique(dirs: map<int, Dir>, start: int, at: Option<int>, names: seq<string>, owner: int, now: int)
    requires UniqueDirKeys(dirs) && DirIdsBelow(dirs, start) && ParentsExist(dirs)
    requires at.Some? ==> at.value in dirs
    requires |names| != 0 ==> Child(dirs, owner, at, names[0]).None?
    ensures UniqueDirKeys(dirs + Chain(start, at, names, owner, now))
  {
    var ch := Chain(start, at, names, owner, now);
    var m := dirs + ch;
    ChainShape(start, at, names, owner, now);
    forall i, j | i in m && j in m && DirKey(m[i]) == DirKey(m[j]) ensures i == j {
      if i in ch && j in ch {
        ChainParentKeys(dirs, start, at, names, owner, now, i);
        ChainParentKeys(dirs, start, at, names, owner, now, j);
      } else if i in ch {
        ChainRowFresh(dirs, start, at, names, owner, now, i, j);
      } else if j in ch {
        ChainRowFresh(dirs, start, at, names, owner, now, j, i);
      }
    }
  }

  lemma ChainKeepsLinks(dirs: map<int, Dir>, files: map<int, FileRow>, start: int, at: Option<int>, names: seq<string>, owner: int, now: int)
    requires ParentsExist(dirs) && OwnersAgree(dirs, files) && DirIdsBelow(dirs, start)
    requires DirectoriesExist(files, dirs)
    requires at.Some? ==> at.value in dirs && dirs[at.value].ownerId == owner
    ensures var m := dirs + Chain(start, at, names, owner, now);
      ParentsExist(m) && OwnersAgree(m, files) && Extends(m, dirs)
  {
    var ch := Chain(start, at, names, owner, now);
    var m := dirs + ch;
    ChainShape(start, at, names, owner, now);
    assert forall i :: i in dirs ==> i !in ch;
    forall i | i in m && m[i].parentId.Some?
      ensures m[i].parentId.value in m
      ensures m[m[i].parentId.value].ownerId == m[i].ownerId
    {
      if i in ch && i != start {
        assert i - 1 in ch;
      }
    }
  }

  lemma ChainKeepsRanks(dirs: map<int, Dir>, rank: map<int, nat>, start: int, at: Option<int>, names: seq<string>, owner: int, now: int)
    requires Ranked(dirs, rank) && DirIdsBelow(dirs, start)
    requires at.Some? ==> at.value in dirs
    ensures var ch := Chain(start, at, names, owner, now);
      Ranked(dirs + ch, ChainRank(rank, ch, start, at))
  {
    var ch := Chain(start, at, names, owner, now);
    var m := dirs + ch;
    var r := ChainRank(rank, ch, start, at);
    ChainShape(start, at, names, owner, now);
    assert forall i :: i in dirs ==> i !in ch;
    forall i | i in m
      ensures i in r
      ensures m[i].parentId.Some? ==>
        m[i].parentId.value in m && m[i].parentId.value in r && r[m[i].parentId.value] < r[i]
    {
      if i in ch {
        if i != start {
          assert i - 1 in ch;
        } else if at.Some? {
          var p := at.value;
          assert p in dirs && dirs[p] == dirs[p];
          assert p in rank;
          assert p !in ch;
        }
      } else {
        assert m[i] == dirs[i];
        if dirs[i].parentId.Some? {
          var p := dirs[i].parentId.value;
          assert p in dirs && p in rank && p !in ch;
          assert r[p] == rank[p] && r[i] == rank[i];
        }
      }
    }
  }

  lemma ChainKeepsNames(dirs: map<int, Dir>, start: int, at: Option<int>, names: seq<string>, owner: int, now: int)
    requires DirNamesAddressable(dirs)
    requires forall k :: 0 <= k < |names| ==> Paths.IsAddressable(names[k])
    ensures DirNamesAddressable(dirs + Chain(start, at, names, owner, now))
  {
    var ch := Chain(start, at, names, owner, now);
    ChainShape(start, at, names, owner, now);
    forall i | i in dirs + ch ensures Paths.IsAddressable((dirs + ch)[i].name) {
      if i in ch {
        assert ch[i].name == names[i - start];
      }
    }
  }

  /** Inserting the chain keeps every table invariant and the acyclicity witness. */
  lemma ChainKeepsTree(dirs: map<int, Dir>, files: map<int, FileRow>, nextFileId: int, rank: map<int, nat>,
                       start: int, at: Option<int>, names: seq<string>, owner: int, now: int)
    requires Consistent(dirs, files, start, nextFileId) && Ranked(dirs, rank)
    requires at.Some? ==> at.value in dirs && dirs[at.value].ownerId == owner
    requires |names| != 0 ==> Child(dirs, owner, at, names[0]).None?
    requires forall k :: 0 <= k < |names| ==> Paths.IsAddressable(names[k])
    ensures var ch := Chain(start, at, names, owner, now);
      && Consistent(dirs + ch, files, start + |names|, nextFileId)
      && Ranked(dirs + ch, ChainRank(rank, ch, start, at))
      && Extends(dirs + ch, dirs)
  {
    var ch := Chain(start, at, names, owner, now);
    ChainShape(start, at, names, owner, now);
    ChainKeepsKeysUnique(dirs, start, at, names, owner, now);
    ChainKeepsLinks(dirs, files, start, at, names, owner, now);
    ChainKeepsRanks(dirs, rank, start, at, names, owner, now);
    ChainKeepsNames(dirs, start, at, names, owner, now);
    assert DirIdsBelow(dirs + ch, start + |names|) by {
      assert forall i :: i in ch ==> start <= i < start + |names|;
    }
    assert DirectoriesExist(files, dirs + ch) by {
      assert forall i :: i in dirs ==> i in dirs + ch;
    }
  }

  /** A path that resolves keeps resolving to the same directory when rows are only added. */
  lemma ResolveExtends(small: map<int, Dir>, big: map<int, Dir>, owner: int, wd: string, path: string)
    requires Extends(big, small) && UniqueDirKeys(big)
    requires ResolveDir(small, owner, wd, path).Success?
    ensures ResolveDir(big, owner, wd, path) == ResolveDir(small, owner, wd, path)
  {
    WalkExtends(small, big, owner, None, Paths.Segments(wd, path));
  }

  /** `path + "/" + name` resolves to the child `c` of the directory `path` resolves to. */
  lemma ResolveChild(dirs: map<int, Dir>, owner: int, wd: string, path: string, d: int, c: int, name: string)
    requires UniqueDirKeys(dirs) && ResolveDir(dirs, owner, wd, path) == Success(Some(d))
    requires c in dirs && Matches(dirs[c], owner, Some(d), name) && Paths.IsAddressable(name)
    ensures ResolveDir(dirs, owner, wd, path + "/" + name) == Success(Some(c))
  {
    var segs := Paths.Segments(wd, path);
    Paths.ChildSegments(wd, path, name);
    WalkSnoc(dirs, owner, None, segs, name);
    ChildIsTheMatch(dirs, owner, Some(d), name, c);
  }

  // ---------------------------------------------------------------------------------------
  // Files and children

  /** `getFile`'s query: a file with this name and owner in directory `at` (none: the root). */
  predicate FileMatches(f: FileRow, owner: int, at: Option<int>, name: string)
  {
    f.name == name && f.ownerId == owner && f.directoryId == at
  }

  ghost function FileIn(files: map<int, FileRow>, owner: int, at: Option<int>, name: string): (r: Option<int>)
    ensures r.Some? ==> r.value in files && FileMatches(files[r.value], owner, at, name)
    ensures r.None? ==> forall f :: f in files ==> !FileMatches(files[f], owner, at, name)
  {
    if exists f :: f in files && FileMatches(files[f], owner, at, name) then
      Some(var f :| f in files && FileMatches(files[f], owner, at, name); f)
    else
      None
  }

  lemma FileInIsTheMatch(files: map<int, FileRow>, owner: int, at: Option<int>, name: string, f: int)
    requires UniqueFileKeys(files) && f in files && FileMatches(files[f], owner, at, name)
    ensures FileIn(files, owner, at, name) == Some(f)
  {
    var g := FileIn(files, owner, at, name);
    assert FileKey(files[g.value]) == FileKey(files[f]);
  }

  /** What `getFile(path)` answers: `splitPath` refuses the path, the parent does not resolve,
      the leaf is missing or empty, or the matching file row if there is one. */
  ghost function LookupFile(dirs: map<int, Dir>, files: map<int, FileRow>, owner: int, wd: string, path: string): Result<Option<int>>
  {
    match Paths.SplitPath(path)
    case Failure(e) => Failure(e)
    case Success((parent, name)) =>
      match ResolveDir(dirs, owner, wd, parent)
      case Failure(e) => Failure(e)
      case Success(at) =>
        if name.None? || name.value == "" then Failure(InvalidArgument)
        else Success(FileIn(files, owner, at, name.value))
  }

  /** A path whose split gives a resolvable parent part and a non-empty leaf is looked up
      in that directory under that leaf. */
  lemma LookupOfSplit(dirs: map<int, Dir>, files: map<int, FileRow>, owner: int, wd: string,
                      path: string, parent: string, name: string)
    requires Paths.SplitPath(path) == Success((parent, Some(name))) && name != ""
    requires ResolveDir(dirs, owner, wd, parent).Success?
    ensures LookupFile(dirs, files, owner, wd, path) ==
      Success(FileIn(files, owner, ResolveDir(dirs, owner, wd, parent).value, name))
  {
  }

  /** The directories `listDirectory` selects: the children of `at`, or the owner's root-level
      directories. */
  function ChildDirs(dirs: map<int, Dir>, owner: int, at: Option<int>): set<int>
  {
    set i | i in dirs && if at.Some? then dirs[i].parentId == at
                         else dirs[i].ownerId == owner && dirs[i].parentId.None?
  }

  function ChildFiles(files: map<int, FileRow>, owner: int, at: Option<int>): set<int>
  {
    set f | f in files && if at.Some? then files[f].directoryId == at
                          else files[f].ownerId == owner && files[f].directoryId.None?
  }

  /** Under the owner invariant, the children of one of the owner's directories are the
      owner's: selecting them by parent alone leaks nothing of other owners. */
  lemma ChildrenOwned(dirs: map<int, Dir>, files: map<int, FileRow>, owner: int, at: Option<int>)
    requires OwnersAgree(dirs, files) && ParentsExist(dirs) && DirectoriesExist(files, dirs)
    requires at.Some? ==> at.value in dirs && dirs[at.value].ownerId == owner
    ensures forall i :: i in ChildDirs(dirs, owner, at) ==> dirs[i].ownerId == owner
    ensures forall f :: f in ChildFiles(files, owner, at) ==> files[f].ownerId == owner
    ensures forall i :: i in ChildDirs(dirs, owner, at) <==> i in dirs && Matches(dirs[i], owner, at, dirs[i].name)
    ensures forall f :: f in ChildFiles(files, owner, at) <==> f in files && FileMatches(files[f], owner, at, files[f].name)
  {
  }
}
