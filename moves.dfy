/** What `moveDirectory` does to the tree: one row gets a new name and parent, and the subtree
    below it travels along. */
module Moves {
  import opened Wrappers
  import opened Schema
  import opened Tree

  /** The row `moveDirectory` leaves: the same row under the new name and parent. */
  function MovedDir(src: Dir, at: Option<int>, name: string, now: int): Dir
  {
    src.(name := name, parentId := at, updatedAt := now)
  }

  /** The rank of the new parent, below which the moved subtree is ranked. */
  ghost function Base(rank: map<int, nat>, at: Option<int>): nat
  {
    if at.Some? && at.value in rank then rank[at.value] else 0
  }

  /** A ranking after the move: the rows of `sub`, the subtree of `d`, are shifted so that `d`
      ranks just above `base`. */
  ghost function MoveRank(rank: map<int, nat>, sub: set<int>, d: int, base: nat): map<int, nat>
  {
    var rd := if d in rank then rank[d] else 0;
    map x | x in rank :: if x in sub && rd <= rank[x] then rank[x] - rd + base + 1 else rank[x]
  }

  /** Moving `d` under a parent outside its own subtree keeps the tree acyclic. */
  lemma MoveKeepsRanked(dirs: map<int, Dir>, rank: map<int, nat>, d: int, row: Dir)
    requires Ranked(dirs, rank) && d in dirs
    requires row.parentId.Some? ==> row.parentId.value in dirs && row.parentId.value !in Sub(dirs, rank, d)
    ensures Ranked(dirs[d := row], MoveRank(rank, Sub(dirs, rank, d), d, Base(rank, row.parentId)))
  {
    var s := Sub(dirs, rank, d);
    var m := dirs[d := row];
    var base := Base(rank, row.parentId);
    var r := MoveRank(rank, s, d, base);
    assert d in s;
    forall i | i in m
      ensures i in r
      ensures m[i].parentId.Some? ==>
        m[i].parentId.value in m && m[i].parentId.value in r && r[m[i].parentId.value] < r[i]
    {
      if i == d {
        if row.parentId.Some? {
          var p := row.parentId.value;
          assert r[p] == rank[p] == base;
        }
      } else if dirs[i].parentId.Some? {
        var p := dirs[i].parentId.value;
        assert m[i] == dirs[i];
        if i in s {
          assert InSubtree(dirs, rank, p, d);
          assert p in s;
          SubtreeRoot(dirs, rank, i, d);
          SubtreeRoot(dirs, rank, p, d);
        } else {
          assert !InSubtree(dirs, rank, p, d);
          assert p !in s;
        }
      }
    }
  }

  /** Every row's ancestry relative to `d` is the same after `d` moved. */
  lemma {:induction false} MoveKeepsAncestry(dirs: map<int, Dir>, rank: map<int, nat>, d: int, row: Dir,
                                             newRank: map<int, nat>, x: int)
    requires Ranked(dirs, rank) && Ranked(dirs[d := row], newRank) && x in dirs && d in dirs
    ensures InSubtree(dirs[d := row], newRank, x, d) == InSubtree(dirs, rank, x, d)
    decreases rank[x]
  {
    if x != d && dirs[x].parentId.Some? {
      MoveKeepsAncestry(dirs, rank, d, row, newRank, dirs[x].parentId.value);
    }
  }

  /** The subtree travels with its root: the same rows lie below `d` after the move. */
  lemma MoveKeepsSubtree(dirs: map<int, Dir>, rank: map<int, nat>, d: int, row: Dir, newRank: map<int, nat>)
    requires Ranked(dirs, rank) && Ranked(dirs[d := row], newRank) && d in dirs
    ensures Sub(dirs[d := row], newRank, d) == Sub(dirs, rank, d)
  {
    forall x | x in dirs ensures InSubtree(dirs[d := row], newRank, x, d) == InSubtree(dirs, rank, x, d) {
      MoveKeepsAncestry(dirs, rank, d, row, newRank, x);
    }
  }

  /** A path that ended outside the moved subtree resolves as before: its walk never passes
      through the moved row. */
  lemma {:induction false} WalkAfterMove(dirs: map<int, Dir>, rank: map<int, nat>, d: int, row: Dir,
                                         owner: int, at: Option<int>, segs: seq<string>)
    requires Ranked(dirs, rank) && d in dirs && UniqueDirKeys(dirs[d := row])
    requires Walk(dirs, owner, at, segs).Some?
    requires var y := Walk(dirs, owner, at, segs).value; y.Some? ==> y.value !in Sub(dirs, rank, d)
    ensures Walk(dirs[d := row], owner, at, segs) == Walk(dirs, owner, at, segs)
    decreases |segs|
  {
    if |segs| != 0 {
      var c := Child(dirs, owner, at, segs[0]).value;
      var s := Sub(dirs, rank, d);
      if c in s {
        SubtreeIsClosed(dirs, rank, d);
        WalkStaysInClosed(dirs, s, owner, c, segs[1..]);
      }
      assert d in s;
      ChildIsTheMatch(dirs[d := row], owner, at, segs[0], c);
      WalkAfterMove(dirs, rank, d, row, owner, Some(c), segs[1..]);
    }
  }
}
