/** Four places where the provider as written does something its design evidently does not
    intend. Each is shown on a member that does what the code does, next to the property the
    corrected behaviour has; the class in `Provider` implements the corrected behaviour. */
module Findings {
  import opened Wrappers
  import opened Schema
  import opened Tree
  import Moves
  import Order
  import Paths

  // ---------------------------------------------------------------------------------------
  // moveDirectory into its own subtree

  /** The update `moveDirectory` sends as written: the row of `d` goes under `at` with its new
      name, wherever `at` lies. */
  function MoveAsWritten(dirs: map<int, Dir>, d: int, at: int, name: string, now: int): (r: map<int, Dir>)
    requires d in dirs
    ensures r.Keys == dirs.Keys && r[d].parentId == Some(at)
    ensures forall i :: i in dirs && i != d ==> r[i] == dirs[i]
  {
    dirs[d := Moves.MovedDir(dirs[d], Some(at), name, now)]
  }

  /** In any ranking of a table that differs from `dirs` only in the row of `d`, every row that
      lies below `d` in `dirs` ranks at least as high as `d`: its parent links up to `d` are
      still there. */
  lemma {:induction false} AncestorRanksBelow(dirs: map<int, Dir>, rank: map<int, nat>, d: int,
                                              after: map<int, Dir>, rank2: map<int, nat>, x: int)
    requires Ranked(dirs, rank) && x in dirs && InSubtree(dirs, rank, x, d)
    requires after.Keys == dirs.Keys && forall i :: i in dirs && i != d ==> after[i] == dirs[i]
    requires Ranked(after, rank2)
    ensures d in rank2 && x in rank2 && rank2[d] <= rank2[x]
    decreases rank[x]
  {
    if x != d {
      var p := dirs[x].parentId.value;
      AncestorRanksBelow(dirs, rank, d, after, rank2, p);
      assert after[x] == dirs[x];
    }
  }

  /** Moving a directory under a directory of its own subtree, which nothing in
      `moveDirectory` prevents, leaves a table whose parent links have a cycle: no ranking
      exists, so recursive walks over the tree no longer end. */
  lemma MoveIntoOwnSubtreeCycles(dirs: map<int, Dir>, rank: map<int, nat>, d: int, at: int, name: string, now: int)
    requires Ranked(dirs, rank) && d in dirs && at in Sub(dirs, rank, d)
    ensures !exists rank2 :: Ranked(MoveAsWritten(dirs, d, at, name, now), rank2)
  {
    var after := MoveAsWritten(dirs, d, at, name, now);
    if exists rank2 :: Ranked(after, rank2) {
      var rank2 :| Ranked(after, rank2);
      AncestorRanksBelow(dirs, rank, d, after, rank2, at);
      assert false;
    }
  }

  /** `/a` with its child `/a/b`: `moveDirectory("/a", "/a/b/x")` moves `a` under `b`. */
  lemma MoveIntoChildExample()
    ensures var dirs := map[1 := Dir("a", None, 0, 0, 0), 2 := Dir("b", Some(1), 0, 0, 0)];
      !exists rank2 :: Ranked(MoveAsWritten(dirs, 1, 2, "x", 0), rank2)
  {
    var dirs := map[1 := Dir("a", None, 0, 0, 0), 2 := Dir("b", Some(1), 0, 0, 0)];
    var rank: map<int, nat> := map[1 := 0, 2 := 1];
    assert InSubtree(dirs, rank, 2, 1);
    MoveIntoOwnSubtreeCycles(dirs, rank, 1, 2, "x", 0);
  }

  // ---------------------------------------------------------------------------------------
  // copyDirectory into a proper descendant

  /** How a recursive copy ends: it ran out of `fuel` (more nested calls than the fuel
      allows), an insert was refused, or it finished with the new table and next id. */
  datatype Run = OutOfFuel | Refused | Done(dirs: map<int, Dir>, next: int)

  /** `copyDirectory` as written, on ids: the children of `s` are read, the copy of `s` goes in
      under `t` (named by `leaf`, or by `s`'s own name), and then every child read is copied
      under the new row, by this same operation. Each call spends one unit of `fuel`; the
      file children, which `copyFile` copies without recursion, are left out. */
  ghost function CopyAsWritten(fuel: nat, dirs: map<int, Dir>, owner: int, s: int, t: int,
                               leaf: Option<string>, next: int, now: int): (r: Run)
    decreases fuel, 0
  {
    if fuel == 0 then OutOfFuel
    else if s !in dirs then Refused
    else
      var kids := ChildDirs(dirs, owner, Some(s));
      var row := Dir(Paths.NewName(leaf, dirs[s].name), Some(t), owner, now, now);
      if DirKeyTaken(dirs, DirKey(row)) then Refused
      else CopyEachAsWritten(fuel - 1, dirs[next := row], owner, kids, next, next + 1, now)
  }

  /** The `Promise.all` of the copy above, one child after the other. */
  ghost function CopyEachAsWritten(fuel: nat, dirs: map<int, Dir>, owner: int, kids: set<int>, t: int,
                                   next: int, now: int): (r: Run)
    decreases fuel, |kids|
  {
    if |kids| == 0 then Done(dirs, next)
    else
      HasMember(kids);
      var c :| c in kids;
      match CopyAsWritten(fuel, dirs, owner, c, t, None, next, now)
      case Done(d2, n2) => CopyEachAsWritten(fuel, d2, owner, kids - {c}, t, n2, now)
      case other => other
  }

  lemma HasMember(s: set<int>)
    requires |s| != 0
    ensures exists z :: z in s
  {
    var y := Order.Pick(s);
  }

  /** The shape the copy keeps reproducing: `t` is the only child of `s`, and has none. */
  ghost predicate Spiral(dirs: map<int, Dir>, s: int, t: int, next: int)
  {
    && DirIdsBelow(dirs, next) && ParentsExist(dirs)
    && s in dirs && t in dirs && dirs[t].parentId == Some(s)
    && (forall i :: i in dirs && dirs[i].parentId == Some(s) ==> i == t)
    && (forall i :: i in dirs ==> dirs[i].parentId != Some(t))
  }

  /** Copying `s` into its only child `t`, which is empty, never ends, however much fuel it is
      given: the copy of `t` goes under the fresh row, so the same shape arises one level down. */
  lemma {:induction false} CopyIntoChildNeverEnds(fuel: nat, dirs: map<int, Dir>, owner: int, s: int, t: int,
                                                  leaf: Option<string>, next: int, now: int)
    requires Spiral(dirs, s, t, next)
    ensures CopyAsWritten(fuel, dirs, owner, s, t, leaf, next, now) == OutOfFuel
    decreases fuel
  {
    if fuel > 0 {
      var row := Dir(Paths.NewName(leaf, dirs[s].name), Some(t), owner, now, now);
      forall i | i in dirs ensures DirKey(dirs[i]) != DirKey(row) {
        assert dirs[i].parentId != Some(t);
      }
      var d2 := dirs[next := row];
      assert Spiral(d2, t, next, next + 1);
      CopyIntoChildNeverEnds(fuel - 1, d2, owner, t, next, None, next + 1, now);
      CopyEachOfOne(fuel - 1, d2, owner, ChildDirs(dirs, owner, Some(s)), t, next, next + 1, now);
    }
  }

  /** A `Promise.all` over one child ends as the copy of that child does, when that runs out. */
  lemma CopyEachOfOne(fuel: nat, dirs: map<int, Dir>, owner: int, kids: set<int>, c: int, t: int, next: int, now: int)
    requires forall x :: x in kids <==> x == c
    requires CopyAsWritten(fuel, dirs, owner, c, t, None, next, now) == OutOfFuel
    ensures CopyEachAsWritten(fuel, dirs, owner, kids, t, next, now) == OutOfFuel
  {
    assert c in kids;
  }

  /** `/a` with its child `/a/b`: `copyDirectory("/a", "/a/b/x")` copies `a` to `x` under `b`,
      then `b` to `/a/b/x/b`, then `x` to `/a/b/x/b/x`, and so on without end. */
  lemma CopyIntoChildExample(fuel: nat)
    ensures var dirs := map[1 := Dir("a", None, 0, 0, 0), 2 := Dir("b", Some(1), 0, 0, 0)];
      CopyAsWritten(fuel, dirs, 0, 1, 2, Some("x"), 3, 0) == OutOfFuel
  {
    var dirs := map[1 := Dir("a", None, 0, 0, 0), 2 := Dir("b", Some(1), 0, 0, 0)];
    assert Spiral(dirs, 1, 2, 3);
    CopyIntoChildNeverEnds(fuel, dirs, 0, 1, 2, Some("x"), 3, 0);
  }

  // ---------------------------------------------------------------------------------------
  // Directories named `..`

  /** No resolved segment is `..` when the working directory has none: the input's `..`
      pieces are counted, never looked up. */
  lemma {:induction false} NoUpSegment(wd: string, rel: string)
    requires forall i :: 0 <= i < |Paths.Pieces(wd)| ==> Paths.Pieces(wd)[i] != ".."
    ensures forall i :: 0 <= i < |Paths.Segments(wd, rel)| ==> Paths.Segments(wd, rel)[i] != ".."
  {
    var parts := Paths.Split(rel);
    var w := Paths.Pieces(wd);
    var kept := Paths.Pop(w, |Paths.Filter(parts, Paths.Up)|);
    var clean := Paths.Filter(parts, Paths.Name);
    var segs := Paths.Segments(wd, rel);
    Paths.FilterKept(parts, Paths.Name);
    assert forall i :: 0 <= i < |kept| ==> kept[i] == w[i];
    forall i | 0 <= i < |segs| ensures segs[i] != ".." {
      if i < |kept| {
        assert segs[i] == w[i];
      } else {
        assert segs[i] == clean[i - |kept|];
      }
    }
  }

  /** From `/`, the path `${path}/..` that `deleteDirectory(path)` builds for a child named `..`
      names `path` itself: the recursion into that child deletes `path` again, without end. */
  lemma UpChildIsItself(path: string)
    ensures Paths.Segments("/", path + "/" + "..") == Paths.Segments("/", path)
  {
    Paths.SplitConcat(path, "..");
    SplitUp();
    RootHasNoPieces();
    var sp := Paths.Split(path);
    Paths.FilterConcat(sp, [".."], Paths.Up);
    Paths.FilterConcat(sp, [".."], Paths.Name);
    Paths.FilterSingle("..", Paths.Up);
    Paths.FilterSingle("..", Paths.Name);
  }

  /** `"..".split("/")` is the one piece `..`. */
  lemma SplitUp()
    ensures Paths.Split("..") == [".."]
  {
    Paths.SplitLetter('.');
    assert ".."[1..] == "." && "." == ['.'] && ['.'] + "." == "..";
  }

  /** The root has no segments. */
  lemma RootHasNoPieces()
    ensures Paths.Pieces("/") == []
  {
    assert Paths.Split("/") == ["", ""] by {
      assert "/"[1..] == [] && Paths.Split([]) == [""];
    }
    assert ["", ""][1..] == [""] && [""][1..] == [];
  }

  /** `moveDirectory` and `copyDirectory` as written accept the destination leaf `..` and give
      the row that name; from a working directory without `..`, no path resolves to that row
      any more: its subtree is cut off from every later operation. */
  lemma DotDotLeafUnreachable(dirs: map<int, Dir>, owner: int, wd: string, newPath: string, sourceName: string,
                              path: string, id: int)
    requires Paths.SplitPath(newPath).Success? && Paths.SplitPath(newPath).value.1 == Some("..")
    requires forall i :: 0 <= i < |Paths.Pieces(wd)| ==> Paths.Pieces(wd)[i] != ".."
    requires id in dirs && dirs[id].name == Paths.NewName(Paths.SplitPath(newPath).value.1, sourceName)
    ensures ResolveDir(dirs, owner, wd, path) != Success(Some(id))
  {
    var segs := Paths.Segments(wd, path);
    if ResolveDir(dirs, owner, wd, path) == Success(Some(id)) {
      WalkTarget(dirs, owner, None, segs);
      NoUpSegment(wd, path);
      assert false;
    }
  }

  // ---------------------------------------------------------------------------------------
  // copyDirectory with an empty destination leaf

  /** The destination `copyDirectory` as written gives each listed node: the destination path,
      `/` and the node's name, whatever the destination's leaf was. */
  function ChildDestinationAsWritten(newPath: string, name: string): string
  {
    newPath + "/" + name
  }

  /** A trailing `/` adds an empty piece, which resolution drops. */
  lemma TrailingSlashIgnored(wd: string, p: string)
    ensures Paths.Segments(wd, p + "/") == Paths.Segments(wd, p)
  {
    Paths.SplitConcat(p, "");
    assert p + "/" + "" == p + "/";
    var sp := Paths.Split(p);
    assert Paths.Split(p + "/") == sp + [""];
    Paths.FilterConcat(sp, [""], Paths.Up);
    Paths.FilterConcat(sp, [""], Paths.Name);
    Paths.FilterSingle("", Paths.Up);
    Paths.FilterSingle("", Paths.Name);
    assert Paths.Filter(sp + [""], Paths.Up) == Paths.Filter(sp, Paths.Up);
    assert Paths.Filter(sp + [""], Paths.Name) == Paths.Filter(sp, Paths.Name);
  }

  /** When the destination's leaf is empty (`/` or a path ending in `/`), the copy is created
      under the destination's parent with the source's name, but as written each child is sent
      to the destination's parent too: it lands beside the copy instead of inside it. */
  lemma EmptyLeafChildrenBeside(wd: string, newPath: string, sourceName: string, name: string)
    requires Paths.SplitPath(newPath).Success?
    requires var leaf := Paths.SplitPath(newPath).value.1; leaf.None? || leaf.value == ""
    requires Paths.IsAddressable(sourceName) && Paths.IsAddressable(name)
    ensures var (parent, leaf) := Paths.SplitPath(newPath).value;
      && Paths.Segments(wd, Paths.CopyTarget(newPath, leaf, sourceName)) == Paths.Segments(wd, parent) + [sourceName]
      && Paths.Segments(wd, ChildDestinationAsWritten(newPath, name)) == Paths.Segments(wd, parent) + [name]
  {
    Paths.CopyTargetSegments(wd, newPath, sourceName);
    Paths.ChildSegments(wd, newPath, name);
    EmptyLeafIsParent(wd, newPath);
  }

  /** A destination whose leaf is empty resolves to its parent part. */
  lemma EmptyLeafIsParent(wd: string, newPath: string)
    requires Paths.SplitPath(newPath).Success?
    requires var leaf := Paths.SplitPath(newPath).value.1; leaf.None? || leaf.value == ""
    ensures Paths.Segments(wd, newPath) == Paths.Segments(wd, Paths.SplitPath(newPath).value.0)
  {
    if newPath != "/" {
      Paths.SplitPathShape(newPath);
      var cut := |newPath| - 1;
      var pre := newPath[..cut];
      assert newPath == pre + "/";
      TrailingSlashIgnored(wd, pre);
      if cut == 0 {
        Paths.SlashIsWorkingDirectory(wd);
      }
    }
  }

  /** The corrected destination: each child goes below the path the copy itself is found
      under, so it lands inside the copy whatever the destination's leaf was. */
  lemma CopyChildrenInside(wd: string, newPath: string, sourceName: string, name: string)
    requires Paths.SplitPath(newPath).Success?
    requires Paths.IsAddressable(Paths.NewName(Paths.SplitPath(newPath).value.1, sourceName))
    requires Paths.IsAddressable(name)
    ensures var (parent, leaf) := Paths.SplitPath(newPath).value;
      Paths.Segments(wd, Paths.CopyTarget(newPath, leaf, sourceName) + "/" + name)
        == Paths.Segments(wd, parent) + [Paths.NewName(leaf, sourceName), name]
  {
    var (parent, leaf) := Paths.SplitPath(newPath).value;
    Paths.CopyTargetSegments(wd, newPath, sourceName);
    Paths.ChildSegments(wd, Paths.CopyTarget(newPath, leaf, sourceName), name);
  }
}
