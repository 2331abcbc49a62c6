/** A fifth place where the provider as written does something its design evidently does not
    intend: `moveFile` and `moveDirectory` cannot move a row to the root. Their update's `set`
    leaves out every column whose value is `undefined`, and the destination's id is `undefined`
    when the destination directory is the root. The class in `Provider` moves the row to the
    root. */
module RootMoves {
  import opened Wrappers
  import opened Schema
  import opened Tree
  import Paths
  import Provider

  /** The row `moveFile` leaves as written. The update's `set` leaves out every column whose
      value is `undefined`, and `dir?.id` is `undefined` when the destination directory is the
      root: the row then keeps its old directory and only takes the new name. */
  function MovedRowAsWritten(src: FileRow, at: Option<int>, name: string, now: int): FileRow
  {
    src.(name := name, directoryId := if at.Some? then at else src.directoryId, updatedAt := now)
  }

  /** The row `moveDirectory` leaves as written: `parent?.id` is `undefined` for a destination
      at the root, so the row keeps its old parent. */
  function MovedDirAsWritten(src: Dir, at: Option<int>, name: string, now: int): Dir
  {
    src.(name := name, parentId := if at.Some? then at else src.parentId, updatedAt := now)
  }

  /** A file moved as written out of a directory to a path at the root stays in that directory
      under its new name: the target path does not find it. */
  lemma MoveFileToRootStays(dirs: map<int, Dir>, files: map<int, FileRow>, owner: int, wd: string,
                            path: string, newPath: string, now: int)
    requires FileNamesValid(files)
    requires Provider.RelocatePlan(dirs, files, owner, wd, path, newPath).Success?
    requires var p := Provider.RelocatePlan(dirs, files, owner, wd, path, newPath).value;
      p.source in files && p.at.None? && files[p.source].directoryId.Some?
    ensures var p := Provider.RelocatePlan(dirs, files, owner, wd, path, newPath).value;
      var after := files[p.source := MovedRowAsWritten(files[p.source], p.at, p.name, now)];
      && LookupFile(dirs, after, owner, wd, p.target) != Success(Some(p.source))
      && FileMatches(after[p.source], owner, files[p.source].directoryId, p.name)
  {
    var p := Provider.RelocatePlan(dirs, files, owner, wd, path, newPath).value;
    var after := files[p.source := MovedRowAsWritten(files[p.source], p.at, p.name, now)];
    Provider.RelocatePlanSource(dirs, files, owner, wd, path, newPath);
    Provider.RelocatePlanTarget(dirs, files, after, owner, wd, path, newPath);
  }

  /** A directory moved as written out of a directory to a path at the root stays below its
      old parent under its new name: the target path does not name it. */
  lemma MoveDirToRootStays(dirs: map<int, Dir>, rank: map<int, nat>, owner: int, wd: string,
                           path: string, newPath: string, now: int)
    requires Ranked(dirs, rank) && DirNamesAddressable(dirs)
    requires Provider.DirRelocatePlan(dirs, rank, owner, wd, path, newPath, false).Success?
    requires var p := Provider.DirRelocatePlan(dirs, rank, owner, wd, path, newPath, false).value;
      p.at.None? && dirs[p.source].parentId.Some?
    ensures var p := Provider.DirRelocatePlan(dirs, rank, owner, wd, path, newPath, false).value;
      var after := dirs[p.source := MovedDirAsWritten(dirs[p.source], p.at, p.name, now)];
      && ResolveDir(after, owner, wd, p.target) != Success(Some(p.source))
      && Matches(after[p.source], owner, dirs[p.source].parentId, p.name)
  {
    var p := Provider.DirRelocatePlan(dirs, rank, owner, wd, path, newPath, false).value;
    var after := dirs[p.source := MovedDirAsWritten(dirs[p.source], p.at, p.name, now)];
    Provider.DirRelocatePlanSource(dirs, rank, owner, wd, path, newPath, false);
    var ps := Paths.Segments(wd, Paths.SplitPath(newPath).value.0);
    if |ps| != 0 {
      WalkTarget(dirs, owner, None, ps);
      assert false;
    }
    if ResolveDir(after, owner, wd, p.target) == Success(Some(p.source)) {
      assert Paths.Segments(wd, p.target) == ps + [p.name] == [p.name];
      assert [p.name][..0] == [];
      WalkTarget(after, owner, None, [p.name]);
      assert false;
    }
  }
}
