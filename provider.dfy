/** `FSProvider`: one user's view of the filesystem kept in the `directories` and `files`
    tables and the blob store. Every operation ends in a typed error where the source throws. */
module Provider {
  import opened Wrappers
  import opened Schema
  import opened Tree
  import opened Blobs
  import opened Nodes
  import Moves
  import Removal
  import Listed
  import Copies
  import Paths

  /** What `readFile(path)` answers: the bytes of the file the path names. */
  ghost function ReadSpec(dirs: map<int, Dir>, files: map<int, FileRow>, blobs: map<string, seq<byte>>,
                          owner: int, wd: string, path: string): Result<seq<byte>>
  {
    match LookupFile(dirs, files, owner, wd, path)
    case Failure(e) => Failure(e)
    case Success(None) => Failure(NotFound)
    case Success(Some(f)) => if files[f].uri in blobs then Success(blobs[files[f].uri]) else Failure(NotFound)
  }

  /** A resolved directory is one of the owner's rows. */
  lemma ResolvedOwned(dirs: map<int, Dir>, owner: int, wd: string, path: string)
    requires ResolveDir(dirs, owner, wd, path).Success?
    ensures var at := ResolveDir(dirs, owner, wd, path).value;
      at.Some? ==> at.value in dirs && dirs[at.value].ownerId == owner
  {
    var segs := Paths.Segments(wd, path);
    if |segs| != 0 {
      WalkTarget(dirs, owner, None, segs);
    }
  }

  /** A read of a path whose lookup lands on a row finds that row's blob. */
  lemma ReadFinds(dirs: map<int, Dir>, files: map<int, FileRow>, blobs: map<string, seq<byte>>,
                  owner: int, wd: string, path: string, id: int, at: Option<int>, name: string)
    requires UniqueFileKeys(files) && id in files && FileMatches(files[id], owner, at, name)
    requires LookupFile(dirs, files, owner, wd, path) == Success(FileIn(files, owner, at, name))
    requires files[id].uri in blobs
    ensures ReadSpec(dirs, files, blobs, owner, wd, path) == Success(blobs[files[id].uri])
  {
    FileInIsTheMatch(files, owner, at, name, id);
  }

  /** Once the row a path names is gone, reading the path finds nothing. */
  lemma ReadAfterRemoval(dirs: map<int, Dir>, files: map<int, FileRow>, blobs: map<string, seq<byte>>,
                         owner: int, wd: string, path: string, f: int)
    requires UniqueFileKeys(files)
    requires LookupFile(dirs, files, owner, wd, path) == Success(Some(f))
    ensures ReadSpec(dirs, files - {f}, blobs, owner, wd, path) == Failure(NotFound)
  {
    var (parent, leaf) := Paths.SplitPath(path).value;
    var at := ResolveDir(dirs, owner, wd, parent).value;
    LookupOfSplit(dirs, files, owner, wd, path, parent, leaf.value);
    LookupOfSplit(dirs, files - {f}, owner, wd, path, parent, leaf.value);
    forall g | g in files - {f} ensures !FileMatches((files - {f})[g], owner, at, leaf.value) {
      assert FileKey(files[g]) != FileKey(files[f]);
    }
  }

  /** The blob store `deleteFile` leaves: without the blob when the counted identical rows
      are this row alone. */
  function StoreAfterDelete(blobs: map<string, seq<byte>>, files: map<int, FileRow>, f: int): map<string, seq<byte>>
    requires f in files
  {
    if |Identical(files, files[f].uri)| == 1 then blobs - {files[f].uri} else blobs
  }

  /** One `deleteFile` on the tables and the store: the invariants survive and the store is
      released by the one row. */
  lemma DeleteFileStep(dirs: map<int, Dir>, files: map<int, FileRow>, blobs: map<string, seq<byte>>,
                       nextDirId: int, nextFileId: int, hash: seq<byte> -> string, f: int)
    requires Consistent(dirs, files, nextDirId, nextFileId) && Stored(files, blobs) && Addressed(blobs, hash)
    requires f in files
    ensures var after := StoreAfterDelete(blobs, files, f);
      && Consistent(dirs, files - {f}, nextDirId, nextFileId)
      && Stored(files - {f}, after) && Addressed(after, hash)
      && after == Release(blobs, files, files - {f})
      && (files[f].uri in after <==> Shared(files, f))
      && (NoOrphans(files, blobs) ==> NoOrphans(files - {f}, after))
  {
    SoleReference(files, f);
    ReleaseOne(blobs, files, f);
    ReleaseKeepsInvariants(blobs, files, files - {f}, hash);
    RemoveFilesConsistent(dirs, files, nextDirId, nextFileId, {f});
  }

  /** What `listDirectory(path)` answers. */
  ghost function ListSpec(dirs: map<int, Dir>, files: map<int, FileRow>, owner: int, wd: string, path: string): Result<seq<FSNode>>
    requires UniqueDirKeys(dirs) && UniqueFileKeys(files) && OwnersAgree(dirs, files)
    requires ParentsExist(dirs) && DirectoriesExist(files, dirs)
  {
    match ResolveDir(dirs, owner, wd, path)
    case Failure(e) => Failure(e)
    case Success(at) =>
      ResolvedOwned(dirs, owner, wd, path);
      ChildNamesDistinct(dirs, files, owner, at);
      Success(Listing(dirs, files, owner, wd, path, at))
  }

  /** The size `writeFile` records: the caller's size unless that is missing or zero, else a
      blob's byte count; a text with no size gets none. */
  function StoredSize(size: Option<int>, content: Content): (r: Option<int>)
    ensures size.Some? && size.value != 0 ==> r == size
    ensures content.Bytes? ==> r.Some? && (r.value == 0 ==> |content.bytes| == 0)
    ensures content.Text? && r.Some? ==> r == size
  {
    if size.Some? && size.value != 0 then size
    else if content.Bytes? then Some(|content.bytes|)
    else None
  }

  /** Where `writeFile(path, content)` puts its row (directory and name), or why it refuses:
      `splitPath` refuses the path, the leaf is missing or empty, the content is the text
      `undefined`, or the parent does not resolve. */
  ghost function WritePlan(dirs: map<int, Dir>, owner: int, wd: string, path: string, content: Content): Result<(Option<int>, string)>
  {
    match Paths.SplitPath(path)
    case Failure(e) => Failure(e)
    case Success((parent, leaf)) =>
      if leaf.None? || leaf.value == "" || content == Text("undefined") then Failure(InvalidArgument)
      else
        match ResolveDir(dirs, owner, wd, parent)
        case Failure(e) => Failure(e)
        case Success(at) => Success((at, leaf.value))
  }

  /** A write goes where a later lookup of the same path looks, under a valid file name. */
  lemma WritePlanIsLookup(dirs: map<int, Dir>, files: map<int, FileRow>, owner: int, wd: string, path: string, content: Content)
    ensures var plan := WritePlan(dirs, owner, wd, path, content);
      && (plan.Failure? ==> plan.error == InvalidArgument || plan.error == NotFound)
      && (plan.Success? ==>
           && plan.value.1 != "" && '/' !in plan.value.1
           && LookupFile(dirs, files, owner, wd, path) == Success(FileIn(files, owner, plan.value.0, plan.value.1)))
  {
  }

  /** What `copyFile` and `moveFile` act on: the source row, the destination directory and
      name, and the path the file is found under afterwards. */
  datatype Relocation = Relocation(source: int, at: Option<int>, name: string, target: string)

  /** The relocation `copyFile(path, newPath)` and `moveFile(path, newPath)` perform, or why
      they refuse: the two paths are the same text, the source is not found, `splitPath`
      refuses the destination, or the destination's parent does not resolve. */
  ghost function RelocatePlan(dirs: map<int, Dir>, files: map<int, FileRow>, owner: int, wd: string,
                              path: string, newPath: string): Result<Relocation>
  {
    if path == newPath then Failure(InvalidArgument)
    else
      match LookupFile(dirs, files, owner, wd, path)
      case Failure(e) => Failure(e)
      case Success(None) => Failure(NotFound)
      case Success(Some(f)) =>
        match Paths.SplitPath(newPath)
        case Failure(e) => Failure(e)
        case Success((parent, leaf)) =>
          match ResolveDir(dirs, owner, wd, parent)
          case Failure(e) => Failure(e)
          case Success(at) =>
            Success(Relocation(f, at, Paths.NewName(leaf, files[f].name),
                               Paths.CopyTarget(newPath, leaf, files[f].name)))
  }

  /** A relocation starts from the file the source path names and gives it a valid name. */
  lemma RelocatePlanSource(dirs: map<int, Dir>, files: map<int, FileRow>, owner: int, wd: string, path: string, newPath: string)
    requires FileNamesValid(files)
    requires RelocatePlan(dirs, files, owner, wd, path, newPath).Success?
    ensures var p := RelocatePlan(dirs, files, owner, wd, path, newPath).value;
      && path != newPath
      && LookupFile(dirs, files, owner, wd, path) == Success(Some(p.source))
      && p.source in files && files[p.source].ownerId == owner
      && (p.at.Some? ==> p.at.value in dirs && dirs[p.at.value].ownerId == owner)
      && p.name != "" && '/' !in p.name
  {
    var (parent, leaf) := Paths.SplitPath(newPath).value;
    ResolvedOwned(dirs, owner, wd, parent);
  }

  /** A lookup of the relocation's target path looks exactly in the destination directory for
      the name the file was given, whatever the rows are by then. */
  lemma RelocatePlanTarget(dirs: map<int, Dir>, files: map<int, FileRow>, later: map<int, FileRow>,
                           owner: int, wd: string, path: string, newPath: string)
    requires FileNamesValid(files)
    requires RelocatePlan(dirs, files, owner, wd, path, newPath).Success?
    ensures var p := RelocatePlan(dirs, files, owner, wd, path, newPath).value;
      LookupFile(dirs, later, owner, wd, p.target) == Success(FileIn(later, owner, p.at, p.name))
  {
    var f := LookupFile(dirs, files, owner, wd, path).value.value;
    var (parent, leaf) := Paths.SplitPath(newPath).value;
    var at := ResolveDir(dirs, owner, wd, parent).value;
    var name := Paths.NewName(leaf, files[f].name);
    var target := Paths.CopyTarget(newPath, leaf, files[f].name);
    assert RelocatePlan(dirs, files, owner, wd, path, newPath).value == Relocation(f, at, name, target);
    Paths.SplitPathOfCopyTarget(newPath, files[f].name);
    LookupOfSplit(dirs, later, owner, wd, target, parent, name);
  }

  /** The row `moveFile` leaves: the same row under the new name and directory. */
  function MovedRow(src: FileRow, at: Option<int>, name: string, now: int): (r: FileRow)
    ensures r.uri == src.uri && r.size == src.size && r.mimeType == src.mimeType
    ensures r.ownerId == src.ownerId && r.createdAt == src.createdAt && r.updatedAt == now
    ensures FileMatches(r, src.ownerId, at, name)
  {
    src.(name := name, directoryId := at, updatedAt := now)
  }

  /** Where a planned write goes: one of the owner's directories (or the root), under a valid
      file name. */
  lemma WritePlanOwned(dirs: map<int, Dir>, owner: int, wd: string, path: string, content: Content,
                       at: Option<int>, name: string)
    requires WritePlan(dirs, owner, wd, path, content) == Success((at, name))
    ensures at.Some? ==> at.value in dirs && dirs[at.value].ownerId == owner
    ensures name != "" && '/' !in name
  {
    var (parent, leaf) := Paths.SplitPath(path).value;
    ResolvedOwned(dirs, owner, wd, parent);
    WritePlanIsLookup(dirs, map[], owner, wd, path, content);
  }

  /** The insert half of `writeFile`, once the blob is stored and the unique index lets `row` in. */
  lemma WriteFileInserted(dirs: map<int, Dir>, files: map<int, FileRow>, blobs: map<string, seq<byte>>,
                          nextDirId: int, nextFileId: int, hash: seq<byte> -> string,
                          owner: int, wd: string, path: string, content: Content, at: Option<int>, name: string,
                          bytes: seq<byte>, row: FileRow, store: map<string, seq<byte>>)
    requires Consistent(dirs, files, nextDirId, nextFileId) && Stored(files, blobs)
    requires Addressed(blobs, hash) && Injective(hash)
    requires WritePlan(dirs, owner, wd, path, content) == Success((at, name))
    requires at.Some? ==> at.value in dirs && dirs[at.value].ownerId == owner
    requires name != "" && '/' !in name
    requires bytes == ContentBytes(content) && row.name == name && row.directoryId == at
    requires row.ownerId == owner && row.uri == hash(bytes)
    requires store == StoreBlob(blobs, files, row.uri, bytes) && Stored(files, store) && Addressed(store, hash)
    requires !FileKeyTaken(files, FileKey(row))
    ensures var after := files[nextFileId := row];
      && Consistent(dirs, after, nextDirId, nextFileId + 1) && Stored(after, store)
      && ReadSpec(dirs, after, store, owner, wd, path) == Success(bytes)
      && (NoOrphans(files, blobs) ==> NoOrphans(after, store))
  {
    var after := files[nextFileId := row];
    InsertFileConsistent(dirs, files, nextDirId, nextFileId, row);
    StoreBlobSound(blobs, files, bytes, hash);
    WriteInsertReads(dirs, after, store, owner, wd, path, content, at, name, nextFileId, bytes);
    if NoOrphans(files, blobs) {
      StoreThenInsertNoOrphans(blobs, files, nextFileId, row, bytes);
    }
  }

  /** Once the row `id` the plan asked for is in, the path reads the bytes under its key. */
  lemma WriteInsertReads(dirs: map<int, Dir>, files: map<int, FileRow>, blobs: map<string, seq<byte>>,
                         owner: int, wd: string, path: string, content: Content, at: Option<int>, name: string,
                         id: int, bytes: seq<byte>)
    requires WritePlan(dirs, owner, wd, path, content) == Success((at, name))
    requires UniqueFileKeys(files) && id in files && FileMatches(files[id], owner, at, name)
    requires files[id].uri in blobs && blobs[files[id].uri] == bytes
    ensures ReadSpec(dirs, files, blobs, owner, wd, path) == Success(bytes)
  {
    WritePlanIsLookup(dirs, files, owner, wd, path, content);
    ReadFinds(dirs, files, blobs, owner, wd, path, id, at, name);
  }

  /** One `copyFile` the unique index lets through: the tables keep their invariants, and the
      target path and the source path both read what the source path read before. */
  lemma CopyFileStep(dirs: map<int, Dir>, files: map<int, FileRow>, blobs: map<string, seq<byte>>,
                     nextDirId: int, nextFileId: int, owner: int, wd: string, path: string, newPath: string, now: int)
    requires Consistent(dirs, files, nextDirId, nextFileId) && Stored(files, blobs)
    requires RelocatePlan(dirs, files, owner, wd, path, newPath).Success?
    requires RelocatePlan(dirs, files, owner, wd, path, newPath).value.source in files
    requires var p := RelocatePlan(dirs, files, owner, wd, path, newPath).value;
      !FileKeyTaken(files, FileKey(Copies.CopiedRow(files[p.source], p.at, p.name, owner, now)))
    ensures var p := RelocatePlan(dirs, files, owner, wd, path, newPath).value;
      var after := files[nextFileId := Copies.CopiedRow(files[p.source], p.at, p.name, owner, now)];
      && Consistent(dirs, after, nextDirId, nextFileId + 1) && Stored(after, blobs)
      && ReadSpec(dirs, after, blobs, owner, wd, p.target) == ReadSpec(dirs, files, blobs, owner, wd, path)
      && ReadSpec(dirs, after, blobs, owner, wd, path) == ReadSpec(dirs, files, blobs, owner, wd, path)
  {
    var p := RelocatePlan(dirs, files, owner, wd, path, newPath).value;
    var row := Copies.CopiedRow(files[p.source], p.at, p.name, owner, now);
    var after := files[nextFileId := row];
    RelocatePlanSource(dirs, files, owner, wd, path, newPath);
    RelocatePlanTarget(dirs, files, after, owner, wd, path, newPath);
    var (parent, leaf) := Paths.SplitPath(newPath).value;
    ResolvedOwned(dirs, owner, wd, parent);
    InsertFileConsistent(dirs, files, nextDirId, nextFileId, row);
    FileInIsTheMatch(after, owner, p.at, p.name, nextFileId);
    var (srcParent, srcLeaf) := Paths.SplitPath(path).value;
    var srcAt := ResolveDir(dirs, owner, wd, srcParent).value;
    LookupOfSplit(dirs, files, owner, wd, path, srcParent, srcLeaf.value);
    LookupOfSplit(dirs, after, owner, wd, path, srcParent, srcLeaf.value);
    FileInIsTheMatch(after, owner, srcAt, srcLeaf.value, p.source);
  }

  /** One `moveFile` the unique index lets through: the tables keep their invariants and the
      target path reads what the source path read before. */
  lemma MoveFileStep(dirs: map<int, Dir>, files: map<int, FileRow>, blobs: map<string, seq<byte>>,
                     nextDirId: int, nextFileId: int, owner: int, wd: string, path: string, newPath: string, now: int)
    requires Consistent(dirs, files, nextDirId, nextFileId) && Stored(files, blobs)
    requires RelocatePlan(dirs, files, owner, wd, path, newPath).Success?
    requires RelocatePlan(dirs, files, owner, wd, path, newPath).value.source in files
    requires var p := RelocatePlan(dirs, files, owner, wd, path, newPath).value;
      !FileKeyTaken(files - {p.source}, FileKey(MovedRow(files[p.source], p.at, p.name, now)))
    ensures var p := RelocatePlan(dirs, files, owner, wd, path, newPath).value;
      var after := files[p.source := MovedRow(files[p.source], p.at, p.name, now)];
      && Consistent(dirs, after, nextDirId, nextFileId) && Stored(after, blobs)
      && ReadSpec(dirs, after, blobs, owner, wd, p.target) == ReadSpec(dirs, files, blobs, owner, wd, path)
  {
    var p := RelocatePlan(dirs, files, owner, wd, path, newPath).value;
    var row := MovedRow(files[p.source], p.at, p.name, now);
    var after := files[p.source := row];
    RelocatePlanSource(dirs, files, owner, wd, path, newPath);
    RelocatePlanTarget(dirs, files, after, owner, wd, path, newPath);
    var (parent, leaf) := Paths.SplitPath(newPath).value;
    ResolvedOwned(dirs, owner, wd, parent);
    UpdateFileConsistent(dirs, files, nextDirId, nextFileId, p.source, row);
    FileInIsTheMatch(after, owner, p.at, p.name, p.source);
  }

  /** Where `createDirectory(path)` stops walking: the directory the existing prefix names,
      one of the owner's rows, below which the next segment has no match. */
  lemma CreateStart(dirs: map<int, Dir>, owner: int, segs: seq<string>)
    requires ParentsExist(dirs)
    ensures var (k, end) := Prefix(dirs, owner, None, segs);
      && Walk(dirs, owner, None, segs[..k]) == Some(end)
      && (end.Some? ==> end.value in dirs && dirs[end.value].ownerId == owner)
      && (k < |segs| ==> Child(dirs, owner, end, segs[k]).None?)
  {
    var (k, end) := Prefix(dirs, owner, None, segs);
    PrefixResolves(dirs, owner, None, segs);
    if k > 0 {
      WalkTarget(dirs, owner, None, segs[..k]);
    }
  }

  /** One `createDirectory(path)` that has segments left to insert: the invariants survive
      the chain of new rows and old rows stay as they were. */
  lemma CreateDirectoryKeeps(dirs: map<int, Dir>, files: map<int, FileRow>, nextDirId: int, nextFileId: int,
                             rank: map<int, nat>, owner: int, segs: seq<string>, now: int)
    requires Consistent(dirs, files, nextDirId, nextFileId) && Ranked(dirs, rank)
    requires var k := Prefix(dirs, owner, None, segs).0;
      k < |segs| && Paths.AllAddressable(segs[k..])
    ensures var (k, end) := Prefix(dirs, owner, None, segs);
      var ch := Chain(nextDirId, end, segs[k..], owner, now);
      && Consistent(dirs + ch, files, nextDirId + |segs| - k, nextFileId)
      && Ranked(dirs + ch, ChainRank(rank, ch, nextDirId, end))
      && Extends(dirs + ch, dirs)
  {
    var (k, end) := Prefix(dirs, owner, None, segs);
    var rest := segs[k..];
    CreateStart(dirs, owner, segs);
    assert rest[0] == segs[k];
    ChainKeepsTree(dirs, files, nextFileId, rank, nextDirId, end, rest, owner, now);
  }

  /** After the chain is in, the whole path resolves to the chain's last row. */
  /** A walk that reaches `end` in `dirs`, continued along a chain of new rows hung under
      `end` in a larger table, ends at the chain's last row. */
  lemma WalkIntoChain(dirs: map<int, Dir>, m: map<int, Dir>, owner: int, pre: seq<string>, rest: seq<string>,
                      end: Option<int>, start: int, now: int, last: int)
    requires Walk(dirs, owner, None, pre) == Some(end)
    requires Extends(m, dirs) && UniqueDirKeys(m)
    requires Extends(m, Chain(start, end, rest, owner, now))
    requires |rest| != 0 && last == start + |rest| - 1
    ensures Walk(m, owner, None, pre + rest) == Some(Some(last))
  {
    WalkExtends(dirs, m, owner, None, pre);
    ChainWalk(m, start, end, rest, owner, now);
    WalkConcat(m, owner, None, pre, rest);
  }

  lemma UnionExtends(dirs: map<int, Dir>, ch: map<int, Dir>, m: map<int, Dir>)
    requires m == dirs + ch
    ensures Extends(m, ch)
  {
  }

  lemma CreateDirectoryResolves(dirs: map<int, Dir>, nextDirId: int, owner: int, wd: string, path: string,
                                k: nat, end: Option<int>, now: int, m: map<int, Dir>, last: int)
    requires ParentsExist(dirs)
    requires (k, end) == Prefix(dirs, owner, None, Paths.Segments(wd, path))
    requires k < |Paths.Segments(wd, path)|
    requires m == dirs + Chain(nextDirId, end, Paths.Segments(wd, path)[k..], owner, now)
    requires last == nextDirId + |Paths.Segments(wd, path)| - k - 1
    requires UniqueDirKeys(m) && Extends(m, dirs)
    ensures Names(m, owner, wd, path, last)
  {
    var segs := Paths.Segments(wd, path);
    var pre, rest := segs[..k], segs[k..];
    assert segs == pre + rest;
    CreateStart(dirs, owner, segs);
    UnionExtends(dirs, Chain(nextDirId, end, rest, owner, now), m);
    WalkIntoChain(dirs, m, owner, pre, rest, end, nextDirId, now, last);
  }

  /** `path` names the directory row `id`. */
  ghost predicate Names(dirs: map<int, Dir>, owner: int, wd: string, path: string, id: int)
  {
    ResolveDir(dirs, owner, wd, path) == Success(Some(id))
  }

  /** The tables after `createDirectory(path)` inserted the chain its plan asks for: the
      invariants hold, only rows were added, and the path names the chain's last row. */
  lemma ChainAdded(dirs: map<int, Dir>, files: map<int, FileRow>, nextDirId: int, nextFileId: int,
                   rank: map<int, nat>, owner: int, wd: string, path: string, now: int,
                   at: Option<int>, rest: seq<string>, after: map<int, Dir>, next: int)
    returns (rank2: map<int, nat>)
    requires Consistent(dirs, files, nextDirId, nextFileId) && Ranked(dirs, rank)
    requires CreatePlan(dirs, owner, wd, path) == Success((at, rest))
    requires after == dirs + Chain(nextDirId, at, rest, owner, now) && next == nextDirId + |rest|
    ensures Consistent(after, files, next, nextFileId) && Ranked(after, rank2) && Extends(after, dirs)
    ensures Names(after, owner, wd, path, next - 1)
  {
    rank2 := ChainRank(rank, Chain(nextDirId, at, rest, owner, now), nextDirId, at);
    ChainAddedKeeps(dirs, files, nextDirId, nextFileId, rank, owner, wd, path, now, at, rest, after, next, rank2);
    ChainAddedNames(dirs, nextDirId, owner, wd, path, now, at, rest, after, next);
  }

  lemma ChainAddedKeeps(dirs: map<int, Dir>, files: map<int, FileRow>, nextDirId: int, nextFileId: int,
                        rank: map<int, nat>, owner: int, wd: string, path: string, now: int,
                        at: Option<int>, rest: seq<string>, after: map<int, Dir>, next: int, rank2: map<int, nat>)
    requires Consistent(dirs, files, nextDirId, nextFileId) && Ranked(dirs, rank)
    requires CreatePlan(dirs, owner, wd, path) == Success((at, rest))
    requires after == dirs + Chain(nextDirId, at, rest, owner, now) && next == nextDirId + |rest|
    requires rank2 == ChainRank(rank, Chain(nextDirId, at, rest, owner, now), nextDirId, at)
    ensures Consistent(after, files, next, nextFileId) && Ranked(after, rank2) && Extends(after, dirs)
  {
    var segs := Paths.Segments(wd, path);
    var (k, end) := Prefix(dirs, owner, None, segs);
    assert at == end && rest == segs[k..] && |rest| == |segs| - k;
    CreateDirectoryKeeps(dirs, files, nextDirId, nextFileId, rank, owner, segs, now);
  }

  lemma ChainAddedNames(dirs: map<int, Dir>, nextDirId: int, owner: int, wd: string, path: string, now: int,
                        at: Option<int>, rest: seq<string>, after: map<int, Dir>, next: int)
    requires ParentsExist(dirs)
    requires CreatePlan(dirs, owner, wd, path) == Success((at, rest))
    requires after == dirs + Chain(nextDirId, at, rest, owner, now) && next == nextDirId + |rest|
    requires UniqueDirKeys(after) && Extends(after, dirs)
    ensures Names(after, owner, wd, path, next - 1)
  {
    var segs := Paths.Segments(wd, path);
    var pk := Prefix(dirs, owner, None, segs);
    assert CreatePlan(dirs, owner, wd, path) == Success((pk.1, segs[pk.0..]));
    CreateDirectoryResolves(dirs, nextDirId, owner, wd, path, pk.0, pk.1, now, after, next - 1);
  }

  /** What `createDirectory(path)` decides before it inserts anything: the directory the
      missing segments go under and the missing segments, or why nothing is inserted. */
  ghost function CreatePlan(dirs: map<int, Dir>, owner: int, wd: string, path: string): Result<(Option<int>, seq<string>)>
  {
    var segs := Paths.Segments(wd, path);
    var (k, end) := Prefix(dirs, owner, None, segs);
    if |segs| == 0 then Failure(InvalidArgument)
    else if k == |segs| then Failure(Conflict)
    else if !Paths.AllAddressable(segs[k..]) then Failure(InvalidArgument)
    else Success((end, segs[k..]))
  }

  /** The plan refuses the root, refuses a path that already names a directory with a conflict,
      and otherwise splits the path into the part that exists, ending at `at`, and the missing
      rest, whose first segment has no directory under `at`. */
  lemma CreatePlanMeaning(dirs: map<int, Dir>, owner: int, wd: string, path: string)
    requires ParentsExist(dirs)
    ensures var segs := Paths.Segments(wd, path);
      var r := CreatePlan(dirs, owner, wd, path);
      && (|segs| == 0 ==> r == Failure(InvalidArgument))
      && (r == Failure(Conflict) <==> |segs| != 0 && ResolveDir(dirs, owner, wd, path).Success?)
      && (r.Failure? ==> r.error != NotFound)
      && (r.Success? ==>
            var (at, rest) := r.value;
            var k := |segs| - |rest|;
            && 0 <= k < |segs| && segs[k..] == rest && Paths.AllAddressable(rest)
            && Walk(dirs, owner, None, segs[..k]) == Some(at)
            && (at.Some? ==> at.value in dirs && dirs[at.value].ownerId == owner)
            && Child(dirs, owner, at, rest[0]).None?)
  {
    var segs := Paths.Segments(wd, path);
    CreateStart(dirs, owner, segs);
    PrefixResolves(dirs, owner, None, segs);
    var (k, end) := Prefix(dirs, owner, None, segs);
    if CreatePlan(dirs, owner, wd, path).Success? {
      assert CreatePlan(dirs, owner, wd, path).value == (end, segs[k..]);
      assert |segs| - |segs[k..]| == k;
    }
  }

  /** What `moveDirectory(path, newPath)` and `copyDirectory(path, newPath)` act on: the source
      directory, the destination parent and name, and the path the directory is found under
      afterwards; or why they refuse: the source does not resolve or is the root, `splitPath`
      refuses the destination, its parent does not resolve, the new name could not be resolved
      again, or the destination parent lies in the source's own subtree. A copy may go directly
      into its source (`copying`): the source's listing is read before the copy exists. */
  ghost function DirRelocatePlan(dirs: map<int, Dir>, rank: map<int, nat>, owner: int, wd: string,
                                 path: string, newPath: string, copying: bool): (r: Result<Relocation>)
    requires Ranked(dirs, rank)
    ensures r.Success? ==> r.value.source in dirs
  {
    match ResolveDir(dirs, owner, wd, path)
    case Failure(e) => Failure(e)
    case Success(None) => Failure(InvalidArgument)
    case Success(Some(d)) =>
      ResolvedOwned(dirs, owner, wd, path);
      match Paths.SplitPath(newPath)
      case Failure(e) => Failure(e)
      case Success((parent, leaf)) =>
        match ResolveDir(dirs, owner, wd, parent)
        case Failure(e) => Failure(e)
        case Success(at) =>
          var name := Paths.NewName(leaf, dirs[d].name);
          if !Paths.IsAddressable(name) then Failure(InvalidArgument)
          else if at.Some? && at.value in Sub(dirs, rank, d) && !(copying && at.value == d) then Failure(InvalidArgument)
          else Success(Relocation(d, at, name, Paths.CopyTarget(newPath, leaf, dirs[d].name)))
  }

  /** A directory relocation starts from the directory the source path names, goes under one of
      the owner's directories outside the source's subtree, gives an addressable name, and its
      target path is the destination parent's path and that name. */
  lemma DirRelocatePlanSource(dirs: map<int, Dir>, rank: map<int, nat>, owner: int, wd: string, path: string, newPath: string,
                              copying: bool)
    requires Ranked(dirs, rank) && DirNamesAddressable(dirs)
    requires DirRelocatePlan(dirs, rank, owner, wd, path, newPath, copying).Success?
    ensures var p := DirRelocatePlan(dirs, rank, owner, wd, path, newPath, copying).value;
      && ResolveDir(dirs, owner, wd, path) == Success(Some(p.source))
      && p.source in dirs && dirs[p.source].ownerId == owner
      && (p.at.Some? ==> p.at.value in dirs && dirs[p.at.value].ownerId == owner)
      && (p.at.Some? && p.at.value in Sub(dirs, rank, p.source) ==> copying && p.at.value == p.source)
      && Paths.IsAddressable(p.name)
      && Paths.SplitPath(newPath).Success?
      && var parent := Paths.SplitPath(newPath).value.0;
      && ResolveDir(dirs, owner, wd, parent) == Success(p.at)
      && Paths.Segments(wd, p.target) == Paths.Segments(wd, parent) + [p.name]
      && p.target != ""
  {
    var d := ResolveDir(dirs, owner, wd, path).value.value;
    ResolvedOwned(dirs, owner, wd, path);
    var (parent, leaf) := Paths.SplitPath(newPath).value;
    ResolvedOwned(dirs, owner, wd, parent);
    Paths.CopyTargetSegments(wd, newPath, dirs[d].name);
  }

  /** One `moveDirectory` the unique index lets through: the invariants survive with the moved
      subtree re-ranked, the same rows lie below the moved directory, and the target path
      names it. */
  lemma MoveDirectoryStep(dirs: map<int, Dir>, files: map<int, FileRow>, nextDirId: int, nextFileId: int,
                          rank: map<int, nat>, owner: int, wd: string, path: string, newPath: string, now: int,
                          p: Relocation, row: Dir, after: map<int, Dir>, newRank: map<int, nat>)
    requires Consistent(dirs, files, nextDirId, nextFileId) && Ranked(dirs, rank)
    requires DirRelocatePlan(dirs, rank, owner, wd, path, newPath, false) == Success(p)
    requires p.source in dirs && row == Moves.MovedDir(dirs[p.source], p.at, p.name, now)
    requires !DirKeyTaken(dirs - {p.source}, DirKey(row))
    requires after == dirs[p.source := row]
    requires newRank == Moves.MoveRank(rank, Sub(dirs, rank, p.source), p.source, Moves.Base(rank, p.at))
    ensures Consistent(after, files, nextDirId, nextFileId)
    ensures Ranked(after, newRank)
    ensures Sub(after, newRank, p.source) == Sub(dirs, rank, p.source)
    ensures ResolveDir(after, owner, wd, p.target) == Success(Some(p.source))
  {
    var d := p.source;
    DirRelocatePlanSource(dirs, rank, owner, wd, path, newPath, false);
    var parent := Paths.SplitPath(newPath).value.0;
    UpdateDirConsistent(dirs, files, nextDirId, nextFileId, d, row);
    Moves.MoveKeepsRanked(dirs, rank, d, row);
    Moves.MoveKeepsSubtree(dirs, rank, d, row, newRank);
    var ps := Paths.Segments(wd, parent);
    Moves.WalkAfterMove(dirs, rank, d, row, owner, None, ps);
    ChildIsTheMatch(after, owner, p.at, p.name, d);
    WalkSnoc(after, owner, None, ps, p.name);
  }

  /** The copy `copyDirectory` inserts first, under the planned parent and name, is what the
      planned target path names. */
  lemma CopyRootResolves(dirs: map<int, Dir>, rank: map<int, nat>, owner: int, wd: string, path: string, newPath: string,
                         p: Relocation, lo: int, top: Dir)
    requires Ranked(dirs, rank) && DirNamesAddressable(dirs)
    requires DirRelocatePlan(dirs, rank, owner, wd, path, newPath, true) == Success(p)
    requires lo !in dirs && Matches(top, owner, p.at, p.name) && UniqueDirKeys(dirs[lo := top])
    ensures ResolveDir(dirs[lo := top], owner, wd, p.target) == Success(Some(lo))
  {
    DirRelocatePlanSource(dirs, rank, owner, wd, path, newPath, true);
    var parent := Paths.SplitPath(newPath).value.0;
    var big := dirs[lo := top];
    assert Extends(big, dirs);
    ResolveExtends(dirs, big, owner, wd, parent);
    WalkSnoc(big, owner, None, Paths.Segments(wd, parent), p.name);
    ChildIsTheMatch(big, owner, p.at, p.name, lo);
  }

  /** The copy of a listed directory `c`, from its path to its name below the target path
      `target` of the copy `lo`, is planned there under its own name. */
  lemma DirCopyPlanned(dirs: map<int, Dir>, rank: map<int, nat>, owner: int, wd: string, child: string, c: int,
                       target: string, lo: int, name: string)
    requires Ranked(dirs, rank)
    requires ResolveDir(dirs, owner, wd, child) == Success(Some(c)) && c in dirs && dirs[c].name == name
    requires Paths.IsAddressable(name)
    requires target != "" && ResolveDir(dirs, owner, wd, target) == Success(Some(lo)) && lo !in Sub(dirs, rank, c)
    ensures DirRelocatePlan(dirs, rank, owner, wd, child, target + "/" + name, true)
      == Success(Relocation(c, Some(lo), name, target + "/" + name))
  {
    Paths.SplitPathOfChild(target, name);
  }

  /** The copy of a listed file `f` to its name below the target path of the copy `lo` is
      planned there under its own name. */
  lemma FileCopyPlanned(dirs: map<int, Dir>, files: map<int, FileRow>, owner: int, wd: string, child: string, f: int,
                        target: string, lo: int, name: string)
    requires LookupFile(dirs, files, owner, wd, child) == Success(Some(f)) && f in files && files[f].name == name
    requires name != "" && '/' !in name
    requires target != "" && ResolveDir(dirs, owner, wd, target) == Success(Some(lo))
    requires child != target + "/" + name
    ensures RelocatePlan(dirs, files, owner, wd, child, target + "/" + name)
      == Success(Relocation(f, Some(lo), name, target + "/" + name))
  {
    Paths.SplitPathOfChild(target, name);
  }

  /** Before `copyFile` of the listed file `nodes[i]` into the copy `lo` of `d`: the copy is
      planned to the same name below `target` and its key is free there. */
  lemma FileNodeReady(dirs0: map<int, Dir>, rank0: map<int, nat>, files0: map<int, FileRow>, d: int,
                      nodes: seq<FSNode>, nd: int, i: nat, dirs: map<int, Dir>, files: map<int, FileRow>,
                      m: map<int, int>, fm: map<int, int>, lo: int, hi: int, flo: int, fhi: int, top: Dir,
                      owner: int, wd: string, path: string, target: string, now: int)
    requires Ranked(dirs0, rank0) && Consistent(dirs0, files0, lo, flo)
    requires ResolveDir(dirs0, owner, wd, path) == Success(Some(d)) && d in dirs0 && dirs0[d].ownerId == owner
    requires Listed.ListsChildren(dirs0, files0, d, nodes, nd) && i < |nodes| && nodes[i].nodeType == FileNode
    requires target != "" && ResolveDir(dirs0[lo := top], owner, wd, target) == Success(Some(lo))
    requires UniqueDirKeys(dirs) && UniqueFileKeys(files)
    requires Copies.CopyProgress(dirs0, rank0, files0, d, nodes, i, dirs, files, m, fm, lo, hi, flo, fhi, top, owner, now)
    ensures var (f, name) := (nodes[i].id, nodes[i].name);
      && f in files && files[f] == files0[f]
      && RelocatePlan(dirs, files, owner, wd, path + "/" + name, target + "/" + name)
           == Success(Relocation(f, Some(lo), name, target + "/" + name))
      && !FileKeyTaken(files, FileKey(Copies.CopiedRow(files[f], Some(lo), name, owner, now)))
  {
    var (f, name) := (nodes[i].id, nodes[i].name);
    Copies.CopyResolves(dirs0, lo, top, dirs, owner, wd, path, d, target);
    Copies.FileChildFacts(dirs0, files0, d, nodes, nd, i, dirs, files, flo, fhi, owner, wd, path);
    Copies.FileNameFree(dirs0, files0, d, nodes, nd, i, lo, flo, files, owner, now);
    Paths.ChildPathsDiffer(path, target, name);
    FileCopyPlanned(dirs, files, owner, wd, path + "/" + name, f, target, lo, name);
  }

  class FSProvider {
    const userId: int
    var workingDirectory: string
    var dirs: map<int, Dir>
    var files: map<int, FileRow>
    var blobs: map<string, seq<byte>>
    var nextDirId: int
    var nextFileId: int
    /** The content digest (blake2b-256 in hex). */
    const hash: seq<byte> -> string
    /** Witness that the directory rows form a forest. */
    ghost var rank: map<int, nat>

    ghost predicate Valid()
      reads this
    {
      && userId >= 0
      && Consistent(dirs, files, nextDirId, nextFileId)
      && Ranked(dirs, rank)
      && Stored(files, blobs)
      && Addressed(blobs, hash)
      && Injective(hash)
    }

    /** The provider for `userId` over the given tables and store, at `workingDirectory`. */
    constructor(userId: int, workingDirectory: string, dirs: map<int, Dir>, files: map<int, FileRow>,
                blobs: map<string, seq<byte>>, nextDirId: int, nextFileId: int,
                hash: seq<byte> -> string, ghost rank: map<int, nat>)
      requires userId >= 0
      requires Consistent(dirs, files, nextDirId, nextFileId) && Ranked(dirs, rank)
      requires Stored(files, blobs) && Addressed(blobs, hash) && Injective(hash)
      ensures Valid()
      ensures this.userId == userId && this.workingDirectory == workingDirectory
      ensures this.dirs == dirs && this.files == files && this.blobs == blobs
      ensures this.nextDirId == nextDirId && this.nextFileId == nextFileId && this.hash == hash
    {
      this.userId := userId;
      this.workingDirectory := workingDirectory;
      this.dirs := dirs;
      this.files := files;
      this.blobs := blobs;
      this.nextDirId := nextDirId;
      this.nextFileId := nextFileId;
      this.hash := hash;
      this.rank := rank;
    }

    /** `new FSProvider(userId, workingDirectory)`: refused unless `userId >= 0`; the working
        directory defaults to `/`. */
    static method Create(userId: int, workingDirectory: Option<string>, dirs: map<int, Dir>, files: map<int, FileRow>,
                         blobs: map<string, seq<byte>>, nextDirId: int, nextFileId: int,
                         hash: seq<byte> -> string, ghost rank: map<int, nat>)
      returns (r: Result<FSProvider>)
      requires Consistent(dirs, files, nextDirId, nextFileId) && Ranked(dirs, rank)
      requires Stored(files, blobs) && Addressed(blobs, hash) && Injective(hash)
      ensures r.Failure? <==> userId < 0
      ensures r.Failure? ==> r.error == InvalidArgument
      ensures r.Success? ==> fresh(r.value) && r.value.Valid() && r.value.userId == userId
      ensures r.Success? ==> r.value.workingDirectory == (if workingDirectory.Some? then workingDirectory.value else "/")
      ensures r.Success? ==> r.value.dirs == dirs && r.value.files == files && r.value.blobs == blobs
    {
      if userId < 0 {
        return Failure(InvalidArgument);
      }
      var wd := if workingDirectory.Some? then workingDirectory.value else "/";
      var p := new FSProvider(userId, wd, dirs, files, blobs, nextDirId, nextFileId, hash, rank);
      return Success(p);
    }

    method GetWorkingDirectory() returns (wd: string)
      ensures wd == workingDirectory
    {
      return workingDirectory;
    }

    method SetWorkingDirectory(wd: string)
      modifies this`workingDirectory
      ensures workingDirectory == wd
    {
      workingDirectory := wd;
    }

    /** One query of `getDirectory` and `createDirectory`: the owner's directory named `name`
        whose parent is `at`. */
    method SelectDirectory(at: Option<int>, name: string) returns (r: Option<int>)
      requires UniqueDirKeys(dirs)
      ensures r == Child(dirs, userId, at, name)
    {
      if exists i :: i in dirs && Matches(dirs[i], userId, at, name) {
        var i :| i in dirs && Matches(dirs[i], userId, at, name);
        ChildIsTheMatch(dirs, userId, at, name, i);
        r := Some(i);
      } else {
        r := None;
      }
    }

    /** `getDirectory`: the root (none) for the canonical path `/`, else the directory reached
        by looking the segments up one below the other, or `NotFound` at the first miss. */
    method GetDirectory(path: string) returns (r: Result<Option<int>>)
      requires Valid()
      ensures r == ResolveDir(dirs, userId, workingDirectory, path)
      ensures r.Failure? ==> r.error == NotFound
      ensures r.Success? && r.value.Some? ==> r.value.value in dirs && dirs[r.value.value].ownerId == userId
    {
      var absolute := Paths.GetAbsolutePath(workingDirectory, path);
      Paths.AbsolutePathSegments(workingDirectory, path);
      if absolute == "/" {
        return Success(None);
      }
      var found := LookUpEach(Paths.Pieces(absolute));
      if found.None? {
        return Failure(NotFound);
      }
      ResolvedOwned(dirs, userId, workingDirectory, path);
      return Success(found.value);
    }

    /** The loop of `getDirectory`: each segment is looked up below the directory the
        previous one named; none at the first miss. */
    method LookUpEach(names: seq<string>) returns (r: Option<Option<int>>)
      requires UniqueDirKeys(dirs)
      ensures r == Walk(dirs, userId, None, names)
    {
      var dir: Option<int> := None;
      var i := 0;
      while i < |names|
        invariant 0 <= i <= |names|
        invariant Walk(dirs, userId, None, names) == Walk(dirs, userId, dir, names[i..])
      {
        var found := SelectDirectory(dir, names[i]);
        WalkStep(dirs, userId, dir, names, i);
        if found.None? {
          return None;
        }
        dir := found;
        i := i + 1;
      }
      assert names[i..] == [];
      return Some(dir);
    }

    /** The first loop of `createDirectory`: how many leading segments already exist, one
        below the other, and the directory the last of them names. */
    method ExistingPrefix(names: seq<string>) returns (i: nat, dir: Option<int>)
      requires UniqueDirKeys(dirs)
      ensures (i, dir) == Prefix(dirs, userId, None, names)
    {
      dir := None;
      i := 0;
      while i < |names|
        invariant 0 <= i <= |names|
        invariant Prefix(dirs, userId, None, names) ==
          (i + Prefix(dirs, userId, dir, names[i..]).0, Prefix(dirs, userId, dir, names[i..]).1)
      {
        var found := SelectDirectory(dir, names[i]);
        assert names[i..][0] == names[i] && names[i..][1..] == names[i + 1..];
        if found.None? {
          return;
        }
        dir := found;
        i := i + 1;
      }
      assert names[i..] == [];
    }

    /** The first half of `createDirectory`: walk the path's segments while they exist,
        refuse the root and a path that exists in full, and refuse a missing segment that
        could not name its directory again. Nothing changes. */
    method PlanCreate(path: string) returns (r: Result<(Option<int>, seq<string>)>)
      requires Valid()
      ensures r == CreatePlan(dirs, userId, workingDirectory, path)
    {
      var absolute := Paths.GetAbsolutePath(workingDirectory, path);
      Paths.AbsolutePathSegments(workingDirectory, path);
      var names := Paths.Pieces(absolute);
      if |names| == 0 {
        return Failure(InvalidArgument);
      }
      var i, dir := ExistingPrefix(names);
      if i == |names| {
        return Failure(Conflict);
      }
      var remaining := names[i..];
      if !Paths.AllAddressable(remaining) {
        return Failure(InvalidArgument);
      }
      return Success((dir, remaining));
    }

    /** `createDirectory`: the missing segments are inserted as a chain, each row the parent of
        the next, the first under the deepest directory that exists; afterwards the path names
        the last of them. */
    method CreateDirectory(path: string, now: int) returns (r: Outcome)
      requires Valid()
      modifies this`dirs, this`nextDirId, this`rank
      ensures Valid()
      ensures var plan := CreatePlan(old(dirs), userId, workingDirectory, path);
        && (plan.Failure? ==> r == Fail(plan.error) && dirs == old(dirs) && nextDirId == old(nextDirId))
        && (plan.Success? ==>
              && r == Pass
              && dirs == old(dirs) + Chain(old(nextDirId), plan.value.0, plan.value.1, userId, now)
              && nextDirId == old(nextDirId) + |plan.value.1|)
      ensures r.Pass? ==> Extends(dirs, old(dirs))
      ensures r.Pass? ==> ResolveDir(dirs, userId, workingDirectory, path) == Success(Some(nextDirId - 1))
    {
      var plan := PlanCreate(path);
      if plan.Failure? {
        return Fail(plan.error);
      }
      AddChain(path, plan.value.0, plan.value.1, now);
      return Pass;
    }

    /** The inserting half of `createDirectory`, once the plan says where the missing segments
        `rest` go. */
    method AddChain(ghost path: string, at: Option<int>, rest: seq<string>, now: int)
      requires Valid()
      requires CreatePlan(dirs, userId, workingDirectory, path) == Success((at, rest))
      modifies this`dirs, this`nextDirId, this`rank
      ensures Valid()
      ensures dirs == old(dirs) + Chain(old(nextDirId), at, rest, userId, now)
      ensures nextDirId == old(nextDirId) + |rest|
      ensures Extends(dirs, old(dirs))
      ensures ResolveDir(dirs, userId, workingDirectory, path) == Success(Some(nextDirId - 1))
    {
      ghost var (after, next, wd) := (dirs + Chain(nextDirId, at, rest, userId, now), nextDirId + |rest|, workingDirectory);
      ghost var rank2 := ChainAdded(dirs, files, nextDirId, nextFileId, rank, userId, wd, path, now, at, rest,
                                    after, next);
      InsertChain(at, rest, now);
      rank := rank2;
      assert dirs == after && nextDirId == next && workingDirectory == wd;
    }

    /** The second loop of `createDirectory`: each remaining segment is inserted under the
        row inserted before it, the first under `at`. */
    method InsertChain(at: Option<int>, names: seq<string>, now: int)
      modifies this`dirs, this`nextDirId
      ensures dirs == old(dirs) + Chain(old(nextDirId), at, names, userId, now)
      ensures nextDirId == old(nextDirId) + |names|
    {
      var dir := at;
      var k := 0;
      while k < |names|
        invariant 0 <= k <= |names|
        invariant dirs == old(dirs) + Chain(old(nextDirId), at, names[..k], userId, now)
        invariant nextDirId == old(nextDirId) + k
        invariant dir == if k == 0 then at else Some(nextDirId - 1)
      {
        ChainSnoc(old(nextDirId), at, names[..k], names[k], userId, now);
        assert names[..k + 1] == names[..k] + [names[k]];
        dirs := dirs[nextDirId := Dir(names[k], dir, userId, now, now)];
        dir := Some(nextDirId);
        nextDirId := nextDirId + 1;
        k := k + 1;
      }
      assert names[..k] == names;
    }

    /** One query of `getFile`: the owner's file named `name` in directory `at`. */
    method SelectFile(at: Option<int>, name: string) returns (r: Option<int>)
      requires Valid()
      ensures r == FileIn(files, userId, at, name)
    {
      if exists f :: f in files && FileMatches(files[f], userId, at, name) {
        var f :| f in files && FileMatches(files[f], userId, at, name);
        FileInIsTheMatch(files, userId, at, name, f);
        r := Some(f);
      } else {
        r := None;
      }
    }

    /** `getFile`: `splitPath`, then the parent directory, then the leaf name, then the row. */
    method GetFile(path: string) returns (r: Result<Option<int>>)
      requires Valid()
      ensures r == LookupFile(dirs, files, userId, workingDirectory, path)
      ensures r.Success? && r.value.Some? ==> r.value.value in files && files[r.value.value].ownerId == userId
    {
      var split := Paths.SplitPath(path);
      if split.Failure? {
        return Failure(split.error);
      }
      var (dirPath, name) := split.value;
      var dir := GetDirectory(dirPath);
      if dir.Failure? {
        return Failure(dir.error);
      }
      if name.None? || name.value == "" {
        return Failure(InvalidArgument);
      }
      var file := SelectFile(dir.value, name.value);
      return Success(file);
    }

    /** `getFileById`: the row with this id, provided it is the user's. */
    method GetFileById(id: int) returns (r: Option<FileRow>)
      requires Valid()
      ensures r.Some? <==> id in files && files[id].ownerId == userId
      ensures r.Some? ==> r.value == files[id]
    {
      if id in files && files[id].ownerId == userId {
        return Some(files[id]);
      }
      return None;
    }

    /** `readFile`: the stored bytes of the file the path names. */
    method ReadFile(path: string) returns (r: Result<seq<byte>>)
      requires Valid()
      ensures r == ReadSpec(dirs, files, blobs, userId, workingDirectory, path)
      ensures r.Failure? ==> r.error == NotFound || r.error == InvalidArgument
    {
      var file := GetFile(path);
      if file.Failure? {
        return Failure(file.error);
      }
      if file.value.None? {
        return Failure(NotFound);
      }
      var f := file.value.value;
      assert files[f].uri in blobs;
      return Success(blobs[files[f].uri]);
    }

    /** `getInfo`: the node of the file the path names, tagged with the canonical form of the
        path's parent part. */
    method GetInfo(path: string) returns (r: Result<FSNode>)
      requires Valid()
      ensures LookupFile(dirs, files, userId, workingDirectory, path).Failure? ==>
        r == Failure(LookupFile(dirs, files, userId, workingDirectory, path).error)
      ensures LookupFile(dirs, files, userId, workingDirectory, path) == Success(None) ==> r == Failure(NotFound)
      ensures LookupFile(dirs, files, userId, workingDirectory, path).Success? &&
              LookupFile(dirs, files, userId, workingDirectory, path).value.Some? ==>
        var f := LookupFile(dirs, files, userId, workingDirectory, path).value.value;
        && Paths.SplitPath(path).Success?
        && r == Success(TransformFile(workingDirectory, f, files[f], Paths.SplitPath(path).value.0))
        && r.value.ownerId == userId
    {
      var file := GetFile(path);
      if file.Failure? {
        return Failure(file.error);
      }
      if file.value.None? {
        return Failure(NotFound);
      }
      var f := file.value.value;
      var split := Paths.SplitPath(path);
      return Success(TransformFile(workingDirectory, f, files[f], split.value.0));
    }

    /** `listDirectory`: the children of the directory the path names. */
    method ListDirectory(path: string) returns (r: Result<seq<FSNode>>)
      requires Valid()
      ensures r == ListSpec(dirs, files, userId, workingDirectory, path)
    {
      var dir := GetDirectory(path);
      if dir.Failure? {
        return Failure(dir.error);
      }
      var at := dir.value;
      ChildNamesDistinct(dirs, files, userId, at);
      var ds := Order.OrderByName(ChildDirs(dirs, userId, at), DirNames(dirs));
      var fs := Order.OrderByName(ChildFiles(files, userId, at), FileNames(files));
      var nodes := DirNodes(workingDirectory, dirs, ds, path);
      nodes := nodes + FileNodes(workingDirectory, files, fs, path);
      return Success(nodes);
    }

    /** The checks `writeFile` makes before it touches the store: the path splits, the leaf is
        a non-empty name, the content is not the text `undefined`, the parent resolves. */
    method PlanWrite(path: string, content: Content) returns (r: Result<(Option<int>, string)>)
      requires Valid()
      ensures r == WritePlan(dirs, userId, workingDirectory, path, content)
    {
      var split := Paths.SplitPath(path);
      if split.Failure? {
        return Failure(split.error);
      }
      var (dirPath, name) := split.value;
      if name.None? || name.value == "" || content == Text("undefined") {
        return Failure(InvalidArgument);
      }
      var dir := GetDirectory(dirPath);
      if dir.Failure? {
        return Failure(dir.error);
      }
      return Success((dir.value, name.value));
    }

    /** `writeFile`: store the blob unless some row already references its key, then insert
        the row; the unique index refuses a name already taken in that directory. */
    method WriteFile(path: string, content: Content, size: Option<int>, mimeType: Option<string>, now: int)
      returns (r: Outcome)
      requires Valid()
      modifies this`files, this`blobs, this`nextFileId
      ensures Valid()
      ensures var plan := WritePlan(dirs, userId, workingDirectory, path, content);
        && (plan.Failure? ==>
              r == Fail(plan.error) && files == old(files) && blobs == old(blobs) && nextFileId == old(nextFileId))
        && (plan.Success? ==>
              var bytes := ContentBytes(content);
              var row := FileRow(plan.value.1, plan.value.0, hash(bytes), StoredSize(size, content), mimeType, userId, now, now);
              && blobs == StoreBlob(old(blobs), old(files), row.uri, bytes)
              && (FileKeyTaken(old(files), FileKey(row)) ==>
                    r == Fail(Conflict) && files == old(files) && nextFileId == old(nextFileId))
              && (!FileKeyTaken(old(files), FileKey(row)) ==>
                    r == Pass && files == old(files)[old(nextFileId) := row] && nextFileId == old(nextFileId) + 1))
      ensures r.Pass? ==> ReadSpec(dirs, files, blobs, userId, workingDirectory, path) == Success(ContentBytes(content))
      ensures r.Pass? && NoOrphans(old(files), old(blobs)) ==> NoOrphans(files, blobs)
    {
      var plan := PlanWrite(path, content);
      if plan.Failure? {
        return Fail(plan.error);
      }
      var (at, name) := plan.value;
      r := WritePlanned(path, content, size, mimeType, now, at, name);
    }

    /** The writing half of `writeFile`, once the plan has found the directory `at` and the
        leaf `name`. */
    method WritePlanned(ghost path: string, content: Content, size: Option<int>, mimeType: Option<string>, now: int,
                        at: Option<int>, name: string)
      returns (r: Outcome)
      requires Valid() && WritePlan(dirs, userId, workingDirectory, path, content) == Success((at, name))
      modifies this`files, this`blobs, this`nextFileId
      ensures Valid()
      ensures var bytes := ContentBytes(content);
        var row := FileRow(name, at, hash(bytes), StoredSize(size, content), mimeType, userId, now, now);
        && blobs == StoreBlob(old(blobs), old(files), row.uri, bytes)
        && (FileKeyTaken(old(files), FileKey(row)) ==>
              r == Fail(Conflict) && files == old(files) && nextFileId == old(nextFileId))
        && (!FileKeyTaken(old(files), FileKey(row)) ==>
              r == Pass && files == old(files)[old(nextFileId) := row] && nextFileId == old(nextFileId) + 1)
      ensures r.Pass? ==> ReadSpec(dirs, files, blobs, userId, workingDirectory, path) == Success(ContentBytes(content))
      ensures r.Pass? && NoOrphans(old(files), old(blobs)) ==> NoOrphans(files, blobs)
    {
      WritePlanOwned(dirs, userId, workingDirectory, path, content, at, name);
      ghost var (files0, blobs0, next0) := (files, blobs, nextFileId);
      var bytes := ContentBytes(content);
      var uri := StoreContent(bytes);
      var row := FileRow(name, at, uri, StoredSize(size, content), mimeType, userId, now, now);
      r := InsertRow(row);
      if r.Pass? {
        WriteFileInserted(dirs, files0, blobs0, nextDirId, next0, hash, userId, workingDirectory, path, content, at, name,
                          bytes, row, blobs);
      }
    }

    /** `FSService.write` as `writeFile` calls it: the blob is written under its digest unless
        some row already references that key. */
    method StoreContent(bytes: seq<byte>) returns (uri: string)
      requires Valid()
      modifies this`blobs
      ensures Valid()
      ensures uri == hash(bytes)
      ensures blobs == StoreBlob(old(blobs), files, uri, bytes)
      ensures uri in blobs && blobs[uri] == bytes
    {
      uri := hash(bytes);
      StoreBlobSound(blobs, files, bytes, hash);
      if uri !in Refs(files) {
        blobs := blobs[uri := bytes];
      }
    }

    /** `db.insert(files)`: the unique index refuses a row whose name is taken in its
        directory; otherwise the row gets the next id. */
    method InsertRow(row: FileRow) returns (r: Outcome)
      requires Valid()
      requires row.ownerId == userId && row.uri in blobs
      requires row.directoryId.Some? ==> row.directoryId.value in dirs && dirs[row.directoryId.value].ownerId == userId
      requires row.name != "" && '/' !in row.name
      modifies this`files, this`nextFileId
      ensures Valid()
      ensures FileKeyTaken(old(files), FileKey(row)) ==>
        r == Fail(Conflict) && files == old(files) && nextFileId == old(nextFileId)
      ensures !FileKeyTaken(old(files), FileKey(row)) ==>
        r == Pass && files == old(files)[old(nextFileId) := row] && nextFileId == old(nextFileId) + 1
    {
      if exists f :: f in files && FileKey(files[f]) == FileKey(row) {
        return Fail(Conflict);
      }
      InsertFileConsistent(dirs, files, nextDirId, nextFileId, row);
      files := files[nextFileId := row];
      nextFileId := nextFileId + 1;
      return Pass;
    }

    /** `deleteFile`: the blob goes when this row is the only one referencing its key, then
        the row goes. */
    method DeleteFile(path: string) returns (r: Outcome)
      requires Valid()
      modifies this`files, this`blobs
      ensures Valid()
      ensures var look := LookupFile(dirs, old(files), userId, workingDirectory, path);
        && (look.Failure? ==> r == Fail(look.error) && files == old(files) && blobs == old(blobs))
        && (look == Success(None) ==> r == Fail(NotFound) && files == old(files) && blobs == old(blobs))
        && (look.Success? && look.value.Some? ==>
              var f := look.value.value;
              && r == Pass
              && files == old(files) - {f}
              && blobs == Release(old(blobs), old(files), files)
              && (old(files)[f].uri in blobs <==> Shared(old(files), f)))
      ensures r.Pass? ==> ReadSpec(dirs, files, blobs, userId, workingDirectory, path) == Failure(NotFound)
      ensures NoOrphans(old(files), old(blobs)) ==> NoOrphans(files, blobs)
    {
      var file := GetFile(path);
      if file.Failure? {
        return Fail(file.error);
      }
      if file.value.None? {
        return Fail(NotFound);
      }
      ghost var (files0, blobs0) := (files, blobs);
      var f := file.value.value;
      RemoveFile(f);
      ReadAfterRemoval(dirs, files0, blobs, userId, workingDirectory, path, f);
      return Pass;
    }

    /** `deleteFile` once its path has named the row `f`. */
    method RemoveFile(f: int)
      requires Valid() && f in files
      modifies this`files, this`blobs
      ensures Valid()
      ensures files == old(files) - {f}
      ensures blobs == Release(old(blobs), old(files), files)
      ensures old(files)[f].uri in blobs <==> Shared(old(files), f)
      ensures NoOrphans(old(files), old(blobs)) ==> NoOrphans(files, blobs)
    {
      DeleteFileStep(dirs, files, blobs, nextDirId, nextFileId, hash, f);
      ghost var after := StoreAfterDelete(blobs, files, f);
      var uri := files[f].uri;
      var identical := Identical(files, uri);
      if |identical| == 1 {
        blobs := blobs - {uri};
      }
      assert blobs == after;
      files := files - {f};
    }

    /** `deleteDirectory`: every node of the listing goes first (a file by `deleteFile`, a
        directory by this same operation), then the row itself. The root cannot be deleted. */
    method DeleteDirectory(path: string) returns (r: Outcome)
      requires Valid()
      modifies this`dirs, this`files, this`blobs
      decreases |SubtreeAt(dirs, rank, userId, workingDirectory, path)|, 4
      ensures Valid()
      ensures var res := ResolveDir(old(dirs), userId, workingDirectory, path);
        && (res.Failure? ==> r == Fail(res.error) && dirs == old(dirs) && files == old(files) && blobs == old(blobs))
        && (res == Success(None) ==> r == Fail(InvalidArgument) && dirs == old(dirs) && files == old(files) && blobs == old(blobs))
        && (res.Success? && res.value.Some? ==>
              var gone := Sub(old(dirs), rank, res.value.value);
              && r == Pass
              && dirs == old(dirs) - gone
              && files == old(files) - FilesUnder(old(files), gone)
              && blobs == Release(old(blobs), old(files), files))
      ensures r.Pass? ==> ResolveDir(dirs, userId, workingDirectory, path) == Failure(NotFound)
      ensures NoOrphans(old(files), old(blobs)) ==> NoOrphans(files, blobs)
    {
      var dir := GetDirectory(path);
      if dir.Failure? {
        return Fail(dir.error);
      }
      if dir.value.None? {
        return Fail(InvalidArgument);
      }
      DeleteTree(path, dir.value.value);
      return Pass;
    }

    /** The body of `deleteDirectory` once `path` has named the directory `d`. */
    method DeleteTree(path: string, d: int)
      requires Valid() && ResolveDir(dirs, userId, workingDirectory, path) == Success(Some(d))
      modifies this`dirs, this`files, this`blobs
      decreases |Sub(dirs, rank, d)|, 3
      ensures Valid()
      ensures var gone := Sub(old(dirs), rank, d);
        && dirs == old(dirs) - gone
        && files == old(files) - FilesUnder(old(files), gone)
        && blobs == Release(old(blobs), old(files), files)
      ensures ResolveDir(dirs, userId, workingDirectory, path) == Failure(NotFound)
      ensures NoOrphans(old(files), old(blobs)) ==> NoOrphans(files, blobs)
    {
      ResolvedOwned(dirs, userId, workingDirectory, path);
      ChildNamesDistinct(dirs, files, userId, Some(d));
      var list := ListDirectory(path);
      var nodes := list.value;
      Listed.ListingListsChildren(dirs, files, userId, workingDirectory, path, d);
      DeleteListing(path, d, nodes, |ChildDirs(dirs, userId, Some(d))|);
    }

    /** `deleteDirectory` once the listing `nodes` of `d` is read: the nodes go, then `d`. */
    method DeleteListing(path: string, d: int, nodes: seq<FSNode>, ghost nd: int)
      requires Valid() && ResolveDir(dirs, userId, workingDirectory, path) == Success(Some(d))
      requires d in dirs && dirs[d].ownerId == userId
      requires Listed.ListsChildren(dirs, files, d, nodes, nd)
      modifies this`dirs, this`files, this`blobs
      decreases |Sub(dirs, rank, d)|, 2
      ensures Valid()
      ensures var gone := Sub(old(dirs), rank, d);
        && dirs == old(dirs) - gone
        && files == old(files) - FilesUnder(old(files), gone)
        && blobs == Release(old(blobs), old(files), files)
      ensures ResolveDir(dirs, userId, workingDirectory, path) == Failure(NotFound)
      ensures NoOrphans(old(files), old(blobs)) ==> NoOrphans(files, blobs)
    {
      ghost var (dirs0, files0, blobs0) := (dirs, files, blobs);
      DeleteNodes(path, d, nodes, nd);
      RemoveEmptied(path, d, dirs0, files0, blobs0, nodes, nd);
    }

    /** The `Promise.all` of `deleteDirectory`, one node after the other. */
    method DeleteNodes(path: string, ghost d: int, nodes: seq<FSNode>, ghost nd: int)
      requires Valid()
      requires ResolveDir(dirs, userId, workingDirectory, path) == Success(Some(d)) && d in dirs && dirs[d].ownerId == userId
      requires Listed.ListsChildren(dirs, files, d, nodes, nd)
      modifies this`dirs, this`files, this`blobs
      decreases |Sub(dirs, rank, d)|, 1
      ensures Valid()
      ensures dirs == old(dirs) - Listed.SubtreesBefore(old(dirs), rank, nodes, |nodes|)
      ensures files == old(files) - FilesUnder(old(files), Listed.SubtreesBefore(old(dirs), rank, nodes, |nodes|)) - Listed.FilesBefore(nodes, |nodes|)
      ensures blobs == Release(old(blobs), old(files), files)
    {
      ghost var (dirs0, files0, blobs0) := (dirs, files, blobs);
      Removal.RemovedNone(dirs, files, rank, nodes);
      var i := 0;
      while i < |nodes|
        invariant 0 <= i <= |nodes|
        invariant Valid()
        invariant dirs == dirs0 - Listed.SubtreesBefore(dirs0, rank, nodes, i)
        invariant files == files0 - FilesUnder(files0, Listed.SubtreesBefore(dirs0, rank, nodes, i)) - Listed.FilesBefore(nodes, i)
        invariant blobs == Release(blobs0, files0, files)
      {
        DeleteNode(path, nodes[i], d, dirs0, files0, blobs0, nodes, nd, i);
        i := i + 1;
      }
    }

    /** One node of the listing, deleted by the operation its kind calls for. */
    method DeleteNode(path: string, node: FSNode, ghost d: int, ghost dirs0: map<int, Dir>, ghost files0: map<int, FileRow>,
                      ghost blobs0: map<string, seq<byte>>, ghost nodes: seq<FSNode>, ghost nd: int, ghost i: nat)
      requires Valid() && Ranked(dirs0, rank) && Consistent(dirs0, files0, nextDirId, nextFileId)
      requires ResolveDir(dirs0, userId, workingDirectory, path) == Success(Some(d)) && d in dirs0 && dirs0[d].ownerId == userId
      requires Listed.ListsChildren(dirs0, files0, d, nodes, nd) && i < |nodes| && node == nodes[i]
      requires dirs == dirs0 - Listed.SubtreesBefore(dirs0, rank, nodes, i)
      requires files == files0 - FilesUnder(files0, Listed.SubtreesBefore(dirs0, rank, nodes, i)) - Listed.FilesBefore(nodes, i)
      requires blobs == Release(blobs0, files0, files)
      modifies this`dirs, this`files, this`blobs
      decreases |Sub(dirs0, rank, d)|, 0
      ensures Valid()
      ensures dirs == dirs0 - Listed.SubtreesBefore(dirs0, rank, nodes, i + 1)
      ensures files == files0 - FilesUnder(files0, Listed.SubtreesBefore(dirs0, rank, nodes, i + 1)) - Listed.FilesBefore(nodes, i + 1)
      ensures blobs == Release(blobs0, files0, files)
    {
      var child := path + "/" + node.name;
      ghost var (ds, fs, bs) := (dirs, files, blobs);
      if node.nodeType == FileNode {
        Removal.FileChildReady(dirs0, files0, rank, userId, workingDirectory, path, d, nodes, nd, i, dirs, files);
        var _ := DeleteFile(child);
        Removal.FileChildDone(dirs0, files0, blobs0, rank, nodes, i, ds, fs, bs, files, blobs);
      } else {
        Removal.DirChildReady(dirs0, files0, rank, userId, workingDirectory, path, d, nodes, nd, i, dirs);
        assert SubtreeAt(dirs, rank, userId, workingDirectory, child) == Sub(dirs0, rank, node.id);
        var _ := DeleteDirectory(child);
        Removal.DirChildDone(dirs0, files0, blobs0, rank, nodes, i, ds, fs, bs, Sub(ds, rank, node.id), dirs, files, blobs);
      }
    }

    /** The last statement of `deleteDirectory`: the row of `d`, now without children. */
    method RemoveEmptied(ghost path: string, d: int, ghost dirs0: map<int, Dir>, ghost files0: map<int, FileRow>,
                         ghost blobs0: map<string, seq<byte>>, ghost nodes: seq<FSNode>, ghost nd: int)
      requires Valid() && Ranked(dirs0, rank) && Consistent(dirs0, files0, nextDirId, nextFileId)
      requires Stored(files0, blobs0) && Addressed(blobs0, hash)
      requires ResolveDir(dirs0, userId, workingDirectory, path) == Success(Some(d)) && d in dirs0
      requires Listed.ListsChildren(dirs0, files0, d, nodes, nd)
      requires dirs == dirs0 - Listed.SubtreesBefore(dirs0, rank, nodes, |nodes|)
      requires files == files0 - FilesUnder(files0, Listed.SubtreesBefore(dirs0, rank, nodes, |nodes|)) - Listed.FilesBefore(nodes, |nodes|)
      requires blobs == Release(blobs0, files0, files)
      modifies this`dirs
      ensures Valid()
      ensures var gone := Sub(dirs0, rank, d);
        && dirs == dirs0 - gone
        && files == files0 - FilesUnder(files0, gone)
      ensures ResolveDir(dirs, userId, workingDirectory, path) == Failure(NotFound)
      ensures NoOrphans(files0, blobs0) ==> NoOrphans(files, blobs)
    {
      Removal.DeleteCovers(dirs0, files0, rank, d, nodes, nd);
      ghost var gone := Sub(dirs0, rank, d);
      SubtreeIsClosed(dirs0, rank, d);
      Removal.RemoveTreeConsistent(dirs0, files0, nextDirId, nextFileId, rank, gone);
      ReleaseKeepsInvariants(blobs0, files0, files, hash);
      Removal.DeletedGone(dirs0, rank, userId, workingDirectory, path, d);
      dirs := dirs - {d};
    }

    /** Whether `x` lies in the subtree of `d`: follow parent links up from `x`. The check
        `moveDirectory` and `copyDirectory` need and the source lacks. */
    method IsBelow(x: int, d: int) returns (b: bool)
      requires Valid() && x in dirs
      ensures b == (x in Sub(dirs, rank, d))
    {
      var y := x;
      while true
        invariant y in dirs
        invariant InSubtree(dirs, rank, x, d) == InSubtree(dirs, rank, y, d)
        decreases rank[y]
      {
        if y == d {
          return true;
        }
        if dirs[y].parentId.None? {
          return false;
        }
        y := dirs[y].parentId.value;
      }
    }

    /** The checks `moveDirectory` and `copyDirectory` make: the source resolves and is not the
        root, the destination splits, its parent resolves, the name is addressable and the
        destination is outside the source's subtree, or for a copy directly in the source. */
    method PlanDirRelocation(path: string, newPath: string, copying: bool) returns (r: Result<Relocation>)
      requires Valid()
      ensures r == DirRelocatePlan(dirs, rank, userId, workingDirectory, path, newPath, copying)
    {
      var dir := GetDirectory(path);
      if dir.Failure? {
        return Failure(dir.error);
      }
      if dir.value.None? {
        return Failure(InvalidArgument);
      }
      var d := dir.value.value;
      var split := Paths.SplitPath(newPath);
      if split.Failure? {
        return Failure(split.error);
      }
      var (parentPath, leaf) := split.value;
      var parent := GetDirectory(parentPath);
      if parent.Failure? {
        return Failure(parent.error);
      }
      var name := Paths.NewName(leaf, dirs[d].name);
      if !Paths.IsAddressable(name) {
        return Failure(InvalidArgument);
      }
      if parent.value.Some? {
        var inside := IsBelow(parent.value.value, d);
        if inside && !(copying && parent.value.value == d) {
          return Failure(InvalidArgument);
        }
      }
      return Success(Relocation(d, parent.value, name, Paths.CopyTarget(newPath, leaf, dirs[d].name)));
    }

    /** `db.insert(directories)`: the unique index refuses a row whose name is taken under its
        parent; otherwise the row gets the next id. */
    method InsertDirRow(row: Dir) returns (r: Outcome)
      requires Valid()
      requires row.ownerId == userId && Paths.IsAddressable(row.name)
      requires row.parentId.Some? ==> row.parentId.value in dirs && dirs[row.parentId.value].ownerId == userId
      modifies this`dirs, this`nextDirId, this`rank
      ensures Valid()
      ensures DirKeyTaken(old(dirs), DirKey(row)) ==>
        r == Fail(Conflict) && dirs == old(dirs) && nextDirId == old(nextDirId) && rank == old(rank)
      ensures !DirKeyTaken(old(dirs), DirKey(row)) ==>
        && r == Pass && dirs == old(dirs)[old(nextDirId) := row] && nextDirId == old(nextDirId) + 1
        && rank == old(rank)[old(nextDirId) := RankBelow(old(rank), row.parentId)]
    {
      if exists i :: i in dirs && DirKey(dirs[i]) == DirKey(row) {
        return Fail(Conflict);
      }
      InsertDirConsistent(dirs, files, nextDirId, nextFileId, row);
      InsertKeepsRanked(dirs, rank, nextDirId, row);
      rank := rank[nextDirId := RankBelow(rank, row.parentId)];
      dirs := dirs[nextDirId := row];
      nextDirId := nextDirId + 1;
      return Pass;
    }

    /** `copyDirectory`: the listing of the source is read, a row for the copy is inserted under
        the destination, and every node of the listing is copied into it (a file by `copyFile`,
        a directory by this same operation). Afterwards the destination holds a copy of the
        whole subtree (`m` and `fm` carry the source rows onto their copies) and nothing else
        changed; the source is untouched. */
    method CopyDirectory(path: string, newPath: string, now: int) returns (r: Outcome, ghost m: map<int, int>, ghost fm: map<int, int>)
      requires Valid()
      modifies this`dirs, this`files, this`nextDirId, this`nextFileId, this`rank
      decreases |SubtreeAt(dirs, rank, userId, workingDirectory, path)|, 6
      ensures Valid()
      ensures NoOrphans(old(files), blobs) ==> NoOrphans(files, blobs)
      ensures var plan := DirRelocatePlan(old(dirs), old(rank), userId, workingDirectory, path, newPath, true);
        && (plan.Failure? ==>
              r == Fail(plan.error) && dirs == old(dirs) && files == old(files)
              && nextDirId == old(nextDirId) && nextFileId == old(nextFileId))
        && (plan.Success? ==>
              var p := plan.value;
              var top := Dir(p.name, p.at, userId, now, now);
              && (DirKeyTaken(old(dirs), DirKey(top)) ==>
                    r == Fail(Conflict) && dirs == old(dirs) && files == old(files)
                    && nextDirId == old(nextDirId) && nextFileId == old(nextFileId))
              && (!DirKeyTaken(old(dirs), DirKey(top)) ==>
                    && r == Pass
                    && Copies.TreeCopied(old(dirs), old(rank), old(files), p.source, dirs, files, m, fm,
                                         old(nextDirId), nextDirId, old(nextFileId), nextFileId, top, userId, now)
                    && ResolveDir(dirs, userId, workingDirectory, path) == Success(Some(p.source))
                    && ResolveDir(dirs, userId, workingDirectory, p.target) == Success(Some(old(nextDirId)))))
    {
      m, fm := map[], map[];
      var plan := PlanDirRelocation(path, newPath, true);
      if plan.Failure? {
        r := Fail(plan.error);
        return;
      }
      r, m, fm := CopyPlanned(path, newPath, plan.value, now);
      KeptRefsNoOrphans(old(files), files, blobs);
    }

    /** `copyDirectory` once its checks have passed with the relocation `p`. */
    method CopyPlanned(path: string, newPath: string, p: Relocation, now: int)
      returns (r: Outcome, ghost m: map<int, int>, ghost fm: map<int, int>)
      requires Valid() && DirRelocatePlan(dirs, rank, userId, workingDirectory, path, newPath, true) == Success(p)
      modifies this`dirs, this`files, this`nextDirId, this`nextFileId, this`rank
      decreases |SubtreeAt(dirs, rank, userId, workingDirectory, path)|, 5
      ensures Valid()
      ensures var top := Dir(p.name, p.at, userId, now, now);
        && (DirKeyTaken(old(dirs), DirKey(top)) ==>
              r == Fail(Conflict) && dirs == old(dirs) && files == old(files)
              && nextDirId == old(nextDirId) && nextFileId == old(nextFileId))
        && (!DirKeyTaken(old(dirs), DirKey(top)) ==>
              && r == Pass
              && Copies.TreeCopied(old(dirs), old(rank), old(files), p.source, dirs, files, m, fm,
                                   old(nextDirId), nextDirId, old(nextFileId), nextFileId, top, userId, now)
              && ResolveDir(dirs, userId, workingDirectory, path) == Success(Some(p.source))
              && ResolveDir(dirs, userId, workingDirectory, p.target) == Success(Some(old(nextDirId))))
    {
      DirRelocatePlanSource(dirs, rank, userId, workingDirectory, path, newPath, true);
      ChildNamesDistinct(dirs, files, userId, Some(p.source));
      var list := ListDirectory(path);
      var nodes := list.value;
      Listed.ListingListsChildren(dirs, files, userId, workingDirectory, path, p.source);
      r, m, fm := CopyListing(path, newPath, p, nodes, |ChildDirs(dirs, userId, Some(p.source))|, now);
    }

    /** `copyDirectory` once the listing `nodes` of the source is read: the row of the copy goes
        in, then the listing is copied into it. */
    method CopyListing(path: string, newPath: string, p: Relocation, nodes: seq<FSNode>, ghost nd: int, now: int)
      returns (r: Outcome, ghost m: map<int, int>, ghost fm: map<int, int>)
      requires Valid() && DirRelocatePlan(dirs, rank, userId, workingDirectory, path, newPath, true) == Success(p)
      requires Listed.ListsChildren(dirs, files, p.source, nodes, nd)
      modifies this`dirs, this`files, this`nextDirId, this`nextFileId, this`rank
      decreases |SubtreeAt(dirs, rank, userId, workingDirectory, path)|, 4
      ensures Valid()
      ensures var top := Dir(p.name, p.at, userId, now, now);
        && (DirKeyTaken(old(dirs), DirKey(top)) ==>
              r == Fail(Conflict) && dirs == old(dirs) && files == old(files)
              && nextDirId == old(nextDirId) && nextFileId == old(nextFileId))
        && (!DirKeyTaken(old(dirs), DirKey(top)) ==>
              && r == Pass
              && Copies.TreeCopied(old(dirs), old(rank), old(files), p.source, dirs, files, m, fm,
                                   old(nextDirId), nextDirId, old(nextFileId), nextFileId, top, userId, now)
              && ResolveDir(dirs, userId, workingDirectory, path) == Success(Some(p.source))
              && ResolveDir(dirs, userId, workingDirectory, p.target) == Success(Some(old(nextDirId))))
    {
      m, fm := map[], map[];
      var d := p.source;
      DirRelocatePlanSource(dirs, rank, userId, workingDirectory, path, newPath, true);
      ghost var (dirs0, files0, rank0, lo, flo) := (dirs, files, rank, nextDirId, nextFileId);
      var top := Dir(p.name, p.at, userId, now, now);
      r := InsertDirRow(top);
      if r.Fail? {
        return;
      }
      CopyRootResolves(dirs0, rank0, userId, workingDirectory, path, newPath, p, lo, top);
      m, fm := CopyInto(path, p.target, d, nodes, nd, dirs0, rank0, files0, lo, flo, top, now);
    }

    /** The rest of `copyDirectory` once the row `top` of the copy is in under the id `lo`:
        the listing `nodes` of `d` is copied into it. */
    method CopyInto(path: string, target: string, ghost d: int, nodes: seq<FSNode>, ghost nd: int,
                    ghost dirs0: map<int, Dir>, ghost rank0: map<int, nat>, ghost files0: map<int, FileRow>,
                    ghost lo: int, ghost flo: int, ghost top: Dir, now: int)
      returns (ghost m: map<int, int>, ghost fm: map<int, int>)
      requires Valid() && Ranked(dirs0, rank0) && Consistent(dirs0, files0, lo, flo)
      requires dirs == dirs0[lo := top] && files == files0 && nextDirId == lo + 1 && nextFileId == flo
      requires ResolveDir(dirs0, userId, workingDirectory, path) == Success(Some(d)) && d in dirs0 && dirs0[d].ownerId == userId
      requires Listed.ListsChildren(dirs0, files0, d, nodes, nd)
      requires top.parentId.Some? ==>
        top.parentId.value in dirs0 && (top.parentId.value in Sub(dirs0, rank0, d) ==> top.parentId.value == d)
      requires target != "" && ResolveDir(dirs0[lo := top], userId, workingDirectory, target) == Success(Some(lo))
      modifies this`dirs, this`files, this`nextDirId, this`nextFileId, this`rank
      decreases |Sub(dirs0, rank0, d)|, 3
      ensures Valid()
      ensures Copies.TreeCopied(dirs0, rank0, files0, d, dirs, files, m, fm, lo, nextDirId, flo, nextFileId, top, userId, now)
      ensures ResolveDir(dirs, userId, workingDirectory, path) == Success(Some(d))
      ensures ResolveDir(dirs, userId, workingDirectory, target) == Success(Some(lo))
    {
      Copies.CopyStarts(dirs0, rank0, files0, d, nodes, lo, flo, top, userId, now);
      m, fm := CopyNodes(path, target, d, nodes, nd, dirs0, rank0, files0, lo, flo, top, now);
      Copies.CopyFinishes(dirs0, rank0, files0, d, nodes, nd, dirs, files, m, fm, lo, nextDirId, flo, nextFileId, top, userId, now);
      Copies.CopyResolves(dirs0, lo, top, dirs, userId, workingDirectory, path, d, target);
    }

    /** The `Promise.all` of `copyDirectory`, one node after the other, into the copy `lo` that
        `target` names. */
    method CopyNodes(path: string, target: string, ghost d: int, nodes: seq<FSNode>, ghost nd: int,
                     ghost dirs0: map<int, Dir>, ghost rank0: map<int, nat>, ghost files0: map<int, FileRow>,
                     ghost lo: int, ghost flo: int, ghost top: Dir, now: int)
      returns (ghost m: map<int, int>, ghost fm: map<int, int>)
      requires Valid() && Ranked(dirs0, rank0) && Consistent(dirs0, files0, lo, flo)
      requires ResolveDir(dirs0, userId, workingDirectory, path) == Success(Some(d)) && d in dirs0 && dirs0[d].ownerId == userId
      requires Listed.ListsChildren(dirs0, files0, d, nodes, nd)
      requires top.parentId.Some? ==>
        top.parentId.value in dirs0 && (top.parentId.value in Sub(dirs0, rank0, d) ==> top.parentId.value == d)
      requires target != "" && ResolveDir(dirs0[lo := top], userId, workingDirectory, target) == Success(Some(lo))
      requires Copies.CopyProgress(dirs0, rank0, files0, d, nodes, 0, dirs, files, map[d := lo], map[],
                                   lo, nextDirId, flo, nextFileId, top, userId, now)
      modifies this`dirs, this`files, this`nextDirId, this`nextFileId, this`rank
      decreases |Sub(dirs0, rank0, d)|, 2
      ensures Valid()
      ensures Copies.CopyProgress(dirs0, rank0, files0, d, nodes, |nodes|, dirs, files, m, fm,
                                  lo, nextDirId, flo, nextFileId, top, userId, now)
    {
      m, fm := map[d := lo], map[];
      var i := 0;
      while i < |nodes|
        invariant 0 <= i <= |nodes|
        invariant Valid()
        invariant Copies.CopyProgress(dirs0, rank0, files0, d, nodes, i, dirs, files, m, fm,
                                      lo, nextDirId, flo, nextFileId, top, userId, now)
      {
        m, fm := CopyNode(path, target, nodes[i], d, nodes, nd, i, dirs0, rank0, files0, lo, flo, top, m, fm, now);
        i := i + 1;
      }
      assert i == |nodes|;
    }

    /** One node of the listing, copied by the operation its kind calls for to its own name
        below `target`. */
    method CopyNode(path: string, target: string, node: FSNode, ghost d: int, ghost nodes: seq<FSNode>, ghost nd: int,
                    ghost i: nat, ghost dirs0: map<int, Dir>, ghost rank0: map<int, nat>, ghost files0: map<int, FileRow>,
                    ghost lo: int, ghost flo: int, ghost top: Dir, ghost m: map<int, int>, ghost fm: map<int, int>, now: int)
      returns (ghost m2: map<int, int>, ghost fm2: map<int, int>)
      requires Valid() && Ranked(dirs0, rank0) && Consistent(dirs0, files0, lo, flo)
      requires ResolveDir(dirs0, userId, workingDirectory, path) == Success(Some(d)) && d in dirs0 && dirs0[d].ownerId == userId
      requires Listed.ListsChildren(dirs0, files0, d, nodes, nd) && i < |nodes| && node == nodes[i]
      requires top.parentId.Some? ==>
        top.parentId.value in dirs0 && (top.parentId.value in Sub(dirs0, rank0, d) ==> top.parentId.value == d)
      requires target != "" && ResolveDir(dirs0[lo := top], userId, workingDirectory, target) == Success(Some(lo))
      requires Copies.CopyProgress(dirs0, rank0, files0, d, nodes, i, dirs, files, m, fm,
                                   lo, nextDirId, flo, nextFileId, top, userId, now)
      modifies this`dirs, this`files, this`nextDirId, this`nextFileId, this`rank
      decreases |Sub(dirs0, rank0, d)|, 1
      ensures Valid()
      ensures Copies.CopyProgress(dirs0, rank0, files0, d, nodes, i + 1, dirs, files, m2, fm2,
                                  lo, nextDirId, flo, nextFileId, top, userId, now)
    {
      if node.nodeType == FileNode {
        m2, fm2 := CopyFileNode(path, target, node, d, nodes, nd, i, dirs0, rank0, files0, lo, flo, top, m, fm, now);
      } else {
        m2, fm2 := CopyDirNode(path, target, node, d, nodes, nd, i, dirs0, rank0, files0, lo, flo, top, m, fm, now);
      }
    }

    /** A listed file, copied by `copyFile` from its path to the same name below `target`. */
    method CopyFileNode(path: string, target: string, node: FSNode, ghost d: int, ghost nodes: seq<FSNode>, ghost nd: int,
                        ghost i: nat, ghost dirs0: map<int, Dir>, ghost rank0: map<int, nat>, ghost files0: map<int, FileRow>,
                        ghost lo: int, ghost flo: int, ghost top: Dir, ghost m: map<int, int>, ghost fm: map<int, int>, now: int)
      returns (ghost m2: map<int, int>, ghost fm2: map<int, int>)
      requires Valid() && Ranked(dirs0, rank0) && Consistent(dirs0, files0, lo, flo)
      requires ResolveDir(dirs0, userId, workingDirectory, path) == Success(Some(d)) && d in dirs0 && dirs0[d].ownerId == userId
      requires Listed.ListsChildren(dirs0, files0, d, nodes, nd) && i < |nodes| && node == nodes[i]
      requires node.nodeType == FileNode
      requires target != "" && ResolveDir(dirs0[lo := top], userId, workingDirectory, target) == Success(Some(lo))
      requires Copies.CopyProgress(dirs0, rank0, files0, d, nodes, i, dirs, files, m, fm,
                                   lo, nextDirId, flo, nextFileId, top, userId, now)
      modifies this`files, this`nextFileId
      ensures Valid()
      ensures Copies.CopyProgress(dirs0, rank0, files0, d, nodes, i + 1, dirs, files, m2, fm2,
                                  lo, nextDirId, flo, nextFileId, top, userId, now)
    {
      var child := path + "/" + node.name;
      var dest := target + "/" + node.name;
      ghost var f := node.id;
      FileNodeReady(dirs0, rank0, files0, d, nodes, nd, i, dirs, files, m, fm, lo, nextDirId, flo, nextFileId, top,
                    userId, workingDirectory, path, target, now);
      ghost var (fs, fhi) := (files, nextFileId);
      m2, fm2 := m, fm[f := fhi];
      CopyListedFile(child, dest, now, f, Some(lo), node.name);
      Copies.FileCopyDone(dirs0, rank0, files0, d, nodes, nd, i, dirs, fs, m, fm, lo, nextDirId, flo, fhi, top, userId, now,
                          Copies.CopiedRow(fs[f], Some(lo), node.name, userId, now), files);
    }

    /** A listed directory, copied by `copyDirectory` from its path to the same name below
        `target`. */
    method CopyDirNode(path: string, target: string, node: FSNode, ghost d: int, ghost nodes: seq<FSNode>, ghost nd: int,
                       ghost i: nat, ghost dirs0: map<int, Dir>, ghost rank0: map<int, nat>, ghost files0: map<int, FileRow>,
                       ghost lo: int, ghost flo: int, ghost top: Dir, ghost m: map<int, int>, ghost fm: map<int, int>, now: int)
      returns (ghost m2: map<int, int>, ghost fm2: map<int, int>)
      requires Valid() && Ranked(dirs0, rank0) && Consistent(dirs0, files0, lo, flo)
      requires ResolveDir(dirs0, userId, workingDirectory, path) == Success(Some(d)) && d in dirs0 && dirs0[d].ownerId == userId
      requires Listed.ListsChildren(dirs0, files0, d, nodes, nd) && i < |nodes| && node == nodes[i]
      requires node.nodeType == DirectoryNode
      requires top.parentId.Some? ==>
        top.parentId.value in dirs0 && (top.parentId.value in Sub(dirs0, rank0, d) ==> top.parentId.value == d)
      requires target != "" && ResolveDir(dirs0[lo := top], userId, workingDirectory, target) == Success(Some(lo))
      requires Copies.CopyProgress(dirs0, rank0, files0, d, nodes, i, dirs, files, m, fm,
                                   lo, nextDirId, flo, nextFileId, top, userId, now)
      modifies this`dirs, this`files, this`nextDirId, this`nextFileId, this`rank
      decreases |Sub(dirs0, rank0, d)|, 0
      ensures Valid()
      ensures Copies.CopyProgress(dirs0, rank0, files0, d, nodes, i + 1, dirs, files, m2, fm2,
                                  lo, nextDirId, flo, nextFileId, top, userId, now)
    {
      var child := path + "/" + node.name;
      var dest := target + "/" + node.name;
      Copies.CopyResolves(dirs0, lo, top, dirs, userId, workingDirectory, path, d, target);
      ghost var c := node.id;
      Copies.DirChildFacts(dirs0, rank0, files0, d, nodes, nd, i, dirs, rank, lo, nextDirId, flo, top.parentId,
                           userId, workingDirectory, path);
      Copies.DirNameFree(dirs0, files0, d, nodes, nd, i, lo, flo, dirs, userId, now);
      DirCopyPlanned(dirs, rank, userId, workingDirectory, child, c, target, lo, node.name);
      assert SubtreeAt(dirs, rank, userId, workingDirectory, child) == Sub(dirs0, rank0, c);
      ghost var (ds, fs, rk, hi, fhi) := (dirs, files, rank, nextDirId, nextFileId);
      ghost var mc, fmc := CopyListedDir(child, dest, now, Relocation(c, Some(lo), node.name, dest));
      Copies.DirCopyDone(dirs0, rank0, files0, d, nodes, nd, i, ds, rk, fs, m, fm, lo, hi, flo, fhi, top, userId, now,
                         dirs, files, mc, fmc, nextDirId, nextFileId);
      m2, fm2 := m + mc, fm + fmc;
    }

    /** `copyFile` of a listed file whose copy is planned as `p` and whose key is free: the
        copied row is inserted under the next id. */
    method CopyListedFile(child: string, dest: string, now: int, ghost f: int, ghost at: Option<int>, ghost name: string)
      requires Valid() && RelocatePlan(dirs, files, userId, workingDirectory, child, dest) == Success(Relocation(f, at, name, dest))
      requires f in files && !FileKeyTaken(files, FileKey(Copies.CopiedRow(files[f], at, name, userId, now)))
      modifies this`files, this`nextFileId
      ensures Valid()
      ensures files == old(files)[old(nextFileId) := Copies.CopiedRow(old(files)[f], at, name, userId, now)]
      ensures nextFileId == old(nextFileId) + 1
    {
      var _ := CopyFile(child, dest, now);
    }

    /** `copyDirectory` of a listed directory whose copy is planned as `p` and whose key is
        free: the copy of its whole subtree is added. */
    method CopyListedDir(child: string, dest: string, now: int, ghost p: Relocation)
      returns (ghost m: map<int, int>, ghost fm: map<int, int>)
      requires Valid() && DirRelocatePlan(dirs, rank, userId, workingDirectory, child, dest, true) == Success(p)
      requires !DirKeyTaken(dirs, DirKey(Dir(p.name, p.at, userId, now, now)))
      modifies this`dirs, this`files, this`nextDirId, this`nextFileId, this`rank
      decreases |SubtreeAt(dirs, rank, userId, workingDirectory, child)|, 7
      ensures Valid()
      ensures Copies.TreeCopied(old(dirs), old(rank), old(files), p.source, dirs, files, m, fm,
                                old(nextDirId), nextDirId, old(nextFileId), nextFileId,
                                Dir(p.name, p.at, userId, now, now), userId, now)
    {
      var _, m', fm' := CopyDirectory(child, dest, now);
      m, fm := m', fm';
    }

    /** `moveDirectory`: the source row gets the new name and parent and a fresh `updatedAt`;
        the unique index refuses a name the destination already holds. */
    method MoveDirectory(path: string, newPath: string, now: int) returns (r: Outcome)
      requires Valid()
      modifies this`dirs, this`rank
      ensures Valid()
      ensures var plan := DirRelocatePlan(old(dirs), old(rank), userId, workingDirectory, path, newPath, false);
        && (plan.Failure? ==> r == Fail(plan.error) && dirs == old(dirs))
        && (plan.Success? ==>
              var p := plan.value;
              var row := Moves.MovedDir(old(dirs)[p.source], p.at, p.name, now);
              && (r.Fail? <==> DirKeyTaken(old(dirs) - {p.source}, DirKey(row)))
              && (r.Fail? ==> r == Fail(Conflict) && dirs == old(dirs))
              && (r.Pass? ==> dirs == old(dirs)[p.source := row]))
      ensures r.Pass? ==>
        var p := DirRelocatePlan(old(dirs), old(rank), userId, workingDirectory, path, newPath, false).value;
        && ResolveDir(dirs, userId, workingDirectory, p.target) == Success(Some(p.source))
        && Sub(dirs, rank, p.source) == Sub(old(dirs), old(rank), p.source)
    {
      var plan := PlanDirRelocation(path, newPath, false);
      if plan.Failure? {
        return Fail(plan.error);
      }
      var p := plan.value;
      DirRelocatePlanSource(dirs, rank, userId, workingDirectory, path, newPath, false);
      var row := Moves.MovedDir(dirs[p.source], p.at, p.name, now);
      r := UpdateDirRow(path, newPath, p, row, now);
    }

    /** The update `moveDirectory` sends, refused by the unique index when another row holds
        the new key. */
    method UpdateDirRow(ghost path: string, ghost newPath: string, p: Relocation, row: Dir, ghost now: int) returns (r: Outcome)
      requires Valid()
      requires DirRelocatePlan(dirs, rank, userId, workingDirectory, path, newPath, false) == Success(p)
      requires p.source in dirs && row == Moves.MovedDir(dirs[p.source], p.at, p.name, now)
      modifies this`dirs, this`rank
      ensures Valid()
      ensures r.Fail? <==> DirKeyTaken(old(dirs) - {p.source}, DirKey(row))
      ensures r.Fail? ==> r == Fail(Conflict) && dirs == old(dirs)
      ensures r.Pass? ==> dirs == old(dirs)[p.source := row]
      ensures r.Pass? ==> ResolveDir(dirs, userId, workingDirectory, p.target) == Success(Some(p.source))
      ensures r.Pass? ==> Sub(dirs, rank, p.source) == Sub(old(dirs), old(rank), p.source)
    {
      if exists g :: g in dirs && g != p.source && DirKey(dirs[g]) == DirKey(row) {
        var g :| g in dirs && g != p.source && DirKey(dirs[g]) == DirKey(row);
        assert g in dirs - {p.source} && (dirs - {p.source})[g] == dirs[g];
        return Fail(Conflict);
      }
      ghost var newRank := Moves.MoveRank(rank, Sub(dirs, rank, p.source), p.source, Moves.Base(rank, p.at));
      MoveDirectoryStep(dirs, files, nextDirId, nextFileId, rank, userId, workingDirectory, path, newPath, now,
                        p, row, dirs[p.source := row], newRank);
      dirs := dirs[p.source := row];
      rank := newRank;
      return Pass;
    }

    /** The checks `copyFile` and `moveFile` make: the paths differ, the source is found, the
        destination splits and its parent resolves. */
    method PlanRelocation(path: string, newPath: string) returns (r: Result<Relocation>)
      requires Valid()
      ensures r == RelocatePlan(dirs, files, userId, workingDirectory, path, newPath)
      ensures r.Success? ==> r.value.source in files
    {
      if path == newPath {
        return Failure(InvalidArgument);
      }
      var file := GetFile(path);
      if file.Failure? {
        return Failure(file.error);
      }
      if file.value.None? {
        return Failure(NotFound);
      }
      var f := file.value.value;
      var split := Paths.SplitPath(newPath);
      if split.Failure? {
        return Failure(split.error);
      }
      var (dirPath, leaf) := split.value;
      var dir := GetDirectory(dirPath);
      if dir.Failure? {
        return Failure(dir.error);
      }
      return Success(Relocation(f, dir.value, Paths.NewName(leaf, files[f].name),
                                Paths.CopyTarget(newPath, leaf, files[f].name)));
    }

    /** `copyFile`: a new row for the same content under the destination; no blob is
        written. */
    method CopyFile(path: string, newPath: string, now: int) returns (r: Outcome)
      requires Valid()
      modifies this`files, this`nextFileId
      ensures Valid()
      ensures NoOrphans(old(files), blobs) ==> NoOrphans(files, blobs)
      ensures var plan := RelocatePlan(dirs, old(files), userId, workingDirectory, path, newPath);
        && (plan.Failure? ==> r == Fail(plan.error) && files == old(files) && nextFileId == old(nextFileId))
        && (plan.Success? ==>
              var p := plan.value;
              var row := Copies.CopiedRow(old(files)[p.source], p.at, p.name, userId, now);
              && (FileKeyTaken(old(files), FileKey(row)) ==>
                    r == Fail(Conflict) && files == old(files) && nextFileId == old(nextFileId))
              && (!FileKeyTaken(old(files), FileKey(row)) ==>
                    r == Pass && files == old(files)[old(nextFileId) := row] && nextFileId == old(nextFileId) + 1
                    && ReadSpec(dirs, files, blobs, userId, workingDirectory, p.target)
                         == ReadSpec(dirs, old(files), blobs, userId, workingDirectory, path)
                    && ReadSpec(dirs, files, blobs, userId, workingDirectory, path)
                         == ReadSpec(dirs, old(files), blobs, userId, workingDirectory, path)))
    {
      var plan := PlanRelocation(path, newPath);
      if plan.Failure? {
        return Fail(plan.error);
      }
      r := CopyRelocated(path, newPath, plan.value, now);
    }

    /** `copyFile` once its checks have passed with the relocation `p`: the insert. */
    method CopyRelocated(ghost path: string, ghost newPath: string, p: Relocation, now: int) returns (r: Outcome)
      requires Valid() && RelocatePlan(dirs, files, userId, workingDirectory, path, newPath) == Success(p)
      requires p.source in files
      modifies this`files, this`nextFileId
      ensures Valid()
      ensures NoOrphans(old(files), blobs) ==> NoOrphans(files, blobs)
      ensures var row := Copies.CopiedRow(old(files)[p.source], p.at, p.name, userId, now);
        && (FileKeyTaken(old(files), FileKey(row)) ==>
              r == Fail(Conflict) && files == old(files) && nextFileId == old(nextFileId))
        && (!FileKeyTaken(old(files), FileKey(row)) ==>
              r == Pass && files == old(files)[old(nextFileId) := row] && nextFileId == old(nextFileId) + 1
              && ReadSpec(dirs, files, blobs, userId, workingDirectory, p.target)
                   == ReadSpec(dirs, old(files), blobs, userId, workingDirectory, path)
              && ReadSpec(dirs, files, blobs, userId, workingDirectory, path)
                   == ReadSpec(dirs, old(files), blobs, userId, workingDirectory, path))
    {
      RelocatePlanSource(dirs, files, userId, workingDirectory, path, newPath);
      var row := Copies.CopiedRow(files[p.source], p.at, p.name, userId, now);
      if !FileKeyTaken(files, FileKey(row)) {
        CopyFileStep(dirs, files, blobs, nextDirId, nextFileId, userId, workingDirectory, path, newPath, now);
      }
      InsertKeepsNoOrphans(files, nextFileId, row, blobs);
      r := InsertRow(row);
    }

    /** `moveFile`: the row itself takes the destination's directory and name. */
    method MoveFile(path: string, newPath: string, now: int) returns (r: Outcome)
      requires Valid()
      modifies this`files
      ensures Valid()
      ensures NoOrphans(old(files), blobs) ==> NoOrphans(files, blobs)
      ensures var plan := RelocatePlan(dirs, old(files), userId, workingDirectory, path, newPath);
        && (plan.Failure? ==> r == Fail(plan.error) && files == old(files))
        && (plan.Success? ==>
              var p := plan.value;
              var row := MovedRow(old(files)[p.source], p.at, p.name, now);
              && (FileKeyTaken(old(files) - {p.source}, FileKey(row)) ==> r == Fail(Conflict) && files == old(files))
              && (!FileKeyTaken(old(files) - {p.source}, FileKey(row)) ==>
                    r == Pass && files == old(files)[p.source := row]
                    && ReadSpec(dirs, files, blobs, userId, workingDirectory, p.target)
                         == ReadSpec(dirs, old(files), blobs, userId, workingDirectory, path)))
    {
      var plan := PlanRelocation(path, newPath);
      if plan.Failure? {
        return Fail(plan.error);
      }
      RelocatePlanSource(dirs, files, userId, workingDirectory, path, newPath);
      r := MoveRelocated(path, newPath, plan.value, now);
    }

    /** The part of `moveFile` after the plan: rewrite the source row under the destination. */
    method MoveRelocated(ghost path: string, ghost newPath: string, p: Relocation, now: int) returns (r: Outcome)
      requires Valid() && RelocatePlan(dirs, files, userId, workingDirectory, path, newPath) == Success(p)
      requires p.source in files
      modifies this`files
      ensures Valid()
      ensures NoOrphans(old(files), blobs) ==> NoOrphans(files, blobs)
      ensures var row := MovedRow(old(files)[p.source], p.at, p.name, now);
        && (FileKeyTaken(old(files) - {p.source}, FileKey(row)) ==> r == Fail(Conflict) && files == old(files))
        && (!FileKeyTaken(old(files) - {p.source}, FileKey(row)) ==>
              r == Pass && files == old(files)[p.source := row]
              && ReadSpec(dirs, files, blobs, userId, workingDirectory, p.target)
                   == ReadSpec(dirs, old(files), blobs, userId, workingDirectory, path))
    {
      RelocatePlanSource(dirs, files, userId, workingDirectory, path, newPath);
      var row := MovedRow(files[p.source], p.at, p.name, now);
      if !FileKeyTaken(files - {p.source}, FileKey(row)) {
        MoveFileStep(dirs, files, blobs, nextDirId, nextFileId, userId, workingDirectory, path, newPath, now);
      }
      r := UpdateRow(p.source, row);
    }

    /** `db.update(files)`: the unique index refuses the new name when another row holds it in
        that directory; otherwise the row is rewritten in place. */
    method UpdateRow(id: int, row: FileRow) returns (r: Outcome)
      requires Valid() && id in files
      requires row.ownerId == userId && row.uri in blobs
      requires row.directoryId.Some? ==> row.directoryId.value in dirs && dirs[row.directoryId.value].ownerId == userId
      requires row.name != "" && '/' !in row.name
      modifies this`files
      ensures Valid()
      ensures FileKeyTaken(old(files) - {id}, FileKey(row)) ==> r == Fail(Conflict) && files == old(files)
      ensures !FileKeyTaken(old(files) - {id}, FileKey(row)) ==> r == Pass && files == old(files)[id := row]
      ensures row.uri == old(files)[id].uri && NoOrphans(old(files), blobs) ==> NoOrphans(files, blobs)
    {
      if exists g :: g in files && g != id && FileKey(files[g]) == FileKey(row) {
        var g :| g in files && g != id && FileKey(files[g]) == FileKey(row);
        assert g in files - {id} && (files - {id})[g] == files[g];
        return Fail(Conflict);
      }
      UpdateFileConsistent(dirs, files, nextDirId, nextFileId, id, row);
      if row.uri == files[id].uri {
        KeptRefsNoOrphans(files, files[id := row], blobs);
      }
      files := files[id := row];
      return Pass;
    }
  }
}
