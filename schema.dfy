/** The two tables the provider stores its tree in, their unique indexes, and the
    table-level invariants the provider keeps. */
module Schema {
  import opened Wrappers
  import Paths

  /** A row of `directories`: `parentId` is none for a directory at an owner's root.
      `createdAt` and `updatedAt` are clock readings. */
  datatype Dir = Dir(
    name: string,
    parentId: Option<int>,
    ownerId: int,
    createdAt: int,
    updatedAt: int)

  /** A row of `files`: `uri` is the content key of the file's blob; many rows may share one. */
  datatype FileRow = FileRow(
    name: string,
    directoryId: Option<int>,
    uri: string,
    size: Option<int>,
    mimeType: Option<string>,
    ownerId: int,
    createdAt: int,
    updatedAt: int)

  /** `COALESCE(parent, -1)`: the parent column as the unique indexes see it. */
  function Coalesce(parent: Option<int>): int
  {
    if parent.Some? then parent.value else -1
  }

  /** The columns of `unique_directory_name_coalesced` and `unique_file_name_coalesced`. */
  datatype IndexKey = IndexKey(name: string, parent: int, owner: int)

  function DirKey(d: Dir): IndexKey
  {
    IndexKey(d.name, Coalesce(d.parentId), d.ownerId)
  }

  function FileKey(f: FileRow): IndexKey
  {
    IndexKey(f.name, Coalesce(f.directoryId), f.ownerId)
  }

  /** No two directory rows share an index key. */
  predicate UniqueDirKeys(dirs: map<int, Dir>)
  {
    forall i, j {:trigger DirKey(dirs[i]), DirKey(dirs[j])} :: i in dirs && j in dirs && DirKey(dirs[i]) == DirKey(dirs[j]) ==> i == j
  }

  /** No two file rows share an index key. */
  predicate UniqueFileKeys(files: map<int, FileRow>)
  {
    forall i, j {:trigger FileKey(files[i]), FileKey(files[j])} :: i in files && j in files && FileKey(files[i]) == FileKey(files[j]) ==> i == j
  }

  /** Some directory row already holds `key`: an insert of that key is refused. */
  predicate DirKeyTaken(dirs: map<int, Dir>, key: IndexKey)
  {
    exists i :: i in dirs && DirKey(dirs[i]) == key
  }

  /** Some file row already holds `key`: an insert of that key is refused. */
  predicate FileKeyTaken(files: map<int, FileRow>, key: IndexKey)
  {
    exists i :: i in files && FileKey(files[i]) == key
  }

  /** Auto-increment ids: every id is at least 1 and below the next one to be handed out. */
  predicate DirIdsBelow(dirs: map<int, Dir>, next: int)
  {
    1 <= next && forall i :: i in dirs ==> 1 <= i < next
  }

  predicate FileIdsBelow(files: map<int, FileRow>, next: int)
  {
    1 <= next && forall i :: i in files ==> 1 <= i < next
  }

  /** `parentId` references `directories.id`. */
  predicate ParentsExist(dirs: map<int, Dir>)
  {
    forall i :: i in dirs && dirs[i].parentId.Some? ==> dirs[i].parentId.value in dirs
  }

  /** `directoryId` references `directories.id`. */
  predicate DirectoriesExist(files: map<int, FileRow>, dirs: map<int, Dir>)
  {
    forall f :: f in files && files[f].directoryId.Some? ==> files[f].directoryId.value in dirs
  }

  /** A directory's children and files belong to the directory's owner. */
  predicate OwnersAgree(dirs: map<int, Dir>, files: map<int, FileRow>)
  {
    && (forall i :: i in dirs && dirs[i].parentId.Some? && dirs[i].parentId.value in dirs ==>
          dirs[dirs[i].parentId.value].ownerId == dirs[i].ownerId)
    && (forall f :: f in files && files[f].directoryId.Some? && files[f].directoryId.value in dirs ==>
          dirs[files[f].directoryId.value].ownerId == files[f].ownerId)
  }

  /** Every directory name is one path segment that names its directory again. */
  predicate DirNamesAddressable(dirs: map<int, Dir>)
  {
    forall i :: i in dirs ==> Paths.IsAddressable(dirs[i].name)
  }

  /** Every file name is a non-empty text without `/`. */
  predicate FileNamesValid(files: map<int, FileRow>)
  {
    forall f :: f in files ==> files[f].name != "" && '/' !in files[f].name
  }

  /** The table invariants together. */
  predicate Consistent(dirs: map<int, Dir>, files: map<int, FileRow>, nextDirId: int, nextFileId: int)
  {
    && UniqueDirKeys(dirs) && UniqueFileKeys(files)
    && DirIdsBelow(dirs, nextDirId) && FileIdsBelow(files, nextFileId)
    && ParentsExist(dirs) && DirectoriesExist(files, dirs)
    && OwnersAgree(dirs, files)
    && DirNamesAddressable(dirs) && FileNamesValid(files)
  }

  /** With ids starting at 1, the `-1` that stands for "no parent" never collides with a real
      parent: two rows share an index key exactly when they share name, parent and owner. */
  lemma CoalesceKeysFaithful(a: Dir, b: Dir)
    requires a.parentId.Some? ==> a.parentId.value >= 1
    requires b.parentId.Some? ==> b.parentId.value >= 1
    ensures DirKey(a) == DirKey(b) <==>
      a.name == b.name && a.parentId == b.parentId && a.ownerId == b.ownerId
  {
  }

  /** Siblings, and the root-level directories of one owner, carry distinct names. */
  lemma SiblingNamesDistinct(dirs: map<int, Dir>, next: int, i: int, j: int)
    requires UniqueDirKeys(dirs) && ParentsExist(dirs) && DirIdsBelow(dirs, next)
    requires i in dirs && j in dirs && i != j
    requires dirs[i].parentId == dirs[j].parentId && dirs[i].ownerId == dirs[j].ownerId
    ensures dirs[i].name != dirs[j].name
  {
    assert DirKey(dirs[i]) != DirKey(dirs[j]);
  }

  /** An insert that passed the unique-index check keeps the index unique. */
  lemma InsertDirUnique(dirs: map<int, Dir>, id: int, row: Dir)
    requires UniqueDirKeys(dirs) && id !in dirs && !DirKeyTaken(dirs, DirKey(row))
    ensures UniqueDirKeys(dirs[id := row])
  {
  }

  lemma InsertFileUnique(files: map<int, FileRow>, id: int, row: FileRow)
    requires UniqueFileKeys(files) && id !in files && !FileKeyTaken(files, FileKey(row))
    ensures UniqueFileKeys(files[id := row])
  {
  }

  /** An update whose new key no other row holds keeps the index unique. */
  lemma UpdateDirUnique(dirs: map<int, Dir>, id: int, row: Dir)
    requires UniqueDirKeys(dirs) && id in dirs && !DirKeyTaken(dirs - {id}, DirKey(row))
    ensures UniqueDirKeys(dirs[id := row])
  {
    forall k | k in dirs && k != id ensures DirKey(dirs[k]) != DirKey(row) {
      assert k in dirs - {id} && (dirs - {id})[k] == dirs[k];
    }
    var m := dirs[id := row];
    forall i, j | i in m && j in m && DirKey(m[i]) == DirKey(m[j]) ensures i == j {
      if i != id && j != id {
        assert m[i] == dirs[i] && m[j] == dirs[j];
      }
    }
  }

  lemma UpdateFileUnique(files: map<int, FileRow>, id: int, row: FileRow)
    requires UniqueFileKeys(files) && id in files && !FileKeyTaken(files - {id}, FileKey(row))
    ensures UniqueFileKeys(files[id := row])
  {
    forall k | k in files && k != id ensures FileKey(files[k]) != FileKey(row) {
      assert k in files - {id} && (files - {id})[k] == files[k];
    }
    var m := files[id := row];
    forall i, j | i in m && j in m && FileKey(m[i]) == FileKey(m[j]) ensures i == j {
      if i != id && j != id {
        assert m[i] == files[i] && m[j] == files[j];
      }
    }
  }

  /** A file row may be inserted under the next id when its directory is one of its owner's
      directories, its name is valid and its key is free: the invariants hold afterwards. */
  lemma InsertFileConsistent(dirs: map<int, Dir>, files: map<int, FileRow>, nextDirId: int, nextFileId: int, row: FileRow)
    requires Consistent(dirs, files, nextDirId, nextFileId)
    requires row.directoryId.Some? ==> row.directoryId.value in dirs && dirs[row.directoryId.value].ownerId == row.ownerId
    requires row.name != "" && '/' !in row.name
    requires !FileKeyTaken(files, FileKey(row))
    ensures Consistent(dirs, files[nextFileId := row], nextDirId, nextFileId + 1)
  {
    InsertFileUnique(files, nextFileId, row);
  }

  /** The same for a row rewritten in place, whose key no other row holds. */
  lemma UpdateFileConsistent(dirs: map<int, Dir>, files: map<int, FileRow>, nextDirId: int, nextFileId: int, id: int, row: FileRow)
    requires Consistent(dirs, files, nextDirId, nextFileId) && id in files
    requires row.directoryId.Some? ==> row.directoryId.value in dirs && dirs[row.directoryId.value].ownerId == row.ownerId
    requires row.name != "" && '/' !in row.name
    requires !FileKeyTaken(files - {id}, FileKey(row))
    ensures Consistent(dirs, files[id := row], nextDirId, nextFileId)
  {
    UpdateFileUnique(files, id, row);
  }

  /** A directory row may be inserted under the next id when its parent is one of its owner's
      directories, its name is addressable and its key is free: the invariants hold afterwards. */
  lemma InsertDirConsistent(dirs: map<int, Dir>, files: map<int, FileRow>, nextDirId: int, nextFileId: int, row: Dir)
    requires Consistent(dirs, files, nextDirId, nextFileId)
    requires row.parentId.Some? ==> row.parentId.value in dirs && dirs[row.parentId.value].ownerId == row.ownerId
    requires Paths.IsAddressable(row.name)
    requires !DirKeyTaken(dirs, DirKey(row))
    ensures Consistent(dirs[nextDirId := row], files, nextDirId + 1, nextFileId)
  {
    InsertDirUnique(dirs, nextDirId, row);
  }

  /** A directory row rewritten in place, keeping its owner, under one of the owner's
      directories, with an addressable name no other row's key holds: the invariants hold. */
  lemma UpdateDirConsistent(dirs: map<int, Dir>, files: map<int, FileRow>, nextDirId: int, nextFileId: int, id: int, row: Dir)
    requires Consistent(dirs, files, nextDirId, nextFileId) && id in dirs
    requires row.ownerId == dirs[id].ownerId
    requires row.parentId.Some? ==> row.parentId.value in dirs && dirs[row.parentId.value].ownerId == row.ownerId
    requires Paths.IsAddressable(row.name)
    requires !DirKeyTaken(dirs - {id}, DirKey(row))
    ensures Consistent(dirs[id := row], files, nextDirId, nextFileId)
  {
    UpdateDirUnique(dirs, id, row);
  }

  /** Removing file rows keeps the invariants. */
  lemma RemoveFilesConsistent(dirs: map<int, Dir>, files: map<int, FileRow>, nextDirId: int, nextFileId: int, gone: set<int>)
    requires Consistent(dirs, files, nextDirId, nextFileId)
    ensures Consistent(dirs, files - gone, nextDirId, nextFileId)
  {
  }
}
