# FSProvider, modelled and proved in Dafny

This project models `FSProvider`. It is the per-user filesystem of a file-hosting server. The
filesystem lives in two flat SQL tables and a content-addressed blob store:

- `directories` rows point to their parent directory. A row with no parent is at the owner's root.
- `files` rows point to their directory and carry a content key (`uri`) into the blob store.
- Each blob is stored under the digest of its bytes. Many file rows may share one blob.

The provider belongs to one `userId` and keeps a mutable working directory. It offers:

- path resolution;
- creation of a missing path suffix;
- listing, recursive delete, recursive copy and move of directories;
- write, read, delete, copy, move and info of files.

The source signals every failure by throwing. Here each failure is a typed error (`Wrappers.FsError`):

- `InvalidArgument`: a malformed path or refused input.
- `NotFound`: nothing of this owner is at the path.
- `Conflict`: the unique index on (name, parent-or-−1, owner) refuses the insert or update.

Modules, following the program's structure:

| module | holds |
|---|---|
| `Wrappers` | option, result and outcome types |
| `Paths` | `getAbsolutePath` and `splitPath`, over a model of JavaScript `split`, `filter`, `join` and `splice` |
| `Order` | the code-point lexicographic order of `ORDER BY name` and the sorted enumeration of a set of rows |
| `Schema` | the two row types, the two unique indexes (`COALESCE(parent, -1)`) and the table invariants |
| `Tree` | resolution of segments by per-segment lookups, the parent-before-child ranking (`rank`), subtree sets, file lookup |
| `Blobs` | references from rows to blobs, store on write, release on delete, UTF-8 encoding of text content |
| `Nodes` | `transformFile`, `transformDirectory` and the listing |
| `Listed`, `Removal`, `Copies`, `Moves` | the facts behind the recursive delete, the recursive copy and the move |
| `Provider` | class `FSProvider`: fields `userId`, `workingDirectory`, `dirs`, `files`, `blobs`, `nextDirId`, `nextFileId`, `hash` and a ghost `rank` |
| `Findings`, `RootMoves` | members that follow the code as written where the model corrects it (see "## Findings"); `RootMoves` holds the moves to a destination at the root |

`FSProvider` states its behaviour through small specification functions:

- `ResolveDir` and `LookupFile` say what a path names.
- `CreatePlan`, `WritePlan`, `RelocatePlan` and `DirRelocatePlan` say what an operation refuses and where it acts.
- `ReadSpec` and `ListSpec` say what a read or a listing answers.

Each method's `ensures` ties its result and its new tables to those functions of the old state. Helper lemmas connect them: a write is then read back, a moved file is found at its new path, a deleted tree no longer resolves, a copy is a one-to-one replica.

The class keeps `Valid()` throughout:

- unique index keys in both tables;
- ids below the next auto-increment value;
- parents and directories exist;
- owners agree between parent and child;
- names are addressable;
- a ranking exists (the tree is acyclic);
- every row's blob exists and every blob sits under its digest.

"Every blob is referenced" (`NoOrphans`) is not part of `Valid()`, because a failed write can break it. The methods that change file rows or blobs state in their `ensures` that they keep it: `WriteFile` when it succeeds, and `DeleteFile`, `DeleteDirectory`, `CopyFile`, `MoveFile` and `CopyDirectory` always. The other operations change neither the file rows nor the blobs.

Quirks of the code that the model keeps:

- The input is always resolved against the working directory. A leading `/` does not go back to the root, and `/` itself resolves to the working directory.
- Each `..` anywhere in the input removes one trailing working-directory segment, stopping at the root.
- `.` is an ordinary segment.
- `writeFile` refuses the text `"undefined"`.
- Its size falls back to the byte count only for binary content, and a size of 0 counts as missing.
- Listing the children of a non-root directory selects by parent alone. `Tree.ChildrenOwned` shows that, under the owner invariant, this selects only the owner's rows.
- `copyDirectory` reads the source's children before inserting the copy.

## Model

| member | source | states |
|---|---|---|
| Paths.SplitPath | src/server/services/fs.provider.ts:67-72 | `/` gives (`/`, no name); a path is refused with `InvalidArgument` exactly when it is not `/` and has no `/`; any other path gives a leaf without `/` |
| Paths.SplitPathShape | src/server/services/fs.provider.ts:67-72 | the cut is at the last `/`: the leaf is the text after it, the parent the text before it, or `/` when that is empty |
| Paths.SplitPathOfChild | src/server/services/fs.provider.ts:67-72 | splitting `p + "/" + name` gives back `p` (or `/` for empty `p`) and `name` |
| Paths.AbsolutePathSegments | src/server/services/fs.provider.ts:15-24 | the absolute path always starts and ends with `/`; it is `/` exactly when no segment is left; its non-empty pieces are exactly the resolved segments |
| Paths.SegmentsWellFormed | src/server/services/fs.provider.ts:16-22 | no resolved segment is empty or contains `/` |
| Paths.UpCountedGlobally | src/server/services/fs.provider.ts:16-22 | a `..` between two parts of the input acts like a `..` in front: each `..` pops a working-directory segment wherever it stands |
| Paths.SlashIsWorkingDirectory | src/server/services/fs.provider.ts:17-22 | `/` and the empty path both resolve to the working directory's own segments: a leading `/` does not reset to the root |
| Paths.AbsolutePathIdempotentAtRoot | src/server/services/fs.provider.ts:15-24 | with working directory `/`, taking the absolute path twice gives the same as once |
| Paths.ResolveRendered | src/server/services/fs.provider.ts:15-24 | rendering segments as an absolute path and resolving it from `/` gives the segments back |
| Paths.ChildSegments | src/server/services/fs.provider.ts:15-24 | appending `/` and an addressable name adds exactly that one segment |
| Paths.RenderPieces | src/server/services/fs.provider.ts:22-23 | a rendered path has leading and trailing `/`, is `/` only for no segments, and splits back into its segments |
| Paths.CopyTargetSegments | src/server/services/fs.provider.ts:162-165 | the path of a copy or move target resolves to the destination parent's segments plus the new name |
| Paths.SplitPathOfCopyTarget | src/server/services/fs.provider.ts:162-173 | splitting the target path gives the destination parent and the new name |
| Order.LexIrreflexive | src/server/services/fs.provider.ts:208 | no name sorts before itself |
| Order.LexTransitive | src/server/services/fs.provider.ts:208 | the name order is transitive |
| Order.LexTotal | src/server/services/fs.provider.ts:208 | of two different names one sorts first |
| Order.HasUniqueMinimum | src/server/services/fs.provider.ts:208 | a non-empty set of rows with distinct names has exactly one first row by name |
| Order.OrderByName | src/server/services/fs.provider.ts:208 | the ids come out once each, all of the set, in strictly increasing name order |
| Order.SortedEnumerationUnique | src/server/services/fs.provider.ts:220 | two name-sorted enumerations of the same set are equal: the listing order is determined |
| Schema.CoalesceKeysFaithful | src/server/models/directory.model.ts:21-25 | with ids from 1 up, two rows share an index key exactly when they share name, parent and owner |
| Schema.SiblingNamesDistinct | src/server/models/directory.model.ts:21-25 | two directories with the same parent and owner have different names |
| Schema.InsertDirUnique | src/server/models/directory.model.ts:21-25 | an insert whose key is free keeps the directory index unique |
| Schema.UpdateDirUnique | src/server/models/directory.model.ts:21-25 | an update whose new key no other row holds keeps the directory index unique |
| Schema.InsertFileUnique | src/server/models/file.model.ts:23-27 | an insert whose key is free keeps the file index unique |
| Schema.UpdateFileUnique | src/server/models/file.model.ts:23-27 | an update whose new key no other row holds keeps the file index unique |
| Schema.InsertDirConsistent | src/server/models/directory.model.ts:11-25 | an insert under the next id, below one of the owner's directories, with an addressable name and a free key, keeps every table invariant |
| Schema.UpdateDirConsistent | src/server/models/directory.model.ts:11-25 | an in-place rewrite that keeps the owner, under one of the owner's directories, with a free key, keeps every table invariant |
| Schema.InsertFileConsistent | src/server/models/file.model.ts:11-27 | an insert under the next id, in one of the owner's directories, with a valid name and a free key, keeps every table invariant |
| Schema.UpdateFileConsistent | src/server/models/file.model.ts:11-27 | the same for a file row rewritten in place |
| Schema.RemoveFilesConsistent | src/server/models/file.model.ts:11-20 | deleting file rows keeps every table invariant |
| Tree.Child | src/server/services/fs.provider.ts:32-43 | the lookup of one segment gives a row of this owner with that name under that parent, or none exists |
| Tree.ChildIsTheMatch | src/server/services/fs.provider.ts:32-43 | a matching row is the lookup's answer: by the unique index there is only one |
| Tree.PrefixResolves | src/server/services/fs.provider.ts:115-132 | the existing prefix resolves to its last row, the next segment has no match, and the prefix is the whole path exactly when the whole path resolves |
| Tree.WalkTarget | src/server/services/fs.provider.ts:31-45 | a path that resolves ends at a row of the owner named by its last segment, whose parent the path without that segment resolves to |
| Tree.ResolveChild | src/server/services/fs.provider.ts:26-48 | `path + "/" + name` resolves to the child of the directory `path` names that has that name |
| Tree.ResolveExtends | src/server/services/fs.provider.ts:26-48 | adding rows with fresh keys does not change what an existing path resolves to |
| Tree.WalkAfterRemoval | src/server/services/fs.provider.ts:26-48 | deleting a downward-closed set of rows does not change how paths outside that set resolve |
| Tree.FileIn | src/server/services/fs.provider.ts:54-63 | the file lookup gives a row of this owner with that name in that directory, or none exists |
| Tree.FileInIsTheMatch | src/server/services/fs.provider.ts:54-63 | a matching file row is the lookup's answer |
| Tree.LookupOfSplit | src/server/services/fs.provider.ts:50-65 | looking up a file is looking up its name in the directory its parent path resolves to |
| Tree.ChildrenOwned | src/server/services/fs.provider.ts:200-219 | under the owner invariant, selecting children by parent alone selects exactly the rows of this owner under that parent |
| Tree.RankIndependent | src/server/models/directory.model.ts:13 | being in a subtree does not depend on which ranking witnesses acyclicity |
| Tree.SubtreeDecomposes | src/server/models/directory.model.ts:13 | a subtree is its root plus the subtrees of the root's children |
| Tree.AncestorsComparable | src/server/models/directory.model.ts:13 | two ancestors of one row are in each other's subtree one way or the other |
| Tree.SiblingSubtreesDisjoint | src/server/models/directory.model.ts:13 | the subtrees of two different children of one directory share no row |
| Tree.RemovalKeepsSubtree | src/server/services/fs.provider.ts:142-155 | deleting a downward-closed set of other rows leaves a subtree as it was |
| Tree.ChainShape | src/server/services/fs.provider.ts:134-139 | the inserted chain has one row per missing name under consecutive ids, each below the previous one and the first below the existing prefix |
| Tree.ChainWalk | src/server/services/fs.provider.ts:134-139 | walking the chain's names from its parent ends at the chain's last row |
| Tree.ChainKeepsTree | src/server/services/fs.provider.ts:134-139 | adding the chain keeps every table invariant and acyclicity, and only adds rows |
| Tree.InsertKeepsRanked | src/server/services/fs.provider.ts:164-168 | inserting a row below an existing directory keeps the table acyclic |
| Blobs.Utf8Char | src/server/services/fs.provider.ts:243-250 | each character becomes 1 to 4 bytes, one byte exactly for ASCII, with the UTF-8 lead and continuation ranges |
| Blobs.Utf8Concat | src/server/services/fs.provider.ts:243-250 | encoding a concatenation is concatenating the encodings |
| Blobs.Utf8Length | src/server/services/fs.provider.ts:243-250 | the encoding is between one and four bytes per character, and ASCII text encodes to itself |
| Blobs.Refs | src/server/services/fs.provider.ts:246-249 | the referenced content keys are exactly the rows' keys |
| Blobs.StoreBlob | src/server/services/fs.provider.ts:246-250 | a write adds only the new key, keeps all other blobs, and stores the bytes when no row references the key |
| Blobs.StoreBlobSound | src/server/services/fs.provider.ts:243-250 | with an injective digest, after the write the digest's blob holds the written bytes and every blob still sits under its digest |
| Blobs.StoreThenInsertNoOrphans | src/server/services/fs.provider.ts:250-258 | a blob write followed by a successful row insert leaves no unreferenced blob |
| Blobs.StoreWithoutInsertOrphans | src/server/services/fs.provider.ts:250-251 | a blob written for a new key whose row insert then fails is left unreferenced |
| Blobs.Release | src/server/services/fs.provider.ts:276 | after rows are deleted, the kept blobs are exactly those still referenced or never referenced |
| Blobs.Identical | src/server/services/fs.provider.ts:272-275 | the rows read are exactly the rows of any owner with that content key |
| Blobs.SoleReference | src/server/services/fs.provider.ts:272-276 | exactly one identical row is found exactly when no other row shares the key |
| Blobs.ReleaseOne | src/server/services/fs.provider.ts:272-277 | deleting one row deletes its blob exactly when no other row shares it |
| Blobs.KeptRefsNoOrphans | src/server/services/fs.provider.ts:280-310 | rows that keep their ids and content keys, whatever is added or rewritten beside them, keep every referenced key referenced, so no blob becomes an orphan |
| Blobs.ReleaseKeepsInvariants | src/server/services/fs.provider.ts:268-278 | releasing after deletions keeps every row's blob present, keeps blobs under their digests, and keeps "no orphans" |
| Blobs.ReleaseComposes | src/server/services/fs.provider.ts:146-153 | releasing after two rounds of deletions is releasing after both at once |
| Nodes.TransformFile | src/server/services/fs.provider.ts:74-86 | the node carries the row's id, name, owner, dates and size, an empty media type counts as none, and the path is the absolute form of the given path |
| Nodes.TransformDirectory | src/server/services/fs.provider.ts:88-100 | the node carries the row's id, name, owner and dates, has no size or media type, and its path is the absolute form of the given path |
| Nodes.ChildNamesDistinct | src/server/services/fs.provider.ts:208-220 | the children listed from one place have distinct names, so the sorted order is strict |
| Nodes.DirNodesShape | src/server/services/fs.provider.ts:196-209 | the directory part is one transformed node per child directory, each once, strictly sorted by name |
| Nodes.FileNodesShape | src/server/services/fs.provider.ts:210-222 | the file part is one transformed node per child file, each once, strictly sorted by name |
| Nodes.ListingParts | src/server/services/fs.provider.ts:194-224 | a listing is the directory nodes followed by the file nodes |
| Nodes.ListingDirectories | src/server/services/fs.provider.ts:196-209 | the listing starts with every child directory, each once, sorted by name |
| Nodes.ListingFiles | src/server/services/fs.provider.ts:210-222 | after the directories come every child file, each once, sorted by name |
| Nodes.DirNodesOwned | src/server/services/fs.provider.ts:196-209 | every directory node belongs to the owner and carries the listed path's absolute form |
| Nodes.FileNodesOwned | src/server/services/fs.provider.ts:210-222 | every file node belongs to the owner and carries the listed path's absolute form |
| Nodes.ListingOwned | src/server/services/fs.provider.ts:194-224 | every node listed belongs to the owner and carries the listed path's absolute form |
| Listed.DirPartLists | src/server/services/fs.provider.ts:196-209 | each directory node is a child of the listed directory with its name, each child appears once |
| Listed.FilePartLists | src/server/services/fs.provider.ts:210-222 | each file node is a file of the listed directory with its name, each file appears once |
| Listed.ListingListsChildren | src/server/services/fs.provider.ts:145 | the listing a recursive delete or copy reads names every child directory and file exactly once |
| Listed.SubtreeShrinks | src/server/services/fs.provider.ts:151 | a child's subtree is strictly smaller than its parent's: the recursion ends |
| Listed.BeforeMissesNext | src/server/services/fs.provider.ts:146-153 | the next listed child's subtree is disjoint from those of the children before it |
| Listed.ListingCovers | src/server/services/fs.provider.ts:142-155 | the subtrees of the listed directories and the listed files together are the whole subtree below the directory, with all its files |
| Moves.MoveKeepsRanked | src/server/services/fs.provider.ts:184-191 | moving a row under a directory outside its subtree keeps the table acyclic |
| Moves.MoveKeepsAncestry | src/server/services/fs.provider.ts:184-191 | such a move does not change which rows lie below the moved one |
| Moves.MoveKeepsSubtree | src/server/services/fs.provider.ts:184-191 | the moved directory's subtree is the same set of rows after the move |
| Moves.WalkAfterMove | src/server/services/fs.provider.ts:184-191 | paths that avoid the moved row resolve as before |
| Copies.CopiedRow | src/server/services/fs.provider.ts:286-293 | a copied file row keeps content key, size and media type, gets the new name and directory, this owner and fresh dates |
| Copies.AddedKeepsSubtree | src/server/services/fs.provider.ts:164-176 | rows added below a copy outside a subtree leave that subtree as it was |
| Copies.CopyStarts | src/server/services/fs.provider.ts:164-168 | after the top row of the copy is inserted, nothing else is copied yet |
| Copies.DirNameFree | src/server/services/fs.provider.ts:171-174 | a listed child directory's copy has a free key below the new directory |
| Copies.FileNameFree | src/server/services/fs.provider.ts:171-174 | a listed file's copy has a free key below the new directory |
| Copies.DirChildFacts | src/server/services/fs.provider.ts:171-174 | a listed child directory is still found at `path/name` with its subtree unchanged and smaller than the source's |
| Copies.FileChildFacts | src/server/services/fs.provider.ts:171-174 | a listed file is still found at `path/name` with its row unchanged |
| Copies.ComposeDirs | src/server/services/fs.provider.ts:169-176 | the copy so far and the copy of one more child subtree together are a copy of both |
| Copies.ComposeFiles | src/server/services/fs.provider.ts:169-176 | the same for the file rows |
| Copies.DirCopyDone | src/server/services/fs.provider.ts:171-174 | after a child directory is copied, everything listed up to it is copied |
| Copies.FileCopyDone | src/server/services/fs.provider.ts:171-174 | after a child file is copied, everything listed up to it is copied |
| Copies.CopyFinishes | src/server/services/fs.provider.ts:169-176 | after the whole listing, the whole subtree with its files is copied |
| Copies.CopyResolves | src/server/services/fs.provider.ts:157-177 | after the copy, the source path still names the source and the target path names the copy |
| Removal.ChildResolves | src/server/services/fs.provider.ts:149-151 | a listed child is still found at `path/name` after earlier siblings' subtrees are gone |
| Removal.DirChildReady | src/server/services/fs.provider.ts:150-151 | before a child directory is deleted, its path resolves to it and its subtree is as it was and smaller |
| Removal.FileChildReady | src/server/services/fs.provider.ts:148-149 | before a listed file is deleted, its path looks up its row |
| Removal.DirChildDone | src/server/services/fs.provider.ts:150-151 | after a child directory's delete, exactly the listed nodes up to it are gone, with their blobs released |
| Removal.FileChildDone | src/server/services/fs.provider.ts:148-149 | after a listed file's delete, exactly the listed nodes up to it are gone, with their blobs released |
| Removal.DeleteCovers | src/server/services/fs.provider.ts:146-154 | once every listed node is gone, the rows removed are the subtree below the directory and the files in it |
| Removal.RemoveTreeConsistent | src/server/services/fs.provider.ts:154 | deleting a whole subtree with its files keeps every table invariant |
| Removal.DeletedGone | src/server/services/fs.provider.ts:154 | once the subtree is gone, its path resolves to nothing |
| Provider.ResolvedOwned | src/server/services/fs.provider.ts:26-48 | a resolved directory is a row of this owner |
| Provider.ReadFinds | src/server/services/fs.provider.ts:261-266 | reading a path that looks up a row answers that row's blob |
| Provider.ReadAfterRemoval | src/server/services/fs.provider.ts:268-278 | after the row a path names is deleted, reading the path fails with `NotFound` |
| Provider.DeleteFileStep | src/server/services/fs.provider.ts:268-278 | deleting one row keeps the invariants; its blob survives exactly when another row shares it, and no blob is orphaned |
| Provider.StoredSize | src/server/services/fs.provider.ts:256 | a non-zero given size is kept; binary content falls back to its byte count; text without a size gets none |
| Provider.WritePlanIsLookup | src/server/services/fs.provider.ts:240-242 | a write refuses only with `InvalidArgument` or `NotFound`, and it goes under a valid name where a lookup of the same path looks |
| Provider.WritePlanOwned | src/server/services/fs.provider.ts:240-254 | a planned write goes into one of the owner's directories under a valid name |
| Provider.WriteFileInserted | src/server/services/fs.provider.ts:234-259 | after the blob write and the row insert, the invariants hold, reading the path gives the written bytes, and "no orphans" is kept |
| Provider.WriteInsertReads | src/server/services/fs.provider.ts:251-266 | an inserted row at the written place, whose blob holds the bytes, is what a read of the path finds |
| Provider.RelocatePlanSource | src/server/services/fs.provider.ts:280-301 | copyFile and moveFile refuse `path == newPath` and act on the owner's file the path names, into one of the owner's directories, under a valid name |
| Provider.RelocatePlanTarget | src/server/services/fs.provider.ts:284-301 | the target path looks up whatever row then has the new name in the destination directory |
| Provider.MovedRow | src/server/services/fs.provider.ts:302-309 | a moved row keeps content key, size, media type, owner and creation date, and gets the new name, directory and update date; a destination at the root gives it no directory, the corrected behaviour (see "## Findings") |
| Provider.CopyFileStep | src/server/services/fs.provider.ts:280-294 | after a copy, the invariants hold, the target reads the same bytes as the source, and the source still reads as before |
| Provider.MoveFileStep | src/server/services/fs.provider.ts:296-310 | after a move, the invariants hold and the target reads what the source read |
| Provider.CreateStart | src/server/services/fs.provider.ts:115-132 | the loop over existing segments stops at the first missing one under a row of the owner |
| Provider.CreatePlanMeaning | src/server/services/fs.provider.ts:110-133 | createDirectory refuses the root, refuses with `Conflict` exactly a path that already resolves, never answers `NotFound`, and otherwise inserts exactly the missing suffix under the existing prefix |
| Provider.CreateDirectoryKeeps | src/server/services/fs.provider.ts:134-139 | inserting the missing suffix keeps every invariant and acyclicity and only adds rows |
| Provider.CreateDirectoryResolves | src/server/services/fs.provider.ts:110-140 | after the suffix is inserted, the whole path names its last row |
| Provider.ChainAdded | src/server/services/fs.provider.ts:134-139 | after the chain is added, the invariants hold with a new ranking and the path names the last new row |
| Provider.DirRelocatePlanSource | src/server/services/fs.provider.ts:179-183 | a planned copy or move acts on the owner's directory at `path`, into one of the owner's directories outside its subtree, under an addressable name, and the target path is the parent's path plus that name |
| Provider.MoveDirectoryStep | src/server/services/fs.provider.ts:184-191 | after the move, the invariants and acyclicity hold, the subtree is the same set of rows, and the target path names the moved directory |
| Provider.CopyRootResolves | src/server/services/fs.provider.ts:164-168 | once the top row of a copy is in, the target path names it |
| Provider.DirCopyPlanned | src/server/services/fs.provider.ts:171-174 | the recursive copy of a listed child directory is planned from that child into the new directory under the child's name |
| Provider.FileCopyPlanned | src/server/services/fs.provider.ts:171-174 | the copy of a listed file is planned from that file into the new directory under its name |
| Provider.FileNodeReady | src/server/services/fs.provider.ts:171-174 | a listed file is unchanged, its copy's plan is the new directory and its name, and that name is free there |
| Provider.FSProvider.constructor | src/server/services/fs.provider.ts:10-13 | the provider holds the given owner, working directory and tables, and is valid |
| Provider.FSProvider.Create | src/server/services/fs.provider.ts:10-13 | construction fails exactly for a negative user id; the working directory defaults to `/` |
| Provider.FSProvider.GetWorkingDirectory | src/server/services/fs.provider.ts:102-104 | answers the working directory last set |
| Provider.FSProvider.SetWorkingDirectory | src/server/services/fs.provider.ts:106-108 | sets the working directory and nothing else |
| Provider.FSProvider.SelectDirectory | src/server/services/fs.provider.ts:32-43 | answers the owner's directory with that name under that parent, or none |
| Provider.FSProvider.LookUpEach | src/server/services/fs.provider.ts:31-45 | the segment loop answers what the walk of the segments from the root gives |
| Provider.FSProvider.GetDirectory | src/server/services/fs.provider.ts:26-48 | none for the root, the owner's directory the path names, or `NotFound` |
| Provider.FSProvider.ExistingPrefix | src/server/services/fs.provider.ts:115-132 | the loop answers how many leading segments exist and the directory they end at |
| Provider.FSProvider.PlanCreate | src/server/services/fs.provider.ts:111-133 | answers createDirectory's plan: the existing prefix's end and the missing segments, or the refusal |
| Provider.FSProvider.InsertChain | src/server/services/fs.provider.ts:134-139 | the insert loop adds exactly the chain of missing segments under consecutive ids |
| Provider.FSProvider.AddChain | src/server/services/fs.provider.ts:134-139 | the chain is added, the provider stays valid, only rows are added, and the path names the last new row |
| Provider.FSProvider.CreateDirectory | src/server/services/fs.provider.ts:110-140 | a refused plan changes nothing; otherwise exactly the missing suffix is inserted, existing rows are kept, and the whole path then names the last new row |
| Provider.FSProvider.SelectFile | src/server/services/fs.provider.ts:54-63 | answers the owner's file with that name in that directory, or none |
| Provider.FSProvider.GetFile | src/server/services/fs.provider.ts:50-65 | answers the lookup of the path: the owner's file row, none, or the error of the path or its parent |
| Provider.FSProvider.GetFileById | src/server/services/fs.provider.ts:226-232 | answers a row exactly when the id exists and belongs to this owner |
| Provider.FSProvider.ReadFile | src/server/services/fs.provider.ts:261-266 | answers the bytes of the file the path names, else `NotFound` or `InvalidArgument` |
| Provider.FSProvider.GetInfo | src/server/services/fs.provider.ts:312-316 | answers the named file's node, with its path taken from the parent part of the input, or the lookup's error |
| Provider.FSProvider.ListDirectory | src/server/services/fs.provider.ts:194-224 | answers the sorted child directories then the sorted child files of the directory the path names |
| Provider.FSProvider.PlanWrite | src/server/services/fs.provider.ts:240-242 | answers writeFile's target directory and name, or its refusal |
| Provider.FSProvider.StoreContent | src/server/services/fs.provider.ts:243-250 | the blob is written under the digest only when no row references it, and it then holds the bytes |
| Provider.FSProvider.InsertRow | src/server/services/fs.provider.ts:251-258 | a taken key gives `Conflict` and no change; otherwise the row is added under the next id |
| Provider.FSProvider.WritePlanned | src/server/services/fs.provider.ts:243-258 | the blob is stored first; the row is then inserted unless its key is taken; on success a read gives the bytes and "no orphans" is kept |
| Provider.FSProvider.WriteFile | src/server/services/fs.provider.ts:234-259 | refusals change nothing; a conflict may leave a new blob without a row; success adds one row, after which reading the path gives the content |
| Provider.FSProvider.RemoveFile | src/server/services/fs.provider.ts:272-277 | exactly that row goes, and its blob goes exactly when no other row shares it |
| Provider.FSProvider.DeleteFile | src/server/services/fs.provider.ts:268-278 | an absent file gives its error and no change; otherwise one row and, if unshared, its blob are deleted, and the path then reads as `NotFound` |
| Provider.FSProvider.DeleteNode | src/server/services/fs.provider.ts:147-152 | one listed child, file or whole directory, is deleted with the blobs it alone referenced |
| Provider.FSProvider.DeleteNodes | src/server/services/fs.provider.ts:146-153 | every listed child's subtree and every listed file is deleted, with the blobs released |
| Provider.FSProvider.RemoveEmptied | src/server/services/fs.provider.ts:154 | the emptied directory's own row goes last; the subtree is gone and its path no longer resolves |
| Provider.FSProvider.DeleteListing | src/server/services/fs.provider.ts:145-154 | deleting by the listing removes exactly the subtree and its files, releasing their unshared blobs |
| Provider.FSProvider.DeleteTree | src/server/services/fs.provider.ts:143-154 | the directory's subtree and every file in it are deleted, with their unshared blobs |
| Provider.FSProvider.DeleteDirectory | src/server/services/fs.provider.ts:142-155 | a missing path gives its error and the root gives `InvalidArgument`, changing nothing; otherwise exactly the subtree and its files go, the blobs they alone used go, and the path no longer resolves |
| Provider.FSProvider.PlanDirRelocation | src/server/services/fs.provider.ts:158-163 | answers the source, destination parent, name and target of a directory copy or move, or its refusal |
| Provider.FSProvider.InsertDirRow | src/server/services/fs.provider.ts:164-168 | a taken key gives `Conflict` and no change; otherwise the row is added under the next id with a rank above its parent's |
| Provider.FSProvider.CopyListedFile | src/server/services/fs.provider.ts:171-174 | a listed file becomes one copied row in the new directory |
| Provider.FSProvider.CopyListedDir | src/server/services/fs.provider.ts:171-174 | a listed child directory is copied whole into the new directory |
| Provider.FSProvider.CopyFileNode | src/server/services/fs.provider.ts:171-174 | after one more listed file, everything listed so far is copied |
| Provider.FSProvider.CopyDirNode | src/server/services/fs.provider.ts:171-174 | after one more listed directory, everything listed so far is copied |
| Provider.FSProvider.CopyNode | src/server/services/fs.provider.ts:170-175 | after one more listed node, everything listed so far is copied |
| Provider.FSProvider.CopyNodes | src/server/services/fs.provider.ts:169-176 | after every listed node, the copy covers the whole listing |
| Provider.FSProvider.CopyInto | src/server/services/fs.provider.ts:169-176 | the children read before the insert are copied below the new row: the whole subtree is replicated, and the source and the target paths name the source and the copy |
| Provider.FSProvider.CopyListing | src/server/services/fs.provider.ts:160-176 | with the listing read first, the top row is inserted unless its key is taken, and then the whole subtree is replicated below it |
| Provider.FSProvider.CopyPlanned | src/server/services/fs.provider.ts:160-176 | the same, reading the listing itself |
| Provider.FSProvider.CopyDirectory | src/server/services/fs.provider.ts:157-177 | refusals and a taken top key change nothing; otherwise a fresh-id replica of the subtree, files sharing content keys, lies below the destination parent and the target path names it; no blob becomes unreferenced |
| Provider.FSProvider.UpdateDirRow | src/server/services/fs.provider.ts:184-191 | the row is rewritten unless another row has its new key; the subtree is kept and the target path names the row |
| Provider.FSProvider.MoveDirectory | src/server/services/fs.provider.ts:179-192 | refusals change nothing; otherwise only the moved row changes (name, parent, update date), its subtree is kept and the target path names it, also for a destination at the root (the corrected behaviour, see "## Findings") |
| Provider.FSProvider.PlanRelocation | src/server/services/fs.provider.ts:280-285 | answers copyFile's and moveFile's source, destination and target, or the refusal |
| Provider.FSProvider.CopyFile | src/server/services/fs.provider.ts:280-294 | refusals and a taken key change nothing; otherwise one row sharing the content key is added, no blob is touched or left unreferenced, and the target reads the source's bytes |
| Provider.FSProvider.CopyRelocated | src/server/services/fs.provider.ts:286-293 | after a successful plan: a taken key changes nothing, otherwise one row under the next id is added, no blob is left unreferenced, and the target reads the source's bytes while the source still reads them |
| Provider.FSProvider.UpdateRow | src/server/services/fs.provider.ts:302-309 | the file row is rewritten unless another row has its new key |
| Provider.FSProvider.MoveFile | src/server/services/fs.provider.ts:296-310 | refusals and a taken key change nothing; otherwise only that row's name, directory and update date change, no blob is touched or left unreferenced, and the target reads what the source read, also for a destination at the root (the corrected behaviour, see "## Findings") |
| Provider.FSProvider.MoveRelocated | src/server/services/fs.provider.ts:302-309 | after a successful plan: a taken key changes nothing, otherwise only the source row is rewritten, no blob is left unreferenced, and the target reads what the source read |
| Findings.MoveAsWritten | src/server/services/fs.provider.ts:184-191 | the unchecked update puts the row under the given directory and leaves every other row alone |
| Findings.MoveIntoOwnSubtreeCycles | src/server/services/fs.provider.ts:179-192 | moving a directory under a row of its own subtree leaves a table that no ranking fits: the parent links have a cycle |
| Findings.MoveIntoChildExample | src/server/services/fs.provider.ts:179-192 | `/a` moved to `/a/b/x` makes `a` and `b` each other's ancestors |
| Findings.CopyIntoChildNeverEnds | src/server/services/fs.provider.ts:157-177 | copying a directory into its only, empty child runs out of any amount of fuel |
| Findings.CopyIntoChildExample | src/server/services/fs.provider.ts:157-177 | `/a` copied to `/a/b/x` never finishes |
| Findings.NoUpSegment | src/server/services/fs.provider.ts:15-24 | from a working directory without `..`, no resolved segment is `..` |
| Findings.DotDotLeafUnreachable | src/server/services/fs.provider.ts:182-190 | a directory that a move or copy named `..` is reached by no path from such a working directory |
| Findings.UpChildIsItself | src/server/services/fs.provider.ts:142-155 | from `/`, the path `${path}/..` that `deleteDirectory` builds for a child named `..` resolves to `path` itself |
| Findings.SplitUp | src/server/services/fs.provider.ts:15-24 | `..` splits into the one piece `..` |
| Findings.RootHasNoPieces | src/server/services/fs.provider.ts:15-24 | the root `/` has no segments |
| Findings.TrailingSlashIgnored | src/server/services/fs.provider.ts:15-24 | a trailing `/` does not change what a path resolves to |
| Findings.EmptyLeafChildrenBeside | src/server/services/fs.provider.ts:162-173 | with an empty destination leaf the copy takes the source's name below the parent, but as written its children are sent beside it |
| Findings.EmptyLeafIsParent | src/server/services/fs.provider.ts:15-24 | a destination whose leaf is empty resolves to its parent part |
| Findings.CopyChildrenInside | src/server/services/fs.provider.ts:171-174 | the corrected child destination is below the copy itself, whatever the destination leaf was |
| RootMoves.MoveFileToRootStays | src/server/services/fs.provider.ts:296-310 | a file moved as written from a directory to a destination at the root keeps its old directory under the new name, so the target path does not find it |
| RootMoves.MoveDirToRootStays | src/server/services/fs.provider.ts:179-192 | a directory moved as written from below a parent to a destination at the root keeps its old parent under the new name, so the target path does not name it |

## Left out

- The SQL engine, drizzle and the driver are not modelled. Each query is a function of the two tables as maps. The one drizzle rule the model does take in is that `update().set()` leaves out every column whose value is `undefined` (see "## Findings"). Auto-increment ids are `nextDirId` and `nextFileId`.
- The blob backend (`FSService`: disk, S3, streams) is the map `blobs`, so write, read and delete are map updates. `src/server/services/fs.service.ts` is not part of this model.
- The blake2b256 digest is `hash`, a function passed to the provider. Its injectivity is an assumption written into `Valid()`.
- `Promise.all` in `deleteDirectory` and `copyDirectory` runs its children one after the other, in listing order. Interleaved reference counts between concurrent deletes are not modelled.
- Clock readings (`createdAt`, `updatedAt`, `new Date()`) are `now` parameters. Inserts set both dates; moves set `updatedAt`.
- JavaScript `Blob` content and its streaming are `Content.Bytes`. String content is encoded as UTF-8 (`Blobs.Utf8`) before hashing and storing. Strings are taken as sequences of code points; lone surrogates are not modelled.
- Sizes are unbounded integers; `NaN` and non-integer sizes are not modelled.
- Thrown errors carry no message. They are collapsed into three kinds, and the kind for each refusal is a choice of the model.
- `fs.provider.test.ts` was used as a statement of expected behaviour, not modelled.
- Provider.FSProvider.MoveDirectory: corrected model. It refuses, with `InvalidArgument`, a destination parent inside the source's own subtree, and a destination leaf `..`. The code has neither check. A destination at the root makes the directory a root directory, where the code as written keeps its old parent (see "## Findings").
- Provider.FSProvider.MoveFile: corrected model. A destination at the root makes the file a root file, where the code as written keeps its old directory (see "## Findings").
- Provider.FSProvider.CopyDirectory: corrected model. It refuses, with `InvalidArgument`, a destination parent strictly inside the source's subtree, and a destination leaf `..`. It also sends the children to the copy's own path when the destination leaf is empty (see "## Findings").
- Provider.FSProvider.CreateDirectory: corrected model. It refuses, with `InvalidArgument`, to create a segment `..`. Such a segment can only come from a working directory that contains one. The refusal keeps the recursive operations finite: below a directory `d`, a row named `..` is visited as `d/..`, which from `/` resolves to `d` itself (`Findings.UpChildIsItself`), so `deleteDirectory(d)` would call itself on `d` without end.
- Provider.FSProvider.WriteFile: modelled as written. A write that fails on the unique index after storing a new blob leaves that blob unreferenced (`Blobs.StoreWithoutInsertOrphans`). "Every blob is referenced" is therefore promised only for successful writes.
- Provider.FSProvider.DeleteDirectory: assumes the table's parent links are acyclic, which `Valid()` carries as the ghost `rank`. As written, the code would recurse without end on a cycle; the corrected move never creates one.
- Findings.CopyAsWritten: covers only directory rows, and bounds the recursion by a fuel parameter. File copies are left out; they never recurse, so they do not change whether the recursion ends.

## Findings

| source | as written | input that shows it | evidently intended | confidence | as-written member | corrected member |
|---|---|---|---|---|---|---|
| src/server/services/fs.provider.ts:179-192 | `moveDirectory` moves a directory under any destination parent, including one inside the directory's own subtree | `/a` with child `/a/b`; `moveDirectory("/a", "/a/b/x")` makes `a` a child of `b` and `b` a child of `a` | refuse a destination parent inside the source's subtree, so the tree stays acyclic and reachable | not executed | Findings.MoveIntoOwnSubtreeCycles | Provider.FSProvider.MoveDirectory |
| src/server/services/fs.provider.ts:157-177 | `copyDirectory` reads only the source's own children before inserting; a nested call lists a child after the copy was inserted under it | `/a` with empty child `/a/b`; `copyDirectory("/a", "/a/b/x")` copies `b` into `x`, then `x` into the copy of `b`, without end | refuse a destination strictly inside the source's subtree (copying into the source itself still works thanks to the snapshot) | not executed | Findings.CopyIntoChildNeverEnds | Provider.FSProvider.CopyDirectory |
| src/server/services/fs.provider.ts:162-168, 182-190 | a copy or a move whose destination leaf is `..` gives the row the name `..` | `moveDirectory("/a", "/b/..")` renames `a` to `..` below `b`; every later path with `..` pops a segment instead of reaching it | refuse a new name that path resolution can never reach | not executed | Findings.DotDotLeafUnreachable | Provider.FSProvider.PlanDirRelocation |
| src/server/services/fs.provider.ts:162-173 | with an empty destination leaf the copy is named after the source, but each child goes to `newPath + "/" + name`, the destination's parent | `copyDirectory("/a", "/b/")` creates `/b/a` but copies `/a/c` to `/b/c` | place each child below the copy's own path | not executed | Findings.EmptyLeafChildrenBeside | Findings.CopyChildrenInside |
| src/server/services/fs.provider.ts:296-310 | `moveFile` sets `directoryId: dir?.id`, and drizzle's `set` leaves out a column whose value is `undefined`; for a destination at the root `dir` is null | from `/`, `moveFile("/a/f", "/g")` renames the row to `g` but leaves it in `a`: `/g` finds nothing and `/a/g` finds the file | a destination at the root moves the file to the root (an explicit `null`) | not executed | RootMoves.MoveFileToRootStays | Provider.FSProvider.MoveFile |
| src/server/services/fs.provider.ts:179-192 | `moveDirectory` sets `parentId: parent?.id`, which drizzle leaves out for a destination at the root | from `/`, `moveDirectory("/a/b", "/c")` leaves the directory at `/a/c` | a destination at the root moves the directory to the root | not executed | RootMoves.MoveDirToRootStays | Provider.FSProvider.MoveDirectory |
