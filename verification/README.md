# Verified model of the Xperia XZs XNU host tools

This project models the host-side tools that build, check and transform the binary artefacts of the XNU port
to the Sony Xperia XZs, together with the part of the kernel that reads one of those artefacts, and proves
what they promise. Each tool is modelled on whole byte strings, field by field, with the error paths the
Python code takes (a failed `struct.unpack`, a raised exception, a short read).

- **XZSFS**, the read-only root file system. `XzsfsBuild` is the image builder, `XzsfsVerify` the independent
  host verifier, `XzsfsKernel` the driver's mount, lookup and read code. `XzsfsRoundTrip` proves that everything
  the builder writes is accepted and read back exactly; `XzsfsVerify.Soundness` says what acceptance means for
  an arbitrary byte string, `XzsfsMounted` what a mount means for an arbitrary device; `XzsfsAgreement` says exactly
  where the verifier and the driver agree, with images on which they do not in `XzsfsExamples`; `XzsfsEndToEnd` follows a
  file from the source tree through build, mount, path lookup and sector reads back to its bytes, and
  `XzsfsPipeline` a tree through build and verification. `XzsfsBytes` states what is accepted on the bytes at their offsets
  alone, `XzsfsLayout` what is built and what the driver demands. The driver is modelled in its own 32- and 64-bit arithmetic.
- **HFS+ ownership patch**. `HfsStore` is the fragmented catalog file on the disk, `HfsNodes` the B-tree leaf
  format, `HfsPaths` the memoised folder paths, `HfsPlan` the per-record decision, `HfsPatch` and `HfsCatalog`
  the loops over records and leaves, `HfsOwners` and `HfsLinks` the theorems about a whole run, `HfsImage` the
  step from disk image to disk image. `HfsJoin`, `HfsBytes` and `HfsDisk` restate paths, leaves and the disk without
  the functions of the model.
- **Sparse images**. `SparseFormat`, `SparseEncode` and `SparseImage` model the allocation-aware converter
  against a block-at-a-time fold; `SparseVolume` says what that means for the volume's own allocation blocks,
  `SparseBytes` what is read and written at which offset.
- **Mach-O flattening**. `MachoCommands` rewrites one load command, `MachoFlatten` is the tool, `MachoImage` and
  `MachoTheorems` prove that the output is a faithful memory image, `MachoTwice` when flattening is idempotent, with
  two small kernels in `MachoExamples`; `MachoBytes` gives the image byte for byte.
- **GPT oracles** (`GptEntries`, `GptBackup`, `GptBytes`, `GptExample`), **boot images** (`BootImage`), the **ordered-event check**
  (`OrderedSubsequence`) and the **register snapshot comparison** (`Snapshots`).

`Bytes`, `Arithmetic`, `Paths`, `SortedSets` and `Wrappers` hold what these share.

## What the proofs found

- A root directory with nothing in it builds a three-sector image that the host verifier accepts and the
  driver refuses, because the driver demands four sectors (`src/xnu/bsd/xzsfs/xzsfs_core.c:50`).
  `XzsfsEndToEnd.MountsIff` gives the exact condition under which a built image mounts.
- The driver's object load copies out of its buffer for some superblocks that pass validation: when a sector to be
  loaded starts behind the object table's end, the copy size wraps around (`src/xnu/bsd/xzsfs/xzsfs_core.c:78-85`).
  `XzsfsKernel.Mount` says exactly for which devices. The host verifier does not rule it out:
  `XzsfsAgreement.AcceptedOverruns` says for which accepted images it happens and `XzsfsExamples.GapOverruns` is one;
  `XzsfsEndToEnd.BuiltNeverOverruns` rules it out for built images.
- The driver compares extent ends modulo 2^64, so a mounted file can lie outside the image
  (`XzsfsExamples.WrappedFileMounts`) and a read of it returns other bytes (`XzsfsExamples.WrappedFileReads`).
  `XzsfsMounted.MountedExtents` and `XzsfsKernel.ReadIsFilePart` give the exact conditions.
- Flattening twice is not always flattening once: a last `__LINKEDIT` segment below the base address displaces the
  link-edit offsets again with every run (`MachoExamples.DriftingChanges`). `MachoTwice.FlattenTwice` gives the exact
  condition for every well-formed kernel.
- The sparse converter reads the volume's block size, prints it and then works in blocks of 4096 bytes. For every
  other block size there is a volume whose allocated blocks it drops (`SparseVolume.LosesFirstBlock`); it keeps all
  volumes of a block size if and only if that size is 4096 (`SparseVolume.KeepsExactlyAt4096`).
- On a tree that was really walked, the builder's missing-parent and duplicate-name checks can never fire:
  only names and field widths can fail a build (`XzsfsRoundTrip.WalkTreeBuilds`).
- The builder's file-name pattern ends in `$`, which also matches before a final newline, so it also accepts exactly
  the allowed names with one newline behind them (`XzsfsBuild.NewlineNames`); the model keeps this.
- The host verifier accepts graphs the driver refuses: names with a NUL inside, objects out of table order, a parent
  numbered after its child, a string table that does not start with a NUL, an empty file that starts inside another
  file. `XzsfsAgreement.GraphsAgree` proves that these five are all there is, `XzsfsAgreement.AcceptedMounts` which
  accepted images mount; `XzsfsExamples.NulNameRefused` and `XzsfsExamples.LateParentRefused` are two that do not.
  The other way round, `XzsfsAgreement.MountedAccepted` says which mounted devices the verifier accepts.
- The host verifier's extraction has no entry for a file of length zero (`XzsfsPipeline.BuildAndVerify`).
- When two spellings of one path are given to the ownership patch, the later one wins for every lookup they
  share, whether it matched raw or normalised (`HfsPlan.LastSpellingWins`).
- The primary GPT oracle counts sizes that overflow 64 bits but does not fail on them, and then stores size 0;
  the backup oracle stores the true size. A sound map therefore fails the parity audit exactly when that count
  is not zero (`GptBackup.Parity`, with the header sectors and table of `GptExample.ParityFails`). The primary script
  also compares both its inputs with fixed SHA-256 values, so as shipped it accepts one captured disk only and that
  input cannot reach it.

## Model

| member | source | states |
|---|---|---|
| XzsfsFormat.SuperblockRoundTrip | scripts/mkxzsfs.py:189-253 | unpacking a packed superblock whose fields fit gives back every field |
| XzsfsFormat.RecordRoundTrip | scripts/mkxzsfs.py:163-187 | unpacking a packed object record whose fields fit gives back every field |
| XzsfsFormat.ClearCrcPacked | scripts/mkxzsfs.py:228-253 | zeroing the checksum bytes of a packed superblock is packing it with checksum 0, so builder and readers hash the same bytes |
| XzsfsBuild.SortDeterministic | scripts/mkxzsfs.py:62-88 | two discovery orders of the same entries sort to the same object list, so the image depends only on the set of entries |
| XzsfsBuild.NewlineNames | scripts/mkxzsfs.py:96-98 | beside names of its own characters the pattern accepts exactly such a name followed by one newline |
| XzsfsBuild.AssignIds | scripts/mkxzsfs.py:90-100 | succeeds exactly when every name is legal, and numbers each path by its place in path order |
| XzsfsBuild.AssignParents | scripts/mkxzsfs.py:102-110 | succeeds exactly when every parent path is among the objects, and yields each object's parent number |
| XzsfsBuild.CheckDuplicates | scripts/mkxzsfs.py:112-119 | passes exactly when no two objects share parent and name |
| XzsfsBuild.BuildStrings | scripts/mkxzsfs.py:121-136 | the padded string table and the offset of every name in it |
| XzsfsBuild.AssignData | scripts/mkxzsfs.py:138-161 | the sector-aligned data offset of every file and the size of the image |
| XzsfsBuild.Serialise | scripts/mkxzsfs.py:163-187 | the packed object table; fails exactly when a value does not fit its field |
| XzsfsBuild.WritePayloads | scripts/mkxzsfs.py:255-266 | the data area is every payload at its place, padded to sectors |
| XzsfsBuild.LayOut | scripts/mkxzsfs.py:112-266 | after numbering, a build fails exactly on a duplicate key or a field that does not fit |
| XzsfsBuild.BuildImage | scripts/mkxzsfs.py:53-266 | a build succeeds exactly for buildable trees, and the image is a function of the sorted entries alone |
| Paths.DirnameSplits | scripts/mkxzsfs.py:102-110 | below a directory, a path is its `dirname`, a separator and its `basename` |
| XzsfsRoundTrip.ParentBefore | scripts/mkxzsfs.py:83-110 | in path order every object but the root has a parent that is a directory with a smaller number, so the hierarchy is acyclic |
| XzsfsRoundTrip.WalkTreeBuilds | scripts/mkxzsfs.py:90-119 | on a walked tree the parent and duplicate checks hold, and a build succeeds if and only if names match and fields fit |
| XzsfsRoundTrip.SortedRoundTrip | scripts/verify_xzsfs.py:46-262 | the image of every buildable tree is accepted and its objects are the tree's |
| XzsfsRoundTrip.PayloadBack | scripts/verify_xzsfs.py:264-268 | reading a file's extent from the image gives exactly the payload that was stored |
| XzsfsRoundTrip.RoundTrip | scripts/verify_xzsfs.py:46-287 | whatever the discovery order: same numbers, parents, types, modes, names; full path is "/" plus the relative path; every payload is returned |
| XzsfsTree.JoinInjective | scripts/verify_xzsfs.py:239-243 | joining non-empty slash-free names with slashes loses nothing |
| XzsfsTree.PathInjective | scripts/verify_xzsfs.py:231-252 | unique names under each parent make full paths unique |
| XzsfsTree.NeighboursSuffice | scripts/verify_xzsfs.py:254-262 | after sorting non-empty extents by offset, comparing neighbours passes if and only if all pairs are disjoint |
| XzsfsVerify.IdsComplete | scripts/verify_xzsfs.py:149-175 | n distinct identifiers between 1 and n are all of them (so a root exists) |
| XzsfsVerify.TableSound | scripts/verify_xzsfs.py:146-220 | a table that passes the record checks holds exactly identifiers 1 to its length, a directory root, good names and payloads inside the image |
| XzsfsVerify.Soundness | scripts/verify_xzsfs.py:46-268 | every accepted byte string is a tree: all identifiers, chains of directories to the root, distinct full paths, disjoint extents between the data offset and the end of the image |
| XzsfsVerify.ClimbCycle | scripts/verify_xzsfs.py:231-243 | meeting an object twice while climbing means the root is never reached |
| XzsfsVerify.TracePath | scripts/verify_xzsfs.py:231-243 | the walk with its visited set terminates, succeeds exactly when the root is reachable, and returns the full path |
| XzsfsVerify.ParseTable | scripts/verify_xzsfs.py:146-220 | succeeds exactly when every record passes, and collects the objects by identifier |
| XzsfsVerify.CheckHierarchy | scripts/verify_xzsfs.py:222-243 | passes exactly when every parent is a directory and every chain reaches the root; gives every full path |
| XzsfsVerify.CheckNames | scripts/verify_xzsfs.py:245-252 | the seen-set loop passes exactly when no two objects share parent and name |
| XzsfsVerify.CheckNeighbours | scripts/verify_xzsfs.py:256-262 | passes exactly when no file runs into the next one in offset order |
| XzsfsVerify.CheckExtents | scripts/verify_xzsfs.py:254-262 | sorting and comparing neighbours passes exactly when all file extents are pairwise disjoint |
| XzsfsVerify.Extract | scripts/verify_xzsfs.py:264-268 | maps each listed file's full path to its bytes |
| XzsfsVerify.ExtractMeans | scripts/verify_xzsfs.py:264-268 | with distinct paths no extraction overwrites another: every non-empty file is present under its own path with its own bytes |
| XzsfsVerify.VerifyGraph | scripts/verify_xzsfs.py:222-287 | the graph checks together accept exactly the consistent object maps and report paths and files |
| XzsfsVerify.VerifyObjects | scripts/verify_xzsfs.py:146-287 | everything after the checksum accepts exactly when the table and the graph are right |
| XzsfsVerify.ParseAndVerify | scripts/verify_xzsfs.py:46-287 | the verifier accepts a byte string if and only if the declarative acceptance condition holds, and its report is the image's objects, paths and files |
| XzsfsBytes.SuperblockIs | scripts/verify_xzsfs.py:46-145 | the superblock is read from literal byte offsets, field by field |
| XzsfsBytes.RecordIs | scripts/verify_xzsfs.py:149-166 | the same for record i of the object table, at 512 + 64 i |
| XzsfsBytes.ChecksumIff | scripts/verify_xzsfs.py:133-141 | for every checksum that can be computed piecewise: the stored value matches if and only if it is the checksum of the superblock with four zeros at 0x50, the object table and the string table, joined |
| XzsfsBytes.AcceptedChecksum | scripts/verify_xzsfs.py:133-141 | no image is accepted whose bytes 0x50 to 0x54 hold another value |
| XzsfsBytes.TableIff | scripts/verify_xzsfs.py:146-220 | the record checks pass if and only if number, type, name bytes and extent of every row are right and no number occurs twice |
| XzsfsBytes.HierarchyIff | scripts/verify_xzsfs.py:222-243 | the chain of an object reaches the root if and only if there is a list of rows from it to object 1, each lying in the next |
| XzsfsBytes.GraphIff | scripts/verify_xzsfs.py:222-262 | the graph checks pass if and only if every row lies in a directory row and below the root, no two share directory and name, no two files share a byte |
| XzsfsBytes.AcceptsIff | scripts/verify_xzsfs.py:46-268 | the verifier accepts a byte string if and only if header, rows and tree are right, all stated on the bytes at their offsets |
| XzsfsLayout.BuiltChecksum | scripts/mkxzsfs.py:228-232 | every built image stores the checksum of superblock, object table and string table |
| XzsfsLayout.BuiltRecord | scripts/mkxzsfs.py:29-46 | row i of a built image: number i + 1, type, mode 0755 for directories and executables and 0644 for other files, root ownership, payload length, zero reserved words |
| XzsfsLayout.BuiltContents | scripts/mkxzsfs.py:122-187 | its name bytes are the last component of the path and its data bytes the file |
| XzsfsLayout.BuiltParent | scripts/mkxzsfs.py:102-111 | its parent number is that of an earlier directory, and its path is that directory, a slash and its name |
| XzsfsKernel.CheckName | src/xnu/bsd/xzsfs/xzsfs_core.c:167-188 | passes exactly for a non-empty, terminated, slash- and NUL-free name no earlier sibling has |
| XzsfsKernel.CheckPayload | src/xnu/bsd/xzsfs/xzsfs_core.c:191-213 | passes exactly for an empty directory extent or an aligned file extent inside the image that overlaps no earlier file, in 64-bit arithmetic |
| XzsfsKernel.ValidateGraph | src/xnu/bsd/xzsfs/xzsfs_core.c:135-217 | the driver's one pass accepts exactly the valid graphs |
| XzsfsKernel.LoadObjects | src/xnu/bsd/xzsfs/xzsfs_core.c:70-87 | the sector loop leaves the buffer exactly when a readable sector starts behind the table's end, fails exactly when an earlier sector cannot be read, and otherwise gives the device's bytes and, behind them, what the buffer held |
| XzsfsKernel.StartsBehindIff | src/xnu/bsd/xzsfs/xzsfs_core.c:74-82 | some sector starts behind the table's end if and only if there are two sectors more than the table fills |
| XzsfsKernel.LoadStrings | src/xnu/bsd/xzsfs/xzsfs_core.c:95-102 | the string table's bytes, or a failure exactly at the end of the device |
| XzsfsKernel.WholeTable | src/xnu/bsd/xzsfs/xzsfs_core.c:70-87 | unless the 32-bit sector count wraps, the loaded table is the device's, whatever the buffer held |
| XzsfsKernel.StaleIrrelevant | src/xnu/bsd/xzsfs/xzsfs_core.c:70-87 | on a device of at most 2 TiB whether it mounts, and as what, does not depend on what the object buffer held before |
| XzsfsKernel.Mount | src/xnu/bsd/xzsfs/xzsfs_core.c:34-249 | for every device and every former buffer content: runs out of bounds exactly when the object load does, mounts exactly when superblock, tables, checksum and graph are right, with the loaded nodes and strings |
| XzsfsLayout.DriverHeaderIff | src/xnu/bsd/xzsfs/xzsfs_core.c:43-63 | the driver accepts a superblock if and only if these conditions hold of its bytes, sums modulo 2^64 |
| XzsfsLayout.MountedChecksum | src/xnu/bsd/xzsfs/xzsfs_core.c:113-125 | a mounted device stores the checksum of its superblock, the table as loaded and its string table |
| XzsfsLayout.WholeMountedChecksum | src/xnu/bsd/xzsfs/xzsfs_core.c:113-125 | with the table loaded whole these are the bytes the host tools cover |
| XzsfsKernel.LookupName | src/xnu/bsd/xzsfs/xzsfs_core.c:251-279 | finds a child of that name if there is one, and tells a bad number, a non-directory and a missing entry apart |
| XzsfsKernel.ChildUnique | src/xnu/bsd/xzsfs/xzsfs_core.c:180-188 | in a valid graph a name under a directory denotes at most one object |
| XzsfsKernel.ReadSpan | src/xnu/bsd/xzsfs/xzsfs_core.c:300-315 | the sector loop returns the device bytes at the positions modulo 2^64, or an error exactly when one of them is not on the device |
| XzsfsKernel.ReadFile | src/xnu/bsd/xzsfs/xzsfs_core.c:281-319 | the outcome for every record, offset and length, with the clamp and the positions in 64-bit arithmetic |
| XzsfsKernel.ReadIsFilePart | src/xnu/bsd/xzsfs/xzsfs_core.c:287-315 | a read that succeeds returns the requested part of the file's extent if and only if neither the end of the request nor the last position wraps |
| XzsfsMounted.MountedIsTree | src/xnu/bsd/xzsfs/xzsfs_core.c:135-217 | for every device the driver mounts: identifiers 1 to n, every chain of directories ends at the root, every object has its own path |
| XzsfsMounted.MountedExtents | src/xnu/bsd/xzsfs/xzsfs_core.c:191-213 | in a graph the driver accepts, the files lie inside the image and are pairwise disjoint if and only if no extent end passes 64 bits |
| XzsfsMounted.OverrunsIff | src/xnu/bsd/xzsfs/xzsfs_core.c:72-82 | for every valid superblock whose sector count fits 32 bits: by how far the string table must lie behind the object table |
| XzsfsAgreement.GraphsAgree | src/xnu/bsd/xzsfs/xzsfs_core.c:135-217 | a graph the host verifier accepts is valid for the driver if and only if the string table starts with a NUL, identifiers are in table order, parents are numbered before children, no name holds a NUL and no empty file starts inside another file |
| XzsfsAgreement.OverlapAgrees | src/xnu/bsd/xzsfs/xzsfs_core.c:202-211 | among files the verifier accepts the driver sees an overlap exactly where an empty file starts inside another |
| XzsfsAgreement.AcceptedMounts | src/xnu/bsd/xzsfs/xzsfs_core.c:34-217 | an image the host verifier accepts mounts if and only if it is within the driver's limits, the object load stays in its buffer and the graph meets those demands; where a wrapped sector count leaves part of the table unloaded, the former buffer decides |
| XzsfsAgreement.SmallAcceptedMounts | src/xnu/bsd/xzsfs/xzsfs_core.c:34-217 | the same for images of at most 2 TiB, where the buffer never matters and the load stays inside exactly when the string table follows closely enough |
| XzsfsAgreement.AcceptedOverruns | src/xnu/bsd/xzsfs/xzsfs_core.c:70-87 | the object load of an accepted image leaves its buffer exactly when the image is within the limits and a loaded sector starts behind the table |
| XzsfsAgreement.ValidIsHostGraph | scripts/verify_xzsfs.py:146-262 | a graph the driver accepts passes the host verifier's table and graph checks if and only if its names are ASCII and no extent end passes 64 bits |
| XzsfsAgreement.MountedAccepted | scripts/verify_xzsfs.py:46-262 | a mounted device whose table was loaded whole passes the host verifier if and only if it is made of whole sectors, its superblock passes there, its names are ASCII and no extent end passes 64 bits |
| XzsfsExamples.NulNameRefused | src/xnu/bsd/xzsfs/xzsfs_core.c:175-178 | for every checksum function an image with a NUL in a name that the verifier accepts and the driver does not mount |
| XzsfsExamples.LateParentRefused | src/xnu/bsd/xzsfs/xzsfs_core.c:158-161 | the same with good names and a parent numbered after its child |
| XzsfsExamples.GapOverruns | src/xnu/bsd/xzsfs/xzsfs_core.c:78-85 | for every checksum function an image the verifier accepts whose object load runs out of bounds |
| XzsfsExamples.WrappedFileMounts | src/xnu/bsd/xzsfs/xzsfs_core.c:197-199 | for every checksum function and former buffer a device that mounts with a file that is not inside the image |
| XzsfsExamples.WrappedFileReads | src/xnu/bsd/xzsfs/xzsfs_core.c:301-313 | reading that file from its second sector returns the first bytes of the device |
| XzsfsEndToEnd.MountsIff | src/xnu/bsd/xzsfs/xzsfs_core.c:43-63 | the driver mounts a built image if and only if it has at most 32 objects, a string table of at most 2048 bytes and at least four sectors, whatever its object buffer held before |
| XzsfsEndToEnd.BuiltNeverOverruns | src/xnu/bsd/xzsfs/xzsfs_core.c:70-87 | the object load of a built image never leaves its buffer |
| XzsfsEndToEnd.EmptyTreeDoesNotMount | src/xnu/bsd/xzsfs/xzsfs_core.c:50 | the bare root builds and verifies but does not mount |
| XzsfsEndToEnd.MountGivesTree | src/xnu/bsd/xzsfs/xzsfs_core.c:227-249 | the nodes of a mounted built image are the objects the host verifier sees |
| XzsfsEndToEnd.Resolve | src/xnu/bsd/xzsfs/xzsfs_core.c:251-279 | looking a path's components up one by one ends at the object that has this path |
| XzsfsEndToEnd.MountBuilt | src/xnu/bsd/xzsfs/xzsfs_core.c:34-249 | a built image within the limits mounts with the nodes and strings of the device, and these are the tree |
| XzsfsEndToEnd.OpenAndRead | src/xnu/bsd/xzsfs/xzsfs_core.c:227-319 | build, mount, look up, read: the bytes are those of the file the tree was built from, if and only if the request's end does not pass 64 bits inside the file |
| XzsfsPipeline.BuildAndVerify | scripts/verify_xzsfs.py:46-287 | building a walked tree and verifying the image passes exactly if it builds, and returns exactly the non-empty files under "/" and their relative paths with their payloads |
| HfsStore.LocateInjective | tools/mkiosroot-macos.py:157-165 | over disjoint extents different logical blocks lie in different disk blocks |
| HfsStore.PosInjective | tools/mkiosroot-macos.py:157-165 | the catalog-to-disk byte mapping is injective on the covered range |
| HfsStore.CatToDisk | tools/mkiosroot-macos.py:157-165 | the extent loop finds the disk position, or fails exactly past the last extent |
| HfsStore.ChunkRead | tools/mkiosroot-macos.py:173-178 | a step that stays inside one block reads the right logical bytes in one piece |
| HfsStore.ChunkWrite | tools/mkiosroot-macos.py:186-191 | a step that stays inside one block overwrites just those logical bytes and nothing off the catalog |
| HfsStore.CatalogFile.ReadRange | tools/mkiosroot-macos.py:170-179 | block-by-block reading returns the catalog's bytes, also across extents, and fails exactly out of range |
| HfsStore.CatalogFile.ReadNode | tools/mkiosroot-macos.py:167-179 | returns the node's bytes, or fails exactly when the node is not inside the catalog |
| HfsStore.CatalogFile.WriteNode | tools/mkiosroot-macos.py:181-192 | the catalog becomes itself with that node replaced; every disk byte outside the catalog is kept |
| HfsCatalog.NodeWritten | tools/mkiosroot-macos.py:167-192 | the node store is an array: the written node reads back, every other node is unchanged |
| HfsNodes.KeptRecord | tools/mkiosroot-macos.py:257-317 | nodes that differ only in ownership fields have the same keys, types, flags, CNIDs, link numbers and record positions |
| HfsNodes.KeptWellFormed | tools/mkiosroot-macos.py:257-317 | ownership edits keep a leaf well-formed |
| HfsNodes.SetPermEffect | tools/mkiosroot-macos.py:307-310 | the slice assignment sets owner, group and mode of that record and changes no other part of the node |
| HfsNodes.SetPermOthers | tools/mkiosroot-macos.py:307-310 | every other record keeps its ownership |
| HfsPaths.RankIrrelevant | tools/mkiosroot-macos.py:230-244 | a folder's path does not depend on how termination is measured |
| HfsPaths.GetFolderPath | tools/mkiosroot-macos.py:228-247 | from any sound cache the memoised search returns the plain recursive path, also when there is none, and leaves a sound larger cache |
| HfsPaths.ResolveAll | tools/mkiosroot-macos.py:246-247 | asking for every folder once, in any order, leaves a cache holding exactly the resolvable folders |
| HfsJoin.FolderPath | tools/mkiosroot-macos.py:228-244 | a folder has a path if and only if a chain of CNIDs leads to it from the root, and then the path is the names along any such chain, root first, one slash between |
| HfsJoin.RecordPath | tools/mkiosroot-macos.py:280-286 | the same for a record: the names down to its folder and its own |
| HfsJoin.PathPrefix | tools/mkiosroot-macos.py:286 | in a folder with a non-empty path a record has that path, one slash, and its name |
| HfsPlan.LastSpellingWins | tools/mkiosroot-macos.py:129-133 | the owner of a path is that of the last entry spelling it, raw or normalised |
| HfsPlan.LeafPermTwice | tools/mkiosroot-macos.py:288-310 | deciding again on a patched record changes nothing |
| HfsPlan.INodePermTwice | tools/mkiosroot-macos.py:337-343 | the same for backing records |
| HfsPatch.PlanRecord | tools/mkiosroot-macos.py:271-310 | the cached decision for a record is the one made from plain paths |
| HfsPatch.PatchLeaf | tools/mkiosroot-macos.py:258-315 | every record of the leaf gets its decided ownership and nothing else changes; dirty exactly when some record had to change; links and private leaves collected |
| HfsPatch.PatchINodes | tools/mkiosroot-macos.py:322-347 | the same for the backing records of pass 2b |
| HfsCatalog.ChainDistinct | tools/mkiosroot-macos.py:203-226 | a leaf chain that ends visits no node twice |
| HfsCatalog.ScanNode | tools/mkiosroot-macos.py:211-225 | collects the folders and private directories of one leaf |
| HfsCatalog.ScanLeaves | tools/mkiosroot-macos.py:200-226 | collects folders and private directories of the whole chain; fails exactly on a node that is not a leaf |
| HfsCatalog.SweepLeaves | tools/mkiosroot-macos.py:249-317 | pass 2a patches every leaf, writes nothing exactly when all are clean, and touches nothing off the catalog |
| HfsOwners.SweepINodes | tools/mkiosroot-macos.py:319-349 | the same for pass 2b |
| HfsOwners.BothPasses | tools/mkiosroot-macos.py:249-349 | no lost update: a leaf through both passes holds the edits of both |
| HfsOwners.LinkKept | tools/mkiosroot-macos.py:300-305 | hard-link entries keep owner, group and mode, which hold the link chain |
| HfsOwners.StateStays | tools/mkiosroot-macos.py:200-317 | folders, private directories, links and private leaves read from the patched catalog are those of the original |
| HfsOwners.PatchSettles | tools/mkiosroot-macos.py:126-349 | the patched catalog has the same leaf chain and nothing left to patch |
| HfsOwners.PatchScanned | tools/mkiosroot-macos.py:249-349 | both passes give every record its final ownership, and write nothing exactly on a settled catalog |
| HfsOwners.PatchOwners | tools/mkiosroot-macos.py:126-349 | stops before any write on a bad chain; otherwise every leaf record gets the ownership decided from the catalog as it was, and all other disk bytes are kept |
| HfsOwners.PatchTwice | tools/mkiosroot-macos.py:126-349 | a second run with the same owners marks no node dirty |
| HfsOwners.RecordOutcome | tools/mkiosroot-macos.py:271-310 | an ordinary record has the owner, group and permission bits of its path, else of its normalised path, else root's with its own mode, under its old type bits; link entries and skipped records keep theirs; all keys are untouched |
| HfsBytes.RecordLayout | tools/mkiosroot-macos.py:257-297 | where key, type, flags, CNID, link number, owner, group and mode of a record lie in the leaf |
| HfsBytes.FolderListed | tools/mkiosroot-macos.py:218-223 | the folder map holds parent and name of the last folder record of each CNID in chain order, and nothing else |
| HfsBytes.PrivateListed | tools/mkiosroot-macos.py:221-225 | the private directories are exactly the folders below the root with one of the two names in theirs |
| HfsBytes.StripIs | tools/mkiosroot-macos.py:129-133 | an owner-map key is entered without the slashes at its ends |
| HfsBytes.RecordPatched | tools/mkiosroot-macos.py:262-310 | on the leaf bytes: an ordinary folder or file gets owner, group and permission bits of its joined path, link entries and unreachable records keep theirs, and no other leaf byte changes |
| HfsBytes.INodeNameMeans | tools/mkiosroot-macos.py:303 | the backing record of link number n is "iNode" and the decimal digits of n without a leading zero |
| HfsBytes.BackingPatched | tools/mkiosroot-macos.py:319-345 | a backing record inherits what the owner map says of the joined path of the last link entry naming it in chain order, or that entry's own permission bits under root; without an entry it is root's and keeps its mode |
| HfsBytes.ChainIff | tools/mkiosroot-macos.py:200-226 | the accepted leaf chains are exactly those linked by the first four bytes of each node, with byte 8 equal to 255 |
| HfsOwners.OpenCatalog | tools/mkiosroot-macos.py:135-155 | opens exactly volumes with a whole header, a known signature and a catalog inside its eight inline extents |
| HfsDisk.OpensIff | tools/mkiosroot-macos.py:135-155 | a volume opens if and only if signature and block counts at literal image offsets allow it, and its catalog lies in the listed extents |
| HfsDisk.PosIs | tools/mkiosroot-macos.py:157-165 | byte t of catalog extent k lies t bytes into that extent on the disk |
| HfsDisk.CatalogHeaderIs | tools/mkiosroot-macos.py:194-197 | node size and first leaf are read at 32 and 24 of the first extent |
| HfsImage.PatchImage | tools/mkiosroot-macos.py:135-349 | from image to image: runs exactly on volumes that open, have a catalog header and only leaves in their chain; the result is the image with every leaf record's ownership decided from it and all bytes off the catalog kept |
| HfsDisk.OnlyOwnershipChanges | tools/mkiosroot-macos.py:249-349 | every disk byte a run changes is an owner, group or mode byte of a folder or file record in a leaf of the chain |
| HfsLinks.LinkListed | tools/mkiosroot-macos.py:300-305 | every hard-link entry that has a path lists its backing record |
| HfsLinks.LinkFrom | tools/mkiosroot-macos.py:300-305 | a listed owner is the one decided for the last hard-link entry of that backing record in chain order |
| HfsLinks.INodeOutcome | tools/mkiosroot-macos.py:319-349 | after the patch a backing file record has the ownership decided for the last entry, in chain order, linking to it, or root's if none does |
| SparseFormat.ChunkRoundTrip | tools/raw2simg.py:85-101 | each chunk's size field is its encoded length: a reader takes off exactly what was written |
| SparseFormat.ChunksRoundTrip | tools/raw2simg.py:80-104 | the chunk stream reads back as the chunks |
| SparseFormat.ImageRoundTrip | tools/raw2simg.py:151-164 | header and chunks read back with the exact block and chunk counts |
| SparseFormat.BlocksAddUp | tools/raw2simg.py:71-104 | raw, fill and don't-care blocks add up to the expanded length |
| SparseEncode.BatchIsFold | tools/raw2simg.py:111-122 | adding a whole batch of free blocks at once is adding them one by one |
| SparseEncode.StepKeeps | tools/raw2simg.py:126-146 | one block appends its meaning and keeps runs bounded and maximal |
| SparseEncode.EncodeCorrect | tools/raw2simg.py:106-149 | expanding the runs gives every block back, and adjacent runs share a kind only when both are raw and the first is full |
| SparseEncode.EncodeFits | tools/raw2simg.py:86-101 | below 2^32 blocks every chunk field fits its width |
| SparseImage.Writer.FlushCurrent | tools/raw2simg.py:80-104 | the open run is appended to the file, its counter and the chunk count, and closed |
| SparseImage.Writer.AddFree | tools/raw2simg.py:117-121 | extends or opens a don't-care run |
| SparseImage.Writer.AddZero | tools/raw2simg.py:136-140 | extends or opens a fill run |
| SparseImage.Writer.AddBlock | tools/raw2simg.py:141-146 | extends or opens a raw run of at most 16384 blocks |
| SparseImage.EncodeBatch | tools/raw2simg.py:124-146 | a batch read and encoded block by block is the fold over its blocks; fails exactly when the bitmap is too short |
| SparseImage.EncodeBlocks | tools/raw2simg.py:106-149 | the batched loop with its skipping fast path refines the block-at-a-time fold, and the read position stays at the current block |
| SparseImage.ReadBitmap | tools/raw2simg.py:25-36 | the bitmap assembled from up to eight extents |
| SparseBytes.BitmapIs | tools/raw2simg.py:25-36 | the bitmap is its extents joined in order up to the first empty descriptor, eight at most, cut to the longer of its logical size and what the image needs |
| SparseBytes.ExtentByte | tools/raw2simg.py:28-34 | byte t of extent k is the image byte t bytes into that extent |
| SparseBytes.BitIs | tools/raw2simg.py:126-135 | block b is bit 7 - b % 8 of byte b / 8 |
| SparseImage.Convert | tools/raw2simg.py:39-164 | fails exactly on inconvertible volumes; the output reads back as the plain encoder's runs and the three counters add up to the blocks |
| SparseImage.AllocatedBlocksPreserved | tools/raw2simg.py:106-164 | every 4096-byte block the tool's bitmap marks expands to exactly its contents, every other one to nothing |
| SparseBytes.ConvertibleIff | tools/raw2simg.py:39-67 | which images convert, on their bytes |
| SparseBytes.CountersMean | tools/raw2simg.py:71-149 | the three counters count the marked blocks with data, the marked zero blocks and the unmarked blocks |
| SparseBytes.HeaderIs | tools/raw2simg.py:151-164 | the sixteen fixed header bytes |
| SparseVolume.KeptAt4096 | tools/raw2simg.py:25-164 | on a volume with 4096-byte allocation blocks every byte of every allocated block is kept |
| SparseVolume.KeepsIff | tools/raw2simg.py:25-164 | on a volume of any block size all allocated blocks are kept if and only if the tool's bitmap marks what the volume's own marks |
| SparseVolume.LosesFirstBlock | tools/raw2simg.py:57-67 | for every other block size a convertible volume whose first block, which it has and marks allocated, is missing from the output, as is the volume header |
| SparseVolume.KeepsExactlyAt4096 | tools/raw2simg.py:25-164 | all convertible volumes of a block size are kept if and only if that size is 4096 |
| MachoCommands.SegmentMoved | scripts/flatten_macho.py:84-95 | a segment's rewrite changes only file offsets, and its own becomes its memory offset |
| MachoCommands.SectionOutcome | scripts/flatten_macho.py:89-95 | every section keeps its address; its file offset moves exactly when it had one and its address is in the image |
| MachoCommands.SymtabOutcome | scripts/flatten_macho.py:96-99 | symbol and string table offsets move by the displacement, counts and sizes stay |
| MachoFlatten.DysymtabOutcome | scripts/flatten_macho.py:100-105 | each of the six table offsets moves by the displacement unless it is zero |
| MachoCommands.LinkeditOutcome | scripts/flatten_macho.py:106-109 | a link-edit data offset moves by the displacement unless it is zero |
| MachoCommands.RewriteKeepsHead | scripts/flatten_macho.py:80-110 | no rewrite changes a command's type or size, so the walk over the commands is unaffected |
| MachoCommands.RewriteExtends | scripts/flatten_macho.py:80-110 | rewriting a command in place leaves the bytes behind it alone |
| MachoCommands.RewriteTwice | scripts/flatten_macho.py:80-110 | a rewritten command rewritten again with no displacement is unchanged |
| MachoFlatten.FindTextFirst | scripts/flatten_macho.py:25-35 | the segment found is a `__TEXT` segment and no earlier one is |
| MachoFlatten.DetectBase | scripts/flatten_macho.py:25-35 | finds the address of the first `__TEXT` segment, or stops as the tool does |
| MachoFlatten.MeasureMemory | scripts/flatten_macho.py:37-48 | the end of the highest kept segment |
| MachoImage.KeptBelowEnd | scripts/flatten_macho.py:37-48 | every kept segment ends inside the buffer |
| MachoImage.EndIsReached | scripts/flatten_macho.py:37-48 | and some kept segment ends exactly at its end |
| MachoFlatten.CopySegments | scripts/flatten_macho.py:50-62 | the zeroed buffer with every kept segment's contents assigned, in Python's resizing slice semantics |
| MachoFlatten.FindDelta | scripts/flatten_macho.py:64-78 | the displacement of the last `__LINKEDIT` segment, zero when an offset is zero |
| MachoFlatten.RewriteSegment | scripts/flatten_macho.py:84-95 | the section loop rewrites the segment, or fails exactly when a field is missing or does not fit |
| MachoFlatten.RewriteDysymtab | scripts/flatten_macho.py:100-105 | the same for the dynamic symbol table |
| MachoFlatten.RewriteCommand | scripts/flatten_macho.py:82-110 | the same for any command |
| MachoFlatten.RewriteHeader | scripts/flatten_macho.py:80-110 | the in-place loop over all commands |
| MachoFlatten.Flatten | scripts/flatten_macho.py:18-113 | for every input byte string: refused exactly when some unpacking or packing fails or no `__TEXT` exists, otherwise the flattened bytes |
| MachoTheorems.FlattenedIs | scripts/flatten_macho.py:37-110 | a well-formed kernel is never refused; the image is the memory image under a rewritten header |
| MachoImage.CommandRewritten | scripts/flatten_macho.py:80-110 | every load command of the image starts where the original does and is its rewriting |
| MachoImage.SegmentOutcome | scripts/flatten_macho.py:84-88 | every kept segment of the image has its old name, address and sizes, and file offset equal to memory offset |
| MachoTheorems.SegmentInPlace | scripts/flatten_macho.py:52-62 | each byte of a kept segment behind the header lies at vmaddr - base |
| MachoTheorems.GapIsZero | scripts/flatten_macho.py:50-62 | every byte no segment's contents cover is zero |
| MachoTheorems.FileHeaderKept | scripts/flatten_macho.py:80-110 | the file header in front of the commands is unchanged |
| MachoTheorems.LinkeditFound | scripts/flatten_macho.py:64-78 | for every link-edit file offset o, the image at o + delta holds the input's byte at o |
| MachoTheorems.PointedFound | scripts/flatten_macho.py:64-109 | whatever table or blob a symbol table, dynamic symbol table or link-edit command points to, the rewritten command points to the same bytes in the image |
| MachoBytes.BaseFound | scripts/flatten_macho.py:25-35 | the base is the address field of the first command whose sixteen name bytes are `__TEXT` and zeros |
| MachoBytes.DeltaFound | scripts/flatten_macho.py:64-78 | the displacement is that of the last command named `__LINKEDIT`, zero without one or when an offset is zero |
| MachoBytes.EveryKernel | scripts/flatten_macho.py:18-113 | every well-formed kernel has an image, and its command list fixes base and displacement |
| MachoBytes.SegmentOffset | scripts/flatten_macho.py:84-88 | a kept segment's offset field at 40 becomes its address minus the base, any other segment's stays |
| MachoBytes.SectionRead | scripts/flatten_macho.py:89-95 | for every section below the count at 64 of a kept segment: the address stays; a nonzero offset of an address at or above the base becomes address minus base |
| MachoBytes.SectionFound | scripts/flatten_macho.py:89-95 | where a section lies in its segment's contents, the image's section header points at the same bytes in the image that the original points at in the file |
| MachoBytes.OffsetRead | scripts/flatten_macho.py:96-109 | every link-edit offset field the tool names moves by the displacement |
| MachoBytes.ByteKept | scripts/flatten_macho.py:80-110 | every other byte of every load command is the file's |
| MachoBytes.ContentsPlaced | scripts/flatten_macho.py:50-62 | contents behind the commands lie at their address minus the base |
| MachoBytes.ImageEnd | scripts/flatten_macho.py:37-48 | the image ends exactly where the highest kept segment ends in memory |
| MachoBytes.ElsewhereZero | scripts/flatten_macho.py:48-62 | a byte outside all kept contents is zero |
| MachoTwice.SecondDelta | scripts/flatten_macho.py:64-78 | for every well-formed kernel the second displacement is zero if the last `__LINKEDIT` is missing, at or above the base or at file offset 0, and the first one again, negative, if not |
| MachoTwice.RewriteAgain | scripts/flatten_macho.py:80-110 | displaced again by the same amount a command stays as it is exactly when it carries no offset that moves |
| MachoTwice.ImageLoadsItself | scripts/flatten_macho.py:50-62 | loaded by its own load commands the image of every well-formed kernel gives itself |
| MachoTwice.FlattenTwice | scripts/flatten_macho.py:18-110 | for every well-formed kernel: flattening the image returns the same bytes if and only if the last `__LINKEDIT` settles or no command carries an offset the displacement would move again |
| MachoTwice.ImageWellFormed | scripts/flatten_macho.py:18-110 | under that condition the image is again a well-formed kernel with the same base |
| MachoExamples.DriftingChanges | scripts/flatten_macho.py:64-99 | a well-formed kernel whose image a second flattening changes |
| MachoExamples.SmallestIsWellFormed | scripts/flatten_macho.py:18-48 | at every base address there is a well-formed kernel that settles: one `__TEXT` command holding the whole file |
| GptEntries.DecodeName | scripts/host_gpt_entries_oracle.py:45-61 | the name up to its NUL with non-ASCII units escaped; fails exactly when an odd last byte is reached |
| GptEntries.ScanSlots | scripts/host_gpt_entries_oracle.py:154-224 | the used entries and the five counters of the slot loop; fails exactly when a used slot does not unpack |
| GptEntries.ScanMeans | scripts/host_gpt_entries_oracle.py:166-224 | each counter is zero exactly when its property holds of all used entries; the entries are those of exactly the used slots, in order |
| GptEntries.AuditOverlaps | scripts/host_gpt_entries_oracle.py:226-240 | lists exactly the overlapping pairs, row by row |
| GptEntries.RowsEmpty | scripts/host_gpt_entries_oracle.py:226-240 | the list is empty if and only if the extents are pairwise disjoint |
| GptEntries.EntriesOracle | scripts/host_gpt_entries_oracle.py:85-254 | passes if and only if header, table size and checksums are right and the used partitions have set, distinct GUIDs and disjoint extents in the usable range |
| GptBytes.ReadsBytes | scripts/host_gpt_entries_oracle.py:181-222 | a slot decodes if and only if it is long enough with a decodable name, and the entry is then the bytes at 0, 16, 32, 40, 48 and 56 of the slot |
| GptBytes.DecodableIff | scripts/host_gpt_entries_oracle.py:45-61 | the decoded name shows the UTF-16 units before the first NUL, and fails exactly when there is an odd byte and no NUL |
| GptBytes.ShownMeans | scripts/host_gpt_entries_oracle.py:45-61 | a printable unit is shown as itself, any other as the four hexadecimal digits of its value |
| GptBytes.PassesIff | scripts/host_gpt_entries_oracle.py:85-254 | the oracle passes if and only if, on bytes: signature, both checksums and table size are right; every slot with a set type byte has a set GUID at 16 and ordered, usable sectors at 32 and 40; no two of them share a GUID or a sector |
| GptBytes.ReportIs | scripts/host_gpt_entries_oracle.py:166-224 | it then reports exactly the used slots in slot order, every field as the slot's bytes say |
| GptEntries.SectorsAddUp | scripts/host_gpt_entries_oracle.py:195-196 | over disjoint extents the sector counts add up to the number of sectors taken |
| GptEntries.Packing | scripts/host_gpt_entries_oracle.py:166-254 | the sector counts of an accepted map sum to at most last_usable - first_usable + 1 |
| GptBackup.ParseBackupMap | scripts/host_gpt_backup_oracle.py:203-242 | the backup map of all slots; fails exactly when a used slot does not unpack |
| GptBackup.CompareMaps | scripts/host_gpt_backup_oracle.py:266-289 | counting differing keys passes exactly on equal maps |
| GptBackup.BackupOracle | scripts/host_gpt_backup_oracle.py:46-289 | passes if and only if headers agree and link each other, the geometry is right, checksums and tables match and the maps are equal |
| GptBytes.BackupBytes | scripts/host_gpt_backup_oracle.py:203-242 | the backup map is exactly the list of slots with a set type byte, as their bytes say |
| GptBytes.BackupPassesIff | scripts/host_gpt_backup_oracle.py:46-289 | the backup oracle passes if and only if the two headers match field by field at literal offsets, the geometry is right, the checksums fit, the tables are equal and the given map is that list |
| GptBackup.ScanParity | scripts/host_gpt_backup_oracle.py:203-289 | both oracles decode the same slots, and the number of differences is the primary oracle's overflow count |
| GptBackup.Parity | scripts/host_gpt_backup_oracle.py:266-289 | after the primary oracle passed, the backup oracle passes on the same table if and only if no size overflowed |
| GptExample.ParityFails | scripts/host_gpt_backup_oracle.py:266-289 | with every 32-bit checksum function: header sectors and a table on which the primary oracle passes, the headers agree and both geometries are right, and the backup oracle fails |
| GptBackup.UsableIsFree | scripts/host_gpt_oracle.py:36-42 | under both geometry checks no usable sector belongs to a header or an entry table, and the regions lie in order |
| GptBackup.Separation | scripts/host_gpt_backup_oracle.py:127-179 | with all three oracles passing, no sector of a used partition belongs to either header or entry table |
| BootImage.Padded | scripts/mkbootimg.py:18-22 | the data, then fewer than a page of zeros, up to a whole number of pages |
| BootImage.MakeImage | scripts/mkbootimg.py:134-161 | writes the image section by section, or fails exactly when an integer does not fit its field |
| BootImage.CommandLineKept | scripts/mkbootimg.py:91-101 | the two command-line fields together hold the command line, cut at 1536 bytes |
| BootImage.ImageWords | scripts/mkbootimg.py:134-150 | magic and the ten integers, each at its offset in the image |
| BootImage.ImageFields | scripts/mkbootimg.py:91-150 | the command line at 64 and from its byte 512 on at 608, the digest of the sections with their lengths at 576, zeros between |
| BootImage.ImageSections | scripts/mkbootimg.py:151-161 | kernel, ramdisk, second stage and device tree follow each other in whole pages, and nothing follows them |
| BootImage.RoundTrip | scripts/verify_binary_patch.py:89-115 | for every kernel and ramdisk, also empty ones, and every page size: unpacking the packed image returns their bytes, sizes and addresses |
| OrderedSubsequence.GreedyEmbeds | scripts/verify_d5_final_acceptance.py:104-109 | the prefix the scan has matched embeds in order in the observations |
| OrderedSubsequence.GreedyIsMaximal | scripts/verify_d5_final_acceptance.py:104-109 | no longer prefix embeds |
| OrderedSubsequence.IsOrderedSubsequence | scripts/verify_d5_final_acceptance.py:104-109 | true if and only if the expected sequence embeds in order in the observed one |
| OrderedSubsequence.MoreObservations | scripts/verify_d5_final_acceptance.py:104-109 | inserting observations never turns acceptance into rejection |
| Snapshots.Compare | scripts/display/compare_display_state.py:108-350 | every register of either snapshot is listed once in address order with its status; counters and tallies are right; passes if and only if no expected register is missing, or is present, not exempt and different in a compared bit |
| Snapshots.StatusMeans | scripts/display/compare_display_state.py:153-323 | what each status means in the register's address and bits, without the classification: a difference if and only if the register is in both snapshots, not exempt, and some compared bit differs |
| Snapshots.CountersMean | scripts/display/compare_display_state.py:153-339 | the counters count the registers that differ, are missing, are unexpected or are skipped, in that sense |
| Snapshots.CountsAddUp | scripts/display/compare_display_state.py:153-339 | match, skipped, diff, missing and unexpected add up to the number of registers |
| Snapshots.SubsystemsAddUp | scripts/display/compare_display_state.py:147-325 | the per-subsystem tallies, in any order, add up to the global counter |
| Snapshots.SelfAgrees | scripts/display/compare_display_state.py:302-343 | a snapshot compared with itself passes, whatever the options |
| Snapshots.AgreesLoosely | scripts/display/compare_display_state.py:287-343 | a passing comparison still passes with mask bits cleared or volatile registers excluded |

## Left out

- CRC-32 and SHA-1 are function parameters; the theorems hold for every such function, those that name the checksummed bytes as one string for every function that can be computed piecewise; nothing is said about collisions.
- Walking the file system, reading files, printing, JSON manifests and exit codes: the model starts from entries and byte strings.
- XzsfsBuild.BuildImage: the optional manifest and the final comparison of file sizes are not part of it.
- XzsfsVerify.ParseAndVerify: the optional comparison of payloads with a source directory and the corruption self-test are not part of it.
- XzsfsKernel.Mount: says nothing about what follows a copy that ran out of bounds; the former content of the object buffer is a parameter.
- XzsfsAgreement.MountedAccepted: takes a table loaded whole; only a wrapped sector count, on devices above 2 TiB, loads less.
- XzsfsKernel.LookupName: takes nodes whose parent numbers are in range, which mounting guarantees.
- XzsfsEndToEnd.OpenAndRead: takes paths without `.` and `..` components, and images within the driver's limits.
- HfsCatalog.ScanLeaves: takes a leaf chain that ends; on a cyclic chain the tool does not stop.
- HfsPaths.GetFolderPath: takes folders without a parent cycle; on a cycle the tool recurses without end.
- HfsOwners.PatchOwners: takes node size and first leaf, which `HfsImage.PatchImage` reads from the catalog header; takes well-formed leaves and owners that fit 32 bits, where unpacking and packing cannot fail; patched-record counters and messages are left out.
- HfsImage.PatchImage: takes a catalog in disjoint extents on the disk, a leaf chain that ends and leaves that can be patched; the unused header fields are not read.
- HfsJoin.FolderPath: empty names at the front of a chain add no slash, as in the tool; folders have no parent cycle.
- HfsBytes.RecordPatched: takes a patchable catalog, as `HfsImage.PatchImage` does.
- HfsBytes.BackingPatched: takes a backing record whose own CNID is not that of a private directory.
- HfsStore.CatalogFile.WriteNode: takes a node inside the catalog and extents that are disjoint and on the disk; a failing seek is not modelled.
- Unicode normalisation in the ownership patch is a function parameter.
- SparseVolume.LosesFirstBlock: above 16 MiB of block size the bitmap extent of its volume runs past the end of the volume.
- SparseVolume.KeepsExactlyAt4096: block sizes below 512 bytes, which HFS+ does not have, are left out.
- SparseImage.Writer.FlushCurrent: the writer's chunk fields are stated on integers; that they fit 32 bits is `SparseEncode.EncodeFits`, used by `SparseImage.Convert`.
- MachoFlatten.Flatten: the optional explicit base address and running out of memory are left out.
- MachoTheorems.FlattenedIs: takes well-formed kernels: commands hold their own fields, `__TEXT` starts the file and holds the header, kept contents lie in the file, do not exceed their memory size and do not overlap, and rewritten offsets fit 32 bits.
- MachoTwice.FlattenTwice: the same.
- MachoBytes.SectionFound: the same, and a section behind the load commands whose file offset and address agree with its segment's.
- MachoBytes.ContentsPlaced: the same, for bytes behind the load commands; the commands themselves are `MachoBytes.ByteKept` and its neighbours.
- SparseBytes.BitmapIs: takes an image that holds a whole volume header.
- MachoTheorems.LinkeditFound: takes a link-edit segment that is kept and does not start at file offset 0, where the tool applies no displacement.
- GptEntries.EntriesOracle: the comparison of both inputs with two fixed SHA-256 values is left out, so the statement covers every input and not one captured disk.
- GptBackup.CompareMaps: the two formatted GUID keys are left out; they are functions of the raw GUIDs that are compared.
- GptBackup.UsableIsFree: the power-of-two test of the entry size is stated by repeated halving instead of a bit mask.
- BootImage.MakeImage: the operating-system version field is a parameter; parsing the version strings is left out.
- Snapshots.Compare: register values are sets of one bits with `&` as intersection; the breakdown of matches by kind, the count of critical differences and the explanatory texts are left out.
- The signature-located kernel patcher, the binary search and index scripts, the bit-field decoders and the preference edits would only add easy members.
- Device sessions over USB, fastboot and adb, and the acceptance scripts' tables of expected constants, are not modelled.
