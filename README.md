# Java Projects Explorer — a Dafny model

The Java Projects Explorer is a VS Code extension that shows a workspace as
a tree. Chains of single-child folders are folded into one node whose label
is the dotted package name, such as `com.acme.app`. Java files can be
created from templates, and nodes can be copied, cut, pasted, renamed,
deleted, dragged and dropped. A small undo stack reverses the last edit.

This project models the extension's core in Dafny:

- `fs_model.dfy` (module `FsModel`) — the file system as a snapshot
  `map<Path, Node>`.
  - A path is a sequence of segments, and a node is a directory (its listing
    in `readdir` order) or a file (its bytes).
  - `Valid` is the snapshot's consistency invariant.
  - `Renamed` is what `fs.renameSync` does, with `CanRename` as its
    precondition.
  - `path.join`, `path.dirname` and `path.basename` are modelled on
    segments.
- `uri_list.dfy` (module `UriList`) — the `text/uri-list` payload of a drag:
  - `Uri.file(p).toString()`, `Uri.parse(line).fsPath`;
  - the `\r\n` joining and the `/\r?\n/` splitting of lines;
  - the filtering of blank and non-`file` lines.
- `java_template.dfy` (module `JavaTemplate`) — the text inserted into a new
  Java file:
  - a package line read from the folder path after `src/main/java/` (either
    separator);
  - an optional annotation line;
  - the declaration with keyword `class`, `interface` or `enum`.
- `copy_edit.dfy` (module `CopyEdit`) — `WorkspaceEdit` as a class that
  records file edits, and `buildCopyEdit`, which walks a tree and records one
  non-overwriting creation per file.
- `project_provider.dfy` (module `ProjectTree`) — the tree data provider as
  the class `ProjectProvider`, holding the snapshot and the workspace root:
  - `getChildren` with folder compaction (`getCompactedFolder`) and sorting;
  - `getParent`;
  - drag (`handleDrag`), drop (`handleDrop`) and `moveFile`.
- `explorer_commands.dfy` (module `ExplorerCommands`) — the commands of
  `extension.ts`:
  - `createItem`, `undo`, `copy`, `cut`, `paste`, `rename` and `deleteItem`;
  - the module-level clipboard and undo-stack state, as the class `Session`.

The commands build workspace edits and hand them to the host. The model
records those edits as values of `FileEdit`. It does not model the host
applying them.

Creating a Java file records a creation with `ignoreIfExists: true` and
then inserts the template at line 0, column 0 of that file. So when the file
already exists, it is kept and the template is inserted at its start.

## Model

| member | source | states |
|---|---|---|
| FsModel.Join | src/extension.ts:61 | joining a name onto a folder gives a path whose folder is that folder and whose last segment is the name; an empty name gives the folder itself |
| FsModel.Dirname | src/extension.ts:60 | dropping the last segment and putting it back gives the path again; the root is its own folder |
| FsModel.RenamedValid | src/projectProvider.ts:193 | a rename the file system allows keeps the snapshot consistent: every listed name resolves, listings have no duplicates, and every entry is listed by its parent |
| FsModel.RenamedMoves | src/projectProvider.ts:193 | after a rename, every node below the source is found at the same place below the destination; nothing is left at or below the source; every other node outside the two touched folders is unchanged; no path appears from nowhere |
| FsModel.RenamedShape | src/projectProvider.ts:193 | a rename relocates the subtree; the source's folder stops listing the old name and the destination's folder lists the new name last; every other node of the relocated snapshot is unchanged |
| FsModel.RenameBackAllowed | src/extension.ts:104-105 | after a rename, renaming the destination back to the source is allowed |
| FsModel.RenamedOrigin | src/projectProvider.ts:193 | every path present after a rename either was there before, outside the source, or is a moved path whose origin below the source existed |
| FsModel.RenameBackRestores | src/extension.ts:104-105 | renaming back after a rename restores the same set of paths, the same bytes for every file, and the same kind for every node |
| FsModel.SameTreeListings | src/extension.ts:104-105 | two consistent snapshots with the same paths and kinds list the same names in every folder |
| UriList.ParsePath | src/projectProvider.ts:171 | the segments read from a path text are non-empty and free of '/' |
| UriList.RenderedPathParses | src/projectProvider.ts:129 | reading back the text printed for a plain path gives the path; the text starts with '/' and holds no '?', '#' or line feed |
| UriList.FileUriParses | src/projectProvider.ts:168-171 | parsing the `file` URI printed for a plain path gives scheme `file` and the same path |
| UriList.SplitJoin | src/projectProvider.ts:165 | splitting lines that were joined with CR LF gives the lines back |
| UriList.FileSources | src/projectProvider.ts:165-177 | a payload yields at most one path per line, and none when every line is blank or not a `file` URI |
| UriList.FileSourcesCons | src/projectProvider.ts:166-174 | a non-blank `file` line contributes its parsed path, ahead of the paths of the lines after it |
| UriList.FileSourcesSkip | src/projectProvider.ts:165-170 | a blank line, or one that is not a `file` URI, is dropped and the lines after it are read as if it were not there |
| UriList.FileSourcesAppend | src/projectProvider.ts:166-178 | lines are read independently and in order: the paths of two runs of lines are the paths of the first followed by those of the second |
| UriList.FileUrisRead | src/projectProvider.ts:166-177 | the lines of `file` URIs printed for plain paths are read back as those paths, in order |
| UriList.DragDropRoundTrip | src/projectProvider.ts:129 | the uri-list a drag writes is read by a drop as exactly the dragged paths, in order |
| JavaTemplate.FindMarker | src/extension.ts:72 | finds the leftmost `src/main/java/` marker (either separator) at or after the start, or reports that there is none |
| JavaTemplate.LineLength | src/extension.ts:72 | measures the longest prefix without a JavaScript line terminator |
| JavaTemplate.PackageSuffix | src/extension.ts:72 | no capture exactly when the folder has no marker; the capture holds no line terminator |
| JavaTemplate.PackageSuffixLeftmost | src/extension.ts:72 | the capture is the rest of the line after the leftmost marker: from the end of that marker up to the first line terminator or the end of the text |
| JavaTemplate.Dotted | src/extension.ts:73 | keeps the length and turns each '/' or '\\' into '.', leaving every other character unchanged |
| JavaTemplate.Keyword | src/extension.ts:76 | `interface` exactly for kind Interface, `enum` exactly for kind Enum, `class` for every other kind |
| JavaTemplate.JavaSourceEndsWithDeclaration | src/extension.ts:77 | the inserted text always ends with the declaration `public <keyword> <name> {` blank line `}` |
| JavaTemplate.JavaSourceWithPackage | src/extension.ts:72-74 | under a marker with a non-empty rest of line, the text opens with `package <dotted rest>;` and a blank line |
| JavaTemplate.JavaSourceWithoutPackage | src/extension.ts:73-77 | without a marker, or with nothing after it, the text is just the optional annotation line and the declaration |
| JavaTemplate.PackageNameClean | src/extension.ts:73 | a derived package name contains no separator and no line break |
| JavaTemplate.PackageUnderSourceRoot | src/extension.ts:72-73 | a folder whose first marker is the `src/main/java/` written after any prefix without a marker of its own declares the package spelled by the rest of its path, with dots |
| JavaTemplate.UsersPackage | src/extension.ts:72-73 | the folder `/Users/dev/src/main/java/com/acme`, whose prefix contains 's', declares the package `com.acme` |
| JavaTemplate.AcmeClassSource | src/extension.ts:72-77 | the class `Order` created in `/work/src/main/java/com/acme` starts as `package com.acme;`, a blank line, `public class Order {`, a blank line, `}` |
| CopyEdit.WorkspaceEdit.constructor | src/extension.ts:181 | a new edit records nothing |
| CopyEdit.WorkspaceEdit.Add | src/extension.ts:27 | recording an edit appends it, leaving the earlier ones unchanged |
| CopyEdit.BuildCopyEdit | src/extension.ts:18-29 | succeeds exactly when the whole tree can be read, and then has appended the recorded copy of the tree to the edit |
| CopyEdit.CopyEntriesStops | src/extension.ts:22-23 | once one entry of a folder cannot be copied, the folder's copy fails |
| CopyEdit.ChildCopyOf | src/extension.ts:23 | a copy edit for an entry of a folder is a copy edit for the folder, landing under the entry's name |
| CopyEdit.CopySound | src/extension.ts:18-29 | every recorded edit is a non-overwriting creation, below the destination, of a file below the source at the corresponding place, with the file's bytes |
| CopyEdit.CopyEntriesSound | src/extension.ts:22-23 | the edits for a folder's entries are copy edits of the folder, each under one of those entries |
| CopyEdit.CopySucceeds | src/extension.ts:19-21 | in a consistent snapshot, copying an existing path never fails |
| CopyEdit.CopyEntriesSucceeds | src/extension.ts:22-23 | in a consistent snapshot, copying entries a folder lists never fails |
| CopyEdit.CopyEntriesIncludes | src/extension.ts:22-23 | the copy of a folder's entries includes the whole copy of each entry |
| CopyEdit.CopyComplete | src/extension.ts:18-29 | every file below the source gets its creation, with its bytes, at the corresponding destination path |
| CopyEdit.CopyDistinct | src/extension.ts:18-29 | in a consistent snapshot, no path is created twice |
| CopyEdit.CopyEntriesDistinct | src/extension.ts:22-23 | the copies of a folder's distinct entries create distinct paths |
| ProjectTree.DirsAmong | src/projectProvider.ts:108 | keeps exactly the listed names that are directories |
| ProjectTree.FilesAmong | src/projectProvider.ts:109 | keeps exactly the listed names that are files |
| ProjectTree.Compact | src/projectProvider.ts:106-116 | the folded node ends on a directory, along a chain of single-child directories from the start, where the chain cannot go on; its label is the start's name and the chain's names joined by dots |
| ProjectTree.CompactUnique | src/projectProvider.ts:111-113 | any chain from the start that ends where it cannot go on ends where compaction does |
| ProjectTree.CompactFixedPoint | src/projectProvider.ts:111-115 | a directory is its own folded node, under its own name, if and only if it is not a single-child directory |
| ProjectTree.CompactIdempotent | src/projectProvider.ts:115 | folding the end of a folded chain again changes nothing |
| ProjectTree.FolderItem | src/projectProvider.ts:50-51 | the node shown for a directory at a walk's stop is an expanded, non-root directory node; a directory that is not single-child shows under its own path and name |
| ProjectTree.ChildItem | src/projectProvider.ts:87-101 | a directory entry becomes a folded directory node that is collapsible exactly when the folded directory is not empty; a file entry becomes a leaf under its own path and name |
| ProjectTree.ChildItems | src/projectProvider.ts:86-102 | one node per listed name, in listing order |
| ProjectTree.LabelLeqTotal | src/projectProvider.ts:103 | any two labels are ordered one way or the other |
| ProjectTree.LabelLeqTrans | src/projectProvider.ts:103 | label order is transitive |
| ProjectTree.ItemLeqTotal | src/projectProvider.ts:103 | any two nodes are ordered one way or the other, directories first |
| ProjectTree.ItemLeqTrans | src/projectProvider.ts:103 | node order is transitive |
| ProjectTree.SortedCons | src/projectProvider.ts:103 | a sorted list stays sorted when a node no smaller than its head is inserted behind the head |
| ProjectTree.InsertItem | src/projectProvider.ts:103 | inserting into a sorted list keeps it sorted and adds exactly that node |
| ProjectTree.SortItems | src/projectProvider.ts:103 | the result is sorted (directories first, then by label) and a permutation of the input |
| ProjectTree.BoundaryItem | src/projectProvider.ts:36-51 | the node returned at a walk's stop names that directory and is an expanded directory node |
| ProjectTree.ParentFromNearest | src/projectProvider.ts:34-58 | the parent found is the nearest stop at or above the path, and every directory passed on the way is single-child |
| ProjectTree.ParentFromSkips | src/projectProvider.ts:42-57 | below the root, the walk passes a single-child directory by and goes on from its folder |
| ProjectTree.ChainUp | src/projectProvider.ts:42-57 | stepping up from inside a folded chain stays on the chain, on a single-child directory |
| ProjectTree.WalkUpChain | src/projectProvider.ts:34-58 | walking up from the end of a folded chain below a stop reaches that stop |
| ProjectTree.ParentOfChild | src/projectProvider.ts:29-61 | the parent of any child node `getChildren` lists under a stop is that stop's node: `getParent` inverts `getChildren` |
| ProjectTree.Paths | src/projectProvider.ts:129 | one path per dragged node, in order |
| ProjectTree.DragThenDrop | src/projectProvider.ts:118-178 | a drop reads back the dragged paths in order, from the internal payload and equally from the uri-list alone |
| ProjectTree.CancelledDragStillDrops | src/projectProvider.ts:118-131 | the nodes go on the payload before the cancellation check: a cancelled drag leaves the uri-list as it was, and a drop still reads the dragged nodes |
| ProjectTree.InternalPayloadWins | src/projectProvider.ts:137-165 | while the internal payload holds a node, the drop moves exactly those nodes, whatever the uri-list holds |
| ProjectTree.DropTarget | src/projectProvider.ts:148-152 | with no target the drop goes to the workspace root; a directory target is used as is; a file target is replaced by its folder |
| ProjectTree.MoveStep | src/projectProvider.ts:185-197 | the same path, an existing destination or a refused rename leaves the snapshot unchanged |
| ProjectTree.MoveStepMoves | src/projectProvider.ts:185-197 | in a consistent snapshot a move changes it exactly when the rename is allowed; then the result is the renamed snapshot, the source is gone and the destination holds the source's node |
| ProjectTree.MoveStepValid | src/projectProvider.ts:185-197 | a move keeps the snapshot consistent |
| ProjectTree.MoveStepKeeps | src/projectProvider.ts:189-193 | a move never overwrites: what exists outside the moved tree keeps its node, and when anything changed (by `MoveStepMoves`, exactly when the rename is allowed), the destination did not exist and the moved tree reappears below it |
| ProjectTree.DropAllAppend | src/projectProvider.ts:155-159 | dropping a list is dropping its first part and then the rest |
| ProjectTree.DropAllSnoc | src/projectProvider.ts:155-159 | dropping one more source is one more move, of that source into the target folder under its own name |
| ProjectTree.DropSkipsFailed | src/projectProvider.ts:155-159 | a source that cannot be moved changes nothing, and the others are moved as if it had not been dropped |
| ProjectTree.DropAllValid | src/projectProvider.ts:155-178 | a drop keeps the snapshot consistent |
| ProjectTree.ProjectProvider.constructor | src/projectProvider.ts:22-24 | the provider starts with the given root and snapshot |
| ProjectTree.ProjectProvider.GetChildren | src/projectProvider.ts:63-104 | with no folder open, nothing; at the top, the root node alone; a missing path, nothing; a file, a failure; a directory, a failure exactly when a listed name does not resolve, otherwise its child nodes sorted (directories first, then by label) and a permutation of one node per listed name |
| ProjectTree.ProjectProvider.GetParent | src/projectProvider.ts:29-61 | nothing for the root or with no folder open; otherwise the node where the upward walk stops, the nearest root or non-single-child directory above |
| ProjectTree.ProjectProvider.MoveFile | src/projectProvider.ts:185-197 | the snapshot becomes the one-step move of the source to the destination |
| ProjectTree.ProjectProvider.HandleDrop | src/projectProvider.ts:133-183 | a cancelled drop, or one with no target folder, changes nothing; otherwise every source is moved into the target folder in turn, and the snapshot stays consistent |
| ProjectTree.ProjectProvider.MoveAll | src/projectProvider.ts:155-159 | moving the sources one after the other leaves the snapshot of the sequential drop of all of them into the target folder |
| ExplorerCommands.CreateItem | src/extension.ts:58-79 | an empty name cancels; a folder request makes the directory named by the entry name inside the target folder; otherwise a non-overwriting creation of that file followed by inserting the Java template for its folder |
| ExplorerCommands.CreateFileInFolder | src/extension.ts:60-79 | a Java file created on a folder node is `<name>.java` inside that folder |
| ExplorerCommands.CreateClassInPackage | src/extension.ts:58-79 | end to end: creating class `Order` in the package folder `com/acme` records creating `Order.java` there and inserting `package com.acme;`, a blank line, `public class Order {`, a blank line, `}` |
| ExplorerCommands.Inverse | src/extension.ts:99-111 | a create or copy record is undone by a recursive, missing-tolerant deletion of its destination; a file's delete record by recreating that path with the saved bytes, refusing to overwrite; a deleted directory (nothing saved) by no edit; a rename or cut by moving the destination back to the source, overwriting |
| ExplorerCommands.UndoRenameRestores | src/extension.ts:104-105 | undoing a rename that took place is possible and restores every path, every file's bytes and every node's kind |
| ExplorerCommands.DeleteThenUndo | src/extension.ts:219-227 | deleting a readable file and then undoing returns the creation of that same path with the bytes it had, and leaves the undo stack and clipboard as they were |
| ExplorerCommands.ChoosePasteSource | src/extension.ts:165-177 | the internal clipboard wins, with its cut flag; otherwise a system-clipboard path is used, as a copy, exactly when it exists |
| ExplorerCommands.OverlapValid | src/extension.ts:179 | the example snapshot (a file `a` beside a folder `b` holding its own `a`) is consistent |
| ExplorerCommands.PasteOverExistingEntry | src/extension.ts:179-190 | as written, cutting `/a` and pasting it into `/b` records a creation on the existing `/b/a`, which the host skips, then deletes `/a`; the copy's undo deletes the entry that was already there |
| ExplorerCommands.PasteOverExistingSession | src/extension.ts:179-193 | as written, that cut still pushes a cut record and clears the clipboard; the corrected paste builds no edits there |
| ExplorerCommands.PasteCreatesOnlyNewPaths | src/extension.ts:179-190 | with an existing destination refused, every creation a paste records lands inside the destination on a path that does not exist yet |
| ExplorerCommands.NestedValid | src/extension.ts:179 | the second example snapshot (a folder `a` holding a file `x`) is consistent |
| ExplorerCommands.CutIntoOwnFolder | src/extension.ts:179-188 | as written, cutting the folder `/a` and pasting it on its own node records the creation of `/a/a/x` and then the deletion of `/a`, which lies above that creation; the corrected paste refuses this cut |
| ExplorerCommands.CutPasteCreatesOutsideSource | src/extension.ts:182-184 | with a cut into the source's own subtree refused as well, no creation a cut records lies at or below the source it then deletes |
| ExplorerCommands.CutPasteMovesEveryFile | src/extension.ts:182-184 | a cut pasted into a free destination outside its own tree records, before deleting the source, a creation with the same bytes for every file below the source, and none of those creations lies below the source |
| ExplorerCommands.Session.constructor | src/extension.ts:6-16 | the session starts with no clipboard source, no cut, and an empty undo stack |
| ExplorerCommands.Session.Copy | src/extension.ts:133-145 | the node is remembered as a copy source; the undo stack is unchanged |
| ExplorerCommands.Session.Cut | src/extension.ts:146-154 | the node is remembered as a cut source; the undo stack is unchanged |
| ExplorerCommands.Session.Paste | src/extension.ts:155-195 | without a source, or when the edits cannot be built (the tree is unreadable, the destination exists, or a cut would move the tree into itself), nothing changes; a cut returns the copy edits plus the source's deletion, clears the clipboard and pushes a cut record; a copy returns the copy edits, keeps the clipboard and pushes a copy record |
| ExplorerCommands.Session.Rename | src/extension.ts:196-208 | an empty name changes nothing; otherwise a non-overwriting rename within the same folder, recorded on the undo stack |
| ExplorerCommands.Session.Delete | src/extension.ts:209-230 | deletes exactly when the node is not the workspace root, the user confirmed, and it is a directory or a readable file; the record keeps a file's bytes, and nothing for a directory |
| ExplorerCommands.Session.Undo | src/extension.ts:91-111 | with an empty stack, nothing; otherwise pops the most recent record and returns its reversing edit |

## Left out

- `ProjectTree.LabelLeq`: `localeCompare` is replaced by code-unit lexicographic order. Locale collation is host data that the model cannot see.
- `ProjectTree.SortItems`: states sorted and a permutation. It does not state which of two equally ranked nodes comes first; the engine's `Array.prototype.sort` is stable.
- `ProjectTree.ParentFrom`: `startsWith` on path text becomes a segment prefix. The two differ for a path outside the root whose text starts with the root's text. Revealing the file `/work/app2/Main.java` under the root `/work/app` (src/extension.ts:242, :256) makes the host walk `getParent`. The code then returns a folder node for `/work/app2`, outside the workspace. The model returns nothing.
- `UriList.ParseUri`: no percent-encoding or decoding, no authority, no Windows drive letters, and no parse errors. Round trips are proved for plain segments only (`UriList.PlainPath`).
- Symbolic links are not modelled: `lstat` sees only directories and files.
- A listed name that does not resolve is treated as neither a directory nor a file during compaction, while the code's `lstatSync` would throw there. Consistent snapshots (`FsModel.Valid`) have no such names.
- `ProjectTree.ProjectProvider.HandleDrop`: with no workspace folder open and no target, the code would move into relative paths under the process's working directory. The model moves nothing.
- `handleDrag`/`handleDrop` `DataTransfer` items are a record holding the internal payload and the uri-list text, and the cancellation token is a boolean read once.
- The host's application of workspace edits is not modelled, nor `fs.mkdirSync`'s effect. The commands return the edits they record.
- The system clipboard is an input of `Session.Paste` (the path it holds, already checked against the snapshot). Writing to it in `copy`/`cut` is not modelled.
- `getActiveNode` (src/extension.ts:44-49): the commands take the node they act on as a parameter. The selection and root fallback are not modelled.
- `ExplorerCommands.Session.Rename`: as in the code, the rename is pushed on the undo stack whether or not the host applies it. Undoing a refused rename would then rename with overwrite. This is not modelled because edit application is outside the model.
- `ExplorerCommands.CreateItem`: names containing separators or `..` are joined as one segment. `path.join` normalisation is not modelled.
- `ExplorerCommands.Session.Rename`: the new name is joined as one segment, as in `CreateItem`. With `sub/x` as the new name the code renames into `sub/x` below the folder, and `..` leaves the folder. The contract's "same folder" holds only for names without separators or `..`.
- No `CreateRecord` is ever pushed, as in the code; `Inverse` still maps one.
- Deleting a directory saves no content, so its undo records no edit, as in the code.
- Asynchrony, refresh events, status-bar and error messages, opening the created file, the auto-reveal and utility commands (copy paths, terminal, reveal in OS) are not modelled.
- `ExplorerCommands.Session.Paste`: follows the corrected paste (`ExplorerCommands.PasteEdits`), which refuses an existing destination and a cut into the source's own tree. The code as written is `ExplorerCommands.PasteEditsAsWritten` for the edits and `ExplorerCommands.PasteAsWritten` for the whole session step; see Findings.

## Findings

| source | as written | input that shows it | evidently intended | confidence | as-written member | corrected member |
|---|---|---|---|---|---|---|
| src/extension.ts:179-190 | `paste` does not check whether the destination exists. It records creations with `ignoreIfExists`, which the host skips on existing paths. For a cut it then deletes the source, so the cut file's bytes land nowhere. For a copy it pushes a record whose undo deletes the entry that was there before. Either way the record is pushed and a cut clears the clipboard (`ExplorerCommands.PasteOverExistingSession`) | cut the file `/a` (bytes `[1]`) and paste it into the folder `/b`, which already holds a file `/b/a` (bytes `[2]`) | refuse a paste whose destination exists, as `moveFile` does (src/projectProvider.ts:189-192) | high for the cut, medium for the copy; not executed | ExplorerCommands.PasteOverExistingEntry | ExplorerCommands.PasteCreatesOnlyNewPaths |
| src/extension.ts:179-188 | a cut pasted on its own folder node records the copy of the tree below the source and then deletes the source recursively. The deletion takes every created file with it, so the whole tree is lost. The clipboard is cleared and a cut record pushed as usual | cut the folder `/a`, which holds the file `/a/x` (bytes `[1]`), and paste it on the node of `/a`: the edits are the creation of `/a/a/x` and then the deletion of `/a` | refuse to move a tree into itself, as the drop handler's `renameSync` does (src/projectProvider.ts:193) | high; not executed | ExplorerCommands.CutIntoOwnFolder | ExplorerCommands.CutPasteCreatesOutsideSource |
