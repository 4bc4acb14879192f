/** The explorer's commands: creating a Java file or a folder, copy, cut,
    paste, rename and delete, each recording what it did on an undo stack,
    and undo, which turns the most recent record into the edit that
    reverses it. The commands hand their changes to the host as workspace
    edits; applying those edits is the host's business. */
module ExplorerCommands {
  import opened FsModel
  import opened UriList
  import opened JavaTemplate
  import opened CopyEdit
  import opened ProjectTree

  /** The folder a command aimed at `target` works in: the node itself
      when it is a directory, otherwise the directory that holds it. */
  function TargetFolder(target: Item): Path
  {
    if target.isDirectory then target.path else Dirname(target.path)
  }

  /** The entry name for a new item: a Java kind adds ".java". */
  function EntryName(name: string, kind: string): string
  {
    if kind != "" then name + ".java" else name
  }

  /** What `createItem` does once the name has been asked for. */
  datatype Creation =
    | Cancelled
    | MadeDirectory(path: Path)
    | Edited(edits: seq<FileEdit>)

  /** `createItem`: an empty answer cancels; a folder is made directly;
      a file is created without overwriting an existing one and the Java
      template for its folder is inserted at its start. */
  function CreateItem(target: Item, isFolder: bool, kind: string, annotation: string, name: string): (r: Creation)
    ensures r.Cancelled? <==> name == ""
    ensures r.MadeDirectory? <==> name != "" && isFolder
    ensures r.MadeDirectory? ==>
      Dirname(r.path) == TargetFolder(target) && Basename(r.path) == EntryName(name, kind)
    ensures r.Edited? ==>
      && |r.edits| == 2 && r.edits[1].InsertText?
      && r.edits[0] == CreateFile(r.edits[1].path, None, true)
      && Dirname(r.edits[1].path) == TargetFolder(target)
      && Basename(r.edits[1].path) == EntryName(name, kind)
      && r.edits[1].text == JavaSource(Render(TargetFolder(target)), kind, annotation, name)
  {
    if name == "" then Cancelled
    else
      var folder := TargetFolder(target);
      var p := Join(folder, EntryName(name, kind));
      if isFolder then MadeDirectory(p)
      else Edited([CreateFile(p, None, true), InsertText(p, JavaSource(Render(folder), kind, annotation, name))])
  }

  /** A Java file created on a folder node goes into that folder. */
  lemma CreateFileInFolder(target: Item, kind: string, annotation: string, name: string)
    requires target.isDirectory && name != "" && kind != ""
    ensures var p := target.path + [name + ".java"];
      CreateItem(target, false, kind, annotation, name)
        == Edited([CreateFile(p, None, true), InsertText(p, JavaSource(Render(target.path), kind, annotation, name))])
  {
  }

  /** A path of three segments prints as each segment after a '/'. */
  lemma RenderThreeSegments(a: string, b: string, c: string)
    ensures RenderSegments([a, b, c]) == "/" + a + "/" + b + "/" + c
  {
    RenderCons(c, []);
    RenderCons(b, [c]);
    assert [b] + [c] == [b, c];
    RenderCons(a, [b, c]);
    assert [a] + [b, c] == [a, b, c];
  }

  /** A path of six segments prints as each segment after a '/'. */
  lemma RenderSixSegments(a: string, b: string, c: string, d: string, e: string, f: string)
    ensures Render([a, b, c, d, e, f]) == "/" + a + "/" + b + "/" + c + "/" + d + "/" + e + "/" + f
  {
    RenderThreeSegments(a, b, c);
    RenderThreeSegments(d, e, f);
    RenderAppend([a, b, c], [d, e, f]);
    assert [a, b, c] + [d, e, f] == [a, b, c, d, e, f];
  }

  lemma AcmeFolderRender()
    ensures Render(["work", "src", "main", "java", "com", "acme"]) == "/work/src/main/java/com/acme"
  {
    RenderSixSegments("work", "src", "main", "java", "com", "acme");
  }

  lemma AcmeFolderText()
    ensures JavaSource(Render(["work", "src", "main", "java", "com", "acme"]), "Class", "", "Order")
      == "package com.acme;\n\npublic class Order {\n\n}"
  {
    AcmeFolderRender();
    AcmeClassSource();
  }

  lemma CreateOrderIn(folder: Path)
    ensures var p := folder + ["Order.java"];
      CreateItem(Item("acme", folder, Expanded, true, false), false, "Class", "", "Order")
        == Edited([CreateFile(p, None, true), InsertText(p, JavaSource(Render(folder), "Class", "", "Order"))])
  {
    CreateFileInFolder(Item("acme", folder, Expanded, true, false), "Class", "", "Order");
    assert "Order" + ".java" == "Order.java";
  }

  /** Creating the class `Order` on the folder node of
      `/work/src/main/java/com/acme`. */
  lemma CreateClassInPackage()
    ensures var folder := ["work", "src", "main", "java", "com", "acme"];
      var p := folder + ["Order.java"];
      CreateItem(Item("acme", folder, Expanded, true, false), false, "Class", "", "Order")
        == Edited([CreateFile(p, None, true), InsertText(p, "package com.acme;\n\npublic class Order {\n\n}")])
  {
    var folder := ["work", "src", "main", "java", "com", "acme"];
    CreateOrderIn(folder);
    AcmeFolderText();
  }

  /** One entry of the undo stack. */
  datatype UndoOperation =
    | CreateRecord(dest: Path)
    | RenameRecord(source: Path, dest: Path)
    | DeleteRecord(dest: Path, content: Option<seq<byte>>)
    | CopyRecord(dest: Path)
    | CutRecord(source: Path, dest: Path)

  /** The edit that reverses a record: what was created or copied is
      deleted, a deleted file is recreated with its saved bytes (a deleted
      directory saved nothing and gets nothing back), and what was renamed
      or cut is moved back, overwriting. */
  function Inverse(op: UndoOperation): (r: seq<FileEdit>)
    ensures |r| <= 1
    ensures r == [] <==> op.DeleteRecord? && op.content.None?
    ensures forall e :: e in r ==> e.path == op.dest
    ensures (op.CreateRecord? || op.CopyRecord?) ==> r == [DeleteFile(op.dest, true, true)]
    ensures op.DeleteRecord? && op.content.Some? ==> r == [CreateFile(op.dest, op.content, false)]
    ensures (op.RenameRecord? || op.CutRecord?) ==> r == [RenameFile(op.dest, op.source, true)]
  {
    match op
    case CreateRecord(d) => [DeleteFile(d, true, true)]
    case DeleteRecord(d, content) =>
      if content.Some? then [CreateFile(d, Some(content.value), false)] else []
    case RenameRecord(s, d) => [RenameFile(d, s, true)]
    case CopyRecord(d) => [DeleteFile(d, true, true)]
    case CutRecord(s, d) => [RenameFile(d, s, true)]
  }

  /** Undoing a rename that took place: the reversing edit is possible
      and gives back every path, every file's bytes and every directory's
      names. */
  lemma UndoRenameRestores(fs: FileSystem, source: Path, dest: Path)
    requires Valid(fs) && CanRename(fs, source, dest)
    ensures var e := Inverse(RenameRecord(source, dest))[0];
      var renamed := Renamed(fs, source, dest);
      && CanRename(renamed, e.path, e.newPath)
      && SameTree(Renamed(renamed, e.path, e.newPath), fs)
  {
    RenameBackRestores(fs, source, dest);
  }

  /** Where a paste takes its source from, and whether it moves it. */
  datatype PasteSource = PasteSource(path: Path, cut: bool)

  /** The internal clipboard wins, with its cut flag; otherwise a path
      from the system clipboard that exists is copied, never moved. */
  function ChoosePasteSource(clipboard: Option<Path>, isCut: bool, external: Option<Path>, fs: FileSystem): (r: Option<PasteSource>)
    ensures clipboard.Some? ==> r == Some(PasteSource(clipboard.value, isCut))
    ensures clipboard.None? ==> (r.Some? <==> external.Some? && external.value in fs)
    ensures clipboard.None? && r.Some? ==> r.value == PasteSource(external.value, false)
  {
    if clipboard.Some? then Some(PasteSource(clipboard.value, isCut))
    else if external.Some? && external.value in fs then Some(PasteSource(external.value, false))
    else None
  }

  /** The edits `paste` records as written: a creation for every file of
      the source, then, for a cut, the deletion of the source. `None` when
      the source tree cannot be read. */
  function PasteEditsAsWritten(fs: FileSystem, source: Path, dest: Path, cut: bool): Option<seq<FileEdit>>
  {
    match CopyEdits(fs, source, dest)
    case None => None
    case Some(creations) => Some(creations + if cut then [DeleteFile(source, true, true)] else [])
  }

  /** The edits of a paste that, like the drop handler's move, refuses an
      existing destination and a cut into the source's own subtree;
      otherwise as written. */
  function PasteEdits(fs: FileSystem, source: Path, dest: Path, cut: bool): Option<seq<FileEdit>>
  {
    if dest in fs || (cut && IsPrefix(source, dest)) then None else PasteEditsAsWritten(fs, source, dest, cut)
  }

  /** A folder `a` beside a folder `b` that already holds an entry `a`. */
  function Overlap(): FileSystem
  {
    map[[] := Dir(["a", "b"]), ["a"] := File([1]), ["b"] := Dir(["a"]), ["b", "a"] := File([2])]
  }

  lemma OverlapValid()
    ensures Valid(Overlap())
  {
    OverlapListingsResolve();
    OverlapParentsList();
  }

  lemma OverlapListingsResolve()
    ensures var fs := Overlap();
      forall p, i :: IsDir(fs, p) && 0 <= i < |fs[p].names| ==> p + [fs[p].names[i]] in fs
  {
    var fs := Overlap();
    forall p, i | IsDir(fs, p) && 0 <= i < |fs[p].names| ensures p + [fs[p].names[i]] in fs {
      if p == [] {
        assert p + ["a"] == ["a"] && p + ["b"] == ["b"];
      } else {
        assert p == ["b"] && i == 0;
        assert p + ["a"] == ["b", "a"];
      }
    }
  }

  lemma OverlapParentsList()
    ensures var fs := Overlap();
      forall d, n {:trigger d + [n] in fs} :: d + [n] in fs ==> IsDir(fs, d) && n in fs[d].names
  {
    var fs := Overlap();
    forall d, n | d + [n] in fs ensures IsDir(fs, d) && n in fs[d].names {
      var k := d + [n];
      assert d == k[..|k| - 1] && n == k[|k| - 1];
      if k == ["a"] || k == ["b"] {
        assert d == [];
      } else {
        assert k == ["b", "a"] && d == ["b"];
      }
    }
  }

  /** As written, a cut pasted where an entry of the same name exists
      records a creation that the host skips (the path exists) and then
      deletes the source: the cut file's bytes are recorded nowhere that
      takes effect. A copy pasted there records a copy whose undo deletes
      the entry that was there before. */
  lemma PasteOverExistingEntry()
    ensures var fs := Overlap();
      var dest := Join(["b"], Basename(["a"]));
      && Valid(fs) && dest == ["b", "a"] && IsFile(fs, dest) && fs[dest].bytes != [1]
      && PasteEditsAsWritten(fs, ["a"], dest, true)
         == Some([CreateFile(dest, Some([1]), true), DeleteFile(["a"], true, true)])
      && PasteEditsAsWritten(fs, ["a"], dest, false) == Some([CreateFile(dest, Some([1]), true)])
      && Inverse(CopyRecord(dest)) == [DeleteFile(dest, true, true)]
  {
    OverlapValid();
    var fs := Overlap();
    var dest := ["b", "a"];
    assert Basename(["a"]) == "a" && Join(["b"], "a") == dest;
    assert ["a"] in fs && fs[["a"]] == File([1]);
    assert dest in fs && fs[dest] == File([2]);
    var creation := CreateFile(dest, Some([1]), true);
    assert CopyEdits(fs, ["a"], dest) == Some([creation]);
    assert [creation] + [DeleteFile(["a"], true, true)] == [creation, DeleteFile(["a"], true, true)];
    assert [creation] + [] == [creation];
  }

  /** With the existing destination refused, every creation a paste
      records lands on a path that does not exist yet, inside the
      destination, so the host performs all of them and undoing the paste
      by deleting the destination removes only what the paste made. */
  lemma PasteCreatesOnlyNewPaths(fs: FileSystem, source: Path, dest: Path, cut: bool)
    requires Valid(fs) && PasteEdits(fs, source, dest, cut).Some?
    ensures dest !in fs
    ensures forall e :: e in PasteEdits(fs, source, dest, cut).value && e.CreateFile? ==>
      IsPrefix(dest, e.path) && e.path !in fs
  {
    CopySound(fs, source, dest);
    var es := PasteEdits(fs, source, dest, cut).value;
    forall e | e in es && e.CreateFile? ensures IsPrefix(dest, e.path) && e.path !in fs {
      assert e in CopyEdits(fs, source, dest).value;
      if e.path in fs {
        NothingBelowMissing(fs, dest, e.path);
      }
    }
  }

  /** With a cut into the source's own subtree refused as well, no
      creation a cut records lies below the source it then deletes. */
  lemma CutPasteCreatesOutsideSource(fs: FileSystem, source: Path, dest: Path)
    requires Valid(fs) && PasteEdits(fs, source, dest, true).Some?
    ensures forall e :: e in PasteEdits(fs, source, dest, true).value && e.CreateFile? ==>
      !IsPrefix(source, e.path)
  {
    PasteCreatesOnlyNewPaths(fs, source, dest, true);
    assert source in fs;
    var es := PasteEdits(fs, source, dest, true).value;
    forall e | e in es && e.CreateFile? ensures !IsPrefix(source, e.path) {
      if IsPrefix(source, e.path) {
        PrefixesOfOne(source, dest, e.path);
        NothingBelowMissing(fs, dest, source);
      }
    }
  }

  /** A cut pasted into a free destination outside its own subtree
      records, before deleting the source, a fresh creation with the same
      bytes for every file below the source, none of them below the
      source. */
  lemma CutPasteMovesEveryFile(fs: FileSystem, source: Path, dest: Path)
    requires Valid(fs) && source in fs && dest !in fs && !IsPrefix(source, dest)
    ensures PasteEdits(fs, source, dest, true).Some?
    ensures var es := PasteEdits(fs, source, dest, true).value;
      && |es| > 0 && es[|es| - 1] == DeleteFile(source, true, true)
      && (forall q :: IsFile(fs, q) && IsPrefix(source, q) ==>
            CreateFile(Reroot(source, dest, q), Some(fs[q].bytes), true) in es[..|es| - 1])
      && (forall e :: e in es[..|es| - 1] ==> e.CreateFile? && !IsPrefix(source, e.path))
  {
    CopySucceeds(fs, source, dest);
    CopySound(fs, source, dest);
    var creations := CopyEdits(fs, source, dest).value;
    var es := creations + [DeleteFile(source, true, true)];
    assert es[..|es| - 1] == creations;
    forall q | IsFile(fs, q) && IsPrefix(source, q)
      ensures CreateFile(Reroot(source, dest, q), Some(fs[q].bytes), true) in creations
    {
      CopyComplete(fs, source, dest, q);
    }
    CutPasteCreatesOutsideSource(fs, source, dest);
    forall e | e in creations ensures e.CreateFile? && !IsPrefix(source, e.path) {
      assert e in es;
    }
  }

  /** A folder `a` holding a file `x`. */
  function Nested(): FileSystem
  {
    map[[] := Dir(["a"]), ["a"] := Dir(["x"]), ["a", "x"] := File([1])]
  }

  lemma NestedValid()
    ensures Valid(Nested())
  {
    NestedListingsResolve();
    NestedParentsList();
  }

  lemma NestedListingsResolve()
    ensures var fs := Nested();
      forall p, i :: IsDir(fs, p) && 0 <= i < |fs[p].names| ==> p + [fs[p].names[i]] in fs
  {
    var fs := Nested();
    forall p, i | IsDir(fs, p) && 0 <= i < |fs[p].names| ensures p + [fs[p].names[i]] in fs {
      if p == [] {
        assert p + ["a"] == ["a"];
      } else {
        assert p == ["a"] && i == 0;
        assert p + ["x"] == ["a", "x"];
      }
    }
  }

  lemma NestedParentsList()
    ensures var fs := Nested();
      forall d, n {:trigger d + [n] in fs} :: d + [n] in fs ==> IsDir(fs, d) && n in fs[d].names
  {
    var fs := Nested();
    forall d, n | d + [n] in fs ensures IsDir(fs, d) && n in fs[d].names {
      var k := d + [n];
      assert d == k[..|k| - 1] && n == k[|k| - 1];
      if k == ["a"] {
        assert d == [];
      } else {
        assert k == ["a", "x"] && d == ["a"];
      }
    }
  }

  /** The copy of the folder `a` of `Nested()` into `a/a`. */
  lemma NestedCopy()
    ensures CopyEdits(Nested(), ["a"], ["a", "a"]) == Some([CreateFile(["a", "a", "x"], Some([1]), true)])
  {
    var fs := Nested();
    var c := CreateFile(["a", "a", "x"], Some([1]), true);
    assert ["a"] + ["x"] == ["a", "x"] && ["a", "a"] + ["x"] == ["a", "a", "x"];
    assert CopyEdits(fs, ["a", "x"], ["a", "a", "x"]) == Some([c]);
    assert ["x"][..0] == [];
    assert CopyEntries(fs, ["a"], ["a", "a"], []) == Some([]);
    assert [] + [c] == [c];
    assert CopyEntries(fs, ["a"], ["a", "a"], ["x"]) == Some([c]);
  }

  /** As written, cutting the folder `a` and pasting it on its own node
      records the creation of `a/a/x` and then the deletion of `a`: the
      creation lies below the deleted path, so the file's bytes end up
      nowhere. The corrected paste refuses this cut. */
  lemma CutIntoOwnFolder()
    ensures var fs := Nested();
      var dest := Join(TargetFolder(Item("a", ["a"], Collapsed, true, false)), Basename(["a"]));
      var c := CreateFile(["a", "a", "x"], Some([1]), true);
      && Valid(fs) && dest == ["a", "a"] && dest !in fs
      && PasteEditsAsWritten(fs, ["a"], dest, true) == Some([c, DeleteFile(["a"], true, true)])
      && IsPrefix(["a"], c.path)
      && PasteEdits(fs, ["a"], dest, true).None?
  {
    NestedValid();
    NestedCopy();
    var dest := ["a", "a"];
    assert Basename(["a"]) == "a" && Join(["a"], "a") == dest;
    var c := CreateFile(["a", "a", "x"], Some([1]), true);
    assert [c] + [DeleteFile(["a"], true, true)] == [c, DeleteFile(["a"], true, true)];
  }

  /** The session's clipboard and undo stack as a value, for stating what
      the code as written does. */
  datatype SessionState = SessionState(clipboard: Option<Path>, isCut: bool, undoStack: seq<UndoOperation>)

  /** `paste` as written: the new session state and the edits applied.
      Whatever the destination holds, successfully built edits are
      applied, the record is pushed and a cut clears the clipboard. */
  function PasteAsWritten(st: SessionState, fs: FileSystem, target: Item, external: Option<Path>)
    : (SessionState, Option<seq<FileEdit>>)
  {
    match ChoosePasteSource(st.clipboard, st.isCut, external, fs)
    case None => (st, None)
    case Some(src) =>
      var dest := Join(TargetFolder(target), Basename(src.path));
      match PasteEditsAsWritten(fs, src.path, dest, src.cut)
      case None => (st, None)
      case Some(es) =>
        if src.cut then (SessionState(None, false, st.undoStack + [CutRecord(src.path, dest)]), Some(es))
        else (st.(undoStack := st.undoStack + [CopyRecord(dest)]), Some(es))
  }

  /** As written, the cut of `/a` pasted on the folder `/b`, which already
      holds `/b/a`, still applies the creation and the deletion, pushes a
      cut record and clears the clipboard. The corrected paste builds no
      edits there. */
  lemma PasteOverExistingSession()
    ensures var fs := Overlap();
      var dest := ["b", "a"];
      var (st, applied) := PasteAsWritten(SessionState(Some(["a"]), true, []), fs, Item("b", ["b"], Collapsed, true, false), None);
      && dest in fs
      && st == SessionState(None, false, [CutRecord(["a"], dest)])
      && applied == Some([CreateFile(dest, Some([1]), true), DeleteFile(["a"], true, true)])
      && PasteEdits(fs, ["a"], dest, true).None?
  {
    PasteOverExistingEntry();
    assert Join(TargetFolder(Item("b", ["b"], Collapsed, true, false)), Basename(["a"])) == ["b", "a"];
  }

  /** The extension's session state: the internal clipboard, whether it
      holds a cut, and the undo stack (its last element is the top). */
  class Session {
    var clipboardSource: Option<Path>
    var isCut: bool
    var undoStack: seq<UndoOperation>
    /** The workspace root, which delete refuses; `None` with no folder open. */
    const rootPath: Option<Path>

    /** A cut is only ever pending for a source on the internal clipboard. */
    ghost predicate CutHasSource()
      reads this
    {
      isCut ==> clipboardSource.Some?
    }

    constructor(root: Option<Path>)
      ensures rootPath == root && clipboardSource.None? && !isCut && undoStack == []
      ensures CutHasSource()
    {
      rootPath := root;
      clipboardSource := None;
      isCut := false;
      undoStack := [];
    }

    /** `copy`: remembers the node for a later paste, as a copy. */
    method Copy(target: Item)
      modifies this
      ensures clipboardSource == Some(target.path) && !isCut && undoStack == old(undoStack)
      ensures CutHasSource()
    {
      isCut := false;
      clipboardSource := Some(target.path);
    }

    /** `cut`: remembers the node for a later paste, as a move. */
    method Cut(target: Item)
      modifies this
      ensures clipboardSource == Some(target.path) && isCut && undoStack == old(undoStack)
      ensures CutHasSource()
    {
      isCut := true;
      clipboardSource := Some(target.path);
    }

    /** `paste` into the folder of `target`, with `external` the path the
        system clipboard holds, if any. The destination is the folder
        joined with the source's name. A paste whose source cannot be
        read, whose destination exists, or which would move a tree into
        itself, changes nothing. A cut clears
        the clipboard and is recorded as a cut; a copy is recorded as a
        copy. */
    method Paste(fs: FileSystem, target: Item, external: Option<Path>) returns (applied: Option<seq<FileEdit>>)
      modifies this
      requires CutHasSource()
      ensures CutHasSource()
      ensures var src := ChoosePasteSource(old(clipboardSource), old(isCut), external, fs);
        if src.None? then
          applied.None? && clipboardSource == old(clipboardSource) && isCut == old(isCut) && undoStack == old(undoStack)
        else
          var dest := Join(TargetFolder(target), Basename(src.value.path));
          && applied == PasteEdits(fs, src.value.path, dest, src.value.cut)
          && (applied.None? ==>
                clipboardSource == old(clipboardSource) && isCut == old(isCut) && undoStack == old(undoStack))
          && (applied.Some? && src.value.cut ==>
                clipboardSource.None? && !isCut && undoStack == old(undoStack) + [CutRecord(src.value.path, dest)])
          && (applied.Some? && !src.value.cut ==>
                clipboardSource == old(clipboardSource) && isCut == old(isCut)
                && undoStack == old(undoStack) + [CopyRecord(dest)])
    {
      var src := ChoosePasteSource(clipboardSource, isCut, external, fs);
      if src.None? {
        return None;
      }
      var source, cut := src.value.path, src.value.cut;
      var dest := Join(TargetFolder(target), Basename(source));
      if dest in fs || (cut && IsPrefix(source, dest)) {
        return None;
      }
      var e := new WorkspaceEdit();
      assert e.edits == [];
      var ok := BuildCopyEdit(fs, source, dest, e);
      if !ok {
        return None;
      }
      var creations := e.edits;
      assert ok;
      assert CopyEdits(fs, source, dest).Some?;
      assert CopyEdits(fs, source, dest).value == creations;
      assert CopyEdits(fs, source, dest) == Some(creations);
      assert PasteEditsAsWritten(fs, source, dest, cut)
        == Some(creations + if cut then [DeleteFile(source, true, true)] else []);
      if cut {
        e.Add(DeleteFile(source, true, true));
        clipboardSource := None;
        isCut := false;
        undoStack := undoStack + [CutRecord(source, dest)];
      } else {
        undoStack := undoStack + [CopyRecord(dest)];
        assert creations + [] == creations;
      }
      applied := Some(e.edits);
    }

    /** `rename` to `newName` in the same folder, without overwriting; an
        empty answer changes nothing. The rename is recorded whether or
        not the host manages to apply it. */
    method Rename(target: Item, newName: string) returns (applied: Option<seq<FileEdit>>)
      modifies this
      ensures clipboardSource == old(clipboardSource) && isCut == old(isCut)
      ensures newName == "" ==> applied.None? && undoStack == old(undoStack)
      ensures newName != "" ==>
        var dest := Join(Dirname(target.path), newName);
        && Dirname(dest) == Dirname(target.path) && Basename(dest) == newName
        && applied == Some([RenameFile(target.path, dest, false)])
        && undoStack == old(undoStack) + [RenameRecord(target.path, dest)]
    {
      if newName == "" {
        return None;
      }
      var dest := Join(Dirname(target.path), newName);
      undoStack := undoStack + [RenameRecord(target.path, dest)];
      applied := Some([RenameFile(target.path, dest, false)]);
    }

    /** `deleteItem`: the workspace root is never deleted; nothing happens
        without confirmation; a file's bytes are read first (a path that
        is not a readable file aborts the command) and saved in the record
        so that undo can recreate it. */
    method Delete(fs: FileSystem, target: Item, confirmed: bool) returns (applied: Option<seq<FileEdit>>)
      modifies this
      ensures clipboardSource == old(clipboardSource) && isCut == old(isCut)
      ensures applied.Some? <==>
        rootPath != Some(target.path) && confirmed && (target.isDirectory || IsFile(fs, target.path))
      ensures applied.None? ==> undoStack == old(undoStack)
      ensures applied.Some? ==>
        && applied.value == [DeleteFile(target.path, true, true)]
        && undoStack == old(undoStack)
           + [DeleteRecord(target.path, if target.isDirectory then None else Some(fs[target.path].bytes))]
    {
      if rootPath == Some(target.path) || !confirmed {
        return None;
      }
      var content: Option<seq<byte>> := None;
      if !target.isDirectory {
        if !IsFile(fs, target.path) {
          return None;
        }
        content := Some(fs[target.path].bytes);
      }
      undoStack := undoStack + [DeleteRecord(target.path, content)];
      applied := Some([DeleteFile(target.path, true, true)]);
    }

    /** `undo`: pops the most recent record and returns the edit that
        reverses it; with nothing recorded, nothing happens. */
    method Undo() returns (applied: Option<seq<FileEdit>>)
      modifies this
      ensures clipboardSource == old(clipboardSource) && isCut == old(isCut)
      ensures old(undoStack) == [] ==> applied.None? && undoStack == []
      ensures old(undoStack) != [] ==>
        && undoStack == old(undoStack)[..|old(undoStack)| - 1]
        && applied == Some(Inverse(old(undoStack)[|old(undoStack)| - 1]))
    {
      if undoStack == [] {
        return None;
      }
      var op := undoStack[|undoStack| - 1];
      undoStack := undoStack[..|undoStack| - 1];
      applied := Some(Inverse(op));
    }
  }

  /** Deleting a readable file and then undoing gives back the creation of
      that path with the bytes it had, and leaves the undo stack as it was
      before the delete. */
  method DeleteThenUndo(session: Session, fs: FileSystem, target: Item)
      returns (deleted: Option<seq<FileEdit>>, restored: Option<seq<FileEdit>>)
    requires !target.isDirectory && IsFile(fs, target.path) && session.rootPath != Some(target.path)
    modifies session
    ensures deleted == Some([DeleteFile(target.path, true, true)])
    ensures restored == Some([CreateFile(target.path, Some(fs[target.path].bytes), false)])
    ensures session.undoStack == old(session.undoStack)
    ensures session.clipboardSource == old(session.clipboardSource) && session.isCut == old(session.isCut)
  {
    deleted := session.Delete(fs, target, true);
    restored := session.Undo();
  }
}
