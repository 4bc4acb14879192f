/** Workspace edits as recorded lists, and `buildCopyEdit`, which records
    one file creation for every file of a source tree. */
module CopyEdit {
  import opened FsModel

  /** One recorded change of a workspace edit; `InsertText` inserts at the
      start of the file. */
  datatype FileEdit =
    | CreateFile(path: Path, contents: Option<seq<byte>>, ignoreIfExists: bool)
    | DeleteFile(path: Path, recursive: bool, ignoreIfNotExists: bool)
    | RenameFile(path: Path, newPath: Path, overwrite: bool)
    | InsertText(path: Path, text: string)

  /** `vscode.WorkspaceEdit`: the changes recorded so far, in order. */
  class WorkspaceEdit {
    var edits: seq<FileEdit>

    constructor()
      ensures edits == []
    {
      edits := [];
    }

    method Add(e: FileEdit)
      modifies this
      ensures edits == old(edits) + [e]
    {
      edits := edits + [e];
    }
  }

  /** The creations `buildCopyEdit` records for the tree at `src` copied to
      `dst`: one per file, directories walked in listing order; `None` when
      a path it visits does not exist (`lstatSync` throws). */
  function CopyEdits(fs: FileSystem, src: Path, dst: Path): Option<seq<FileEdit>>
    decreases |Below(fs, src)|, 1
  {
    if src !in fs then None
    else match fs[src]
      case File(bytes) => Some([CreateFile(dst, Some(bytes), true)])
      case Dir(names) => CopyEntries(fs, src, dst, names)
  }

  /** The creations for the entries `names` of the directory `src`. */
  function CopyEntries(fs: FileSystem, src: Path, dst: Path, names: seq<string>): Option<seq<FileEdit>>
    decreases |Below(fs, src)|, 0, |names|
  {
    if names == [] then Some([])
    else
      var last := names[|names| - 1];
      match CopyEntries(fs, src, dst, names[..|names| - 1])
      case None => None
      case Some(before) =>
        if src + [last] !in fs then None
        else
          BelowShrinks(fs, src, last);
          match CopyEdits(fs, src + [last], dst + [last])
          case None => None
          case Some(these) => Some(before + these)
  }

  /** `buildCopyEdit`: appends the creations for the tree at `src` to `e`;
      `ok` is false when a visited path does not exist, and then the edit
      is abandoned. */
  method BuildCopyEdit(fs: FileSystem, src: Path, dst: Path, e: WorkspaceEdit) returns (ok: bool)
    modifies e
    ensures ok == CopyEdits(fs, src, dst).Some?
    ensures ok ==> e.edits == old(e.edits) + CopyEdits(fs, src, dst).value
    decreases |Below(fs, src)|
  {
    if src !in fs {
      return false;
    }
    match fs[src]
    case File(bytes) => {
      e.Add(CreateFile(dst, Some(bytes), true));
      return true;
    }
    case Dir(names) => {
      for i := 0 to |names|
        invariant CopyEntries(fs, src, dst, names[..i]).Some?
        invariant e.edits == old(e.edits) + CopyEntries(fs, src, dst, names[..i]).value
      {
        var item := names[i];
        assert names[..i + 1][..i] == names[..i];
        if src + [item] !in fs {
          CopyEntriesStops(fs, src, dst, names, i + 1);
          return false;
        }
        BelowShrinks(fs, src, item);
        var okItem := BuildCopyEdit(fs, src + [item], dst + [item], e);
        if !okItem {
          CopyEntriesStops(fs, src, dst, names, i + 1);
          return false;
        }
      }
      assert names[..|names|] == names;
      return true;
    }
  }

  /** Once a prefix of the entries fails, all of them fail. */
  lemma {:induction false} CopyEntriesStops(fs: FileSystem, src: Path, dst: Path, names: seq<string>, k: nat)
    requires k <= |names| && CopyEntries(fs, src, dst, names[..k]).None?
    ensures CopyEntries(fs, src, dst, names).None?
    decreases |names| - k
  {
    if k < |names| {
      assert names[..k + 1][..k] == names[..k];
      CopyEntriesStops(fs, src, dst, names, k + 1);
    } else {
      assert names[..k] == names;
    }
  }

  /** `e` recreates, below `dst`, the file at the same relative path below
      `src`, with its bytes, and leaves an existing file alone. */
  predicate CopyOf(fs: FileSystem, src: Path, dst: Path, e: FileEdit)
  {
    && e.CreateFile? && e.ignoreIfExists && IsPrefix(dst, e.path)
    && IsFile(fs, src + e.path[|dst|..]) && e.contents == Some(fs[src + e.path[|dst|..]].bytes)
  }

  lemma ChildCopyOf(fs: FileSystem, src: Path, dst: Path, n: string, e: FileEdit)
    requires CopyOf(fs, src + [n], dst + [n], e)
    ensures CopyOf(fs, src, dst, e) && |e.path| > |dst| && e.path[|dst|] == n
  {
    var d1 := dst + [n];
    assert e.path[..|dst|] == e.path[..|d1|][..|dst|];
    assert e.path[|dst|] == e.path[..|d1|][|dst|];
    assert e.path[|dst|..] == [n] + e.path[|d1|..];
    assert src + e.path[|dst|..] == (src + [n]) + e.path[|d1|..];
  }

  /** Every recorded edit is a non-overwriting creation of a copy of a file
      of the source tree at the same relative path below the destination. */
  lemma {:induction false} CopySound(fs: FileSystem, src: Path, dst: Path)
    ensures CopyEdits(fs, src, dst).Some? ==>
      forall e :: e in CopyEdits(fs, src, dst).value ==> CopyOf(fs, src, dst, e)
    decreases |Below(fs, src)|, 1
  {
    if src in fs {
      match fs[src]
      case File(bytes) =>
        assert src + dst[|dst|..] == src;
      case Dir(names) =>
        CopyEntriesSound(fs, src, dst, names);
    }
  }

  lemma {:induction false} CopyEntriesSound(fs: FileSystem, src: Path, dst: Path, names: seq<string>)
    ensures CopyEntries(fs, src, dst, names).Some? ==>
      forall e :: e in CopyEntries(fs, src, dst, names).value ==>
        CopyOf(fs, src, dst, e) && |e.path| > |dst| && e.path[|dst|] in names
    decreases |Below(fs, src)|, 0, |names|
  {
    if names != [] && CopyEntries(fs, src, dst, names).Some? {
      var last := names[|names| - 1];
      var init := names[..|names| - 1];
      CopyEntriesSound(fs, src, dst, init);
      BelowShrinks(fs, src, last);
      CopySound(fs, src + [last], dst + [last]);
      forall e | e in CopyEdits(fs, src + [last], dst + [last]).value
        ensures CopyOf(fs, src, dst, e) && |e.path| > |dst| && e.path[|dst|] == last
      {
        ChildCopyOf(fs, src, dst, last, e);
      }
      assert forall n :: n in init ==> n in names;
    }
  }

  /** In a consistent snapshot copying an existing path never fails. */
  lemma {:induction false} CopySucceeds(fs: FileSystem, src: Path, dst: Path)
    requires Valid(fs) && src in fs
    ensures CopyEdits(fs, src, dst).Some?
    decreases |Below(fs, src)|, 1
  {
    if fs[src].Dir? {
      CopyEntriesSucceeds(fs, src, dst, fs[src].names);
    }
  }

  lemma {:induction false} CopyEntriesSucceeds(fs: FileSystem, src: Path, dst: Path, names: seq<string>)
    requires Valid(fs) && IsDir(fs, src) && forall n :: n in names ==> n in fs[src].names
    ensures CopyEntries(fs, src, dst, names).Some?
    decreases |Below(fs, src)|, 0, |names|
  {
    if names != [] {
      var last := names[|names| - 1];
      CopyEntriesSucceeds(fs, src, dst, names[..|names| - 1]);
      ListedResolves(fs, src, last);
      BelowShrinks(fs, src, last);
      CopySucceeds(fs, src + [last], dst + [last]);
    }
  }

  /** The edits for one entry are among the edits for the whole listing. */
  lemma {:induction false} CopyEntriesIncludes(fs: FileSystem, src: Path, dst: Path, names: seq<string>, j: nat)
    requires j < |names| && CopyEntries(fs, src, dst, names).Some?
    ensures src + [names[j]] in fs && CopyEdits(fs, src + [names[j]], dst + [names[j]]).Some?
    ensures forall e :: e in CopyEdits(fs, src + [names[j]], dst + [names[j]]).value ==>
      e in CopyEntries(fs, src, dst, names).value
    decreases |names|
  {
    var init := names[..|names| - 1];
    if j < |names| - 1 {
      assert init[j] == names[j];
      CopyEntriesIncludes(fs, src, dst, init, j);
    }
  }

  /** Every file of the source tree is copied to its place below the
      destination. */
  lemma {:induction false} CopyComplete(fs: FileSystem, src: Path, dst: Path, q: Path)
    requires Valid(fs) && IsFile(fs, q) && IsPrefix(src, q)
    ensures CopyEdits(fs, src, dst).Some?
    ensures CreateFile(Reroot(src, dst, q), Some(fs[q].bytes), true) in CopyEdits(fs, src, dst).value
    decreases |Below(fs, src)|
  {
    AncestorExists(fs, src, q);
    CopySucceeds(fs, src, dst);
    if q == src {
      assert Reroot(src, dst, q) == dst;
    } else {
      AncestorIsDir(fs, src, q);
      var names := fs[src].names;
      var n := q[|src|];
      var j :| 0 <= j < |names| && names[j] == n;
      var c := src + [n];
      assert IsPrefix(c, q) by { assert q[..|c|] == q[..|src|] + [n]; }
      ListedResolves(fs, src, n);
      BelowShrinks(fs, src, n);
      CopyComplete(fs, c, dst + [n], q);
      assert q[|src|..] == [n] + q[|c|..];
      assert Reroot(c, dst + [n], q) == Reroot(src, dst, q);
      CopyEntriesIncludes(fs, src, dst, names, j);
    }
  }

  predicate DistinctPaths(edits: seq<FileEdit>)
  {
    forall i, j :: 0 <= i < j < |edits| ==> edits[i].path != edits[j].path
  }

  /** No two recorded creations target the same path: exactly one per file. */
  lemma {:induction false} CopyDistinct(fs: FileSystem, src: Path, dst: Path)
    requires Valid(fs)
    ensures CopyEdits(fs, src, dst).Some? ==> DistinctPaths(CopyEdits(fs, src, dst).value)
    decreases |Below(fs, src)|, 1
  {
    if IsDir(fs, src) {
      CopyEntriesDistinct(fs, src, dst, fs[src].names);
    }
  }

  lemma {:induction false} CopyEntriesDistinct(fs: FileSystem, src: Path, dst: Path, names: seq<string>)
    requires Valid(fs) && Distinct(names)
    ensures CopyEntries(fs, src, dst, names).Some? ==> DistinctPaths(CopyEntries(fs, src, dst, names).value)
    decreases |Below(fs, src)|, 0, |names|
  {
    if names != [] && CopyEntries(fs, src, dst, names).Some? {
      var last := names[|names| - 1];
      var init := names[..|names| - 1];
      var before := CopyEntries(fs, src, dst, init).value;
      BelowShrinks(fs, src, last);
      var these := CopyEdits(fs, src + [last], dst + [last]).value;
      CopyEntriesDistinct(fs, src, dst, init);
      CopyDistinct(fs, src + [last], dst + [last]);
      CopyEntriesSound(fs, src, dst, init);
      CopySound(fs, src + [last], dst + [last]);
      forall x, y | x in before && y in these ensures x.path != y.path {
        ChildCopyOf(fs, src, dst, last, y);
        var k :| 0 <= k < |init| && init[k] == x.path[|dst|];
        assert names[k] != names[|names| - 1];
      }
      DistinctAppend(before, these);
    }
  }

  lemma DistinctAppend(a: seq<FileEdit>, b: seq<FileEdit>)
    requires DistinctPaths(a) && DistinctPaths(b)
    requires forall x, y :: x in a && y in b ==> x.path != y.path
    ensures DistinctPaths(a + b)
  {
    forall i, j | 0 <= i < j < |a + b| ensures (a + b)[i].path != (a + b)[j].path {
      if j < |a| {
        assert (a + b)[i] == a[i] && (a + b)[j] == a[j];
      } else if i >= |a| {
        assert (a + b)[i] == b[i - |a|] && (a + b)[j] == b[j - |a|];
      } else {
        assert (a + b)[i] == a[i] && (a + b)[j] == b[j - |a|];
      }
    }
  }
}
