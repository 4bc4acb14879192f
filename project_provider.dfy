/** The explorer tree over a file-system snapshot: folding single-child
    directory chains into one dotted node, listing and ordering a node's
    children, walking back up to a node's parent, and the drag-and-drop
    move protocol. */
module ProjectTree {
  import opened FsModel
  import opened UriList

  // ---------------------------------------------------------------------
  // Directory chains

  /** The entries of `names` (listed in `d`) that are directories, in order. */
  function DirsAmong(fs: FileSystem, d: Path, names: seq<string>): (r: seq<string>)
    ensures forall n :: n in r <==> n in names && IsDir(fs, d + [n])
    ensures |r| <= |names|
  {
    if names == [] then []
    else (if IsDir(fs, d + [names[0]]) then [names[0]] else []) + DirsAmong(fs, d, names[1..])
  }

  /** The entries of `names` (listed in `d`) that are files, in order. */
  function FilesAmong(fs: FileSystem, d: Path, names: seq<string>): (r: seq<string>)
    ensures forall n :: n in r <==> n in names && IsFile(fs, d + [n])
    ensures |r| <= |names|
  {
    if names == [] then []
    else (if IsFile(fs, d + [names[0]]) then [names[0]] else []) + FilesAmong(fs, d, names[1..])
  }

  function SubDirs(fs: FileSystem, d: Path): seq<string>
  {
    DirsAmong(fs, d, Entries(fs, d))
  }

  function Files(fs: FileSystem, d: Path): seq<string>
  {
    FilesAmong(fs, d, Entries(fs, d))
  }

  /** A directory the tree folds into its only child: exactly one
      sub-directory and no files. */
  predicate Compactable(fs: FileSystem, d: Path)
  {
    IsDir(fs, d) && |SubDirs(fs, d)| == 1 && |Files(fs, d)| == 0
  }

  /** The segments of a folded label joined with dots. */
  function DotJoin(segs: seq<string>): string
    requires |segs| > 0
  {
    if |segs| == 1 then segs[0] else segs[0] + "." + DotJoin(segs[1..])
  }

  datatype Compacted = Compacted(path: Path, text: string)

  /** `t` is reached from `d` by repeatedly stepping into the only
      sub-directory of a single-child directory. */
  predicate ChainFrom(fs: FileSystem, d: Path, t: Path)
    decreases |t| - |d|
  {
    t == d
    || (IsPrefix(d, t) && |d| < |t| && Compactable(fs, d) && t[|d|] == SubDirs(fs, d)[0]
        && ChainFrom(fs, d + [t[|d|]], t))
  }

  /** `getCompactedFolder`: follows the chain of single-child directories
      from `d` down to the first directory that is not one. The result is
      that directory, reached from `d` by always taking the only
      sub-directory, and the label names every directory on the way. */
  function Compact(fs: FileSystem, d: Path): (r: Compacted)
    requires IsDir(fs, d)
    ensures ChainFrom(fs, d, r.path) && IsDir(fs, r.path) && !Compactable(fs, r.path)
    ensures r.text == DotJoin([Basename(d)] + r.path[|d|..])
    decreases |Below(fs, d)|
  {
    if Compactable(fs, d) then
      var sub := SubDirs(fs, d)[0];
      var c := d + [sub];
      BelowShrinks(fs, d, sub);
      var inner := Compact(fs, c);
      ChainExtend(fs, d, inner.path);
      Compacted(inner.path, Basename(d) + "." + inner.text)
    else
      Compacted(d, Basename(d))
  }

  /** A chain from the only sub-directory of a single-child directory is a
      chain from that directory, one segment longer in its label. */
  lemma ChainExtend(fs: FileSystem, d: Path, t: Path)
    requires Compactable(fs, d) && ChainFrom(fs, d + [SubDirs(fs, d)[0]], t)
    ensures ChainFrom(fs, d, t)
    ensures DotJoin([Basename(d)] + t[|d|..])
      == Basename(d) + "." + DotJoin([Basename(d + [SubDirs(fs, d)[0]])] + t[|d| + 1..])
  {
    var c := d + [SubDirs(fs, d)[0]];
    ChainStartsAt(fs, c, t);
    StepPrefix(d, SubDirs(fs, d)[0], t);
    DotJoinCons(Basename(d), [Basename(c)] + t[|c|..]);
  }

  /** A chain from `d` lies below `d`. */
  lemma ChainStartsAt(fs: FileSystem, d: Path, t: Path)
    requires ChainFrom(fs, d, t)
    ensures IsPrefix(d, t)
  {
  }

  /** A path below `d + [x]` continues `d` with `x`. */
  lemma StepPrefix(d: Path, x: string, t: Path)
    requires IsPrefix(d + [x], t)
    ensures IsPrefix(d, t) && |d| < |t| && t[|d|] == x
    ensures [x] + t[|d| + 1..] == t[|d|..]
  {
    var c := d + [x];
    assert t[..|d|] == t[..|c|][..|d|];
    assert t[|d|] == t[..|c|][|d|];
  }

  lemma DotJoinCons(x: string, rest: seq<string>)
    requires |rest| > 0
    ensures DotJoin([x] + rest) == x + "." + DotJoin(rest)
  {
    assert ([x] + rest)[1..] == rest;
  }

  /** The folded path is the only chain end that is not itself foldable:
      `Compact` agrees with this independent description of its result. */
  lemma {:induction false} CompactUnique(fs: FileSystem, d: Path, t: Path)
    requires IsDir(fs, d) && ChainFrom(fs, d, t) && !Compactable(fs, t)
    ensures Compact(fs, d).path == t
    decreases |t| - |d|
  {
    if t != d {
      var c := d + [t[|d|]];
      CompactUnique(fs, c, t);
    }
  }

  /** A directory folds to itself, under its own name, exactly when it is
      not a single-child directory. */
  lemma CompactFixedPoint(fs: FileSystem, d: Path)
    requires IsDir(fs, d)
    ensures Compact(fs, d) == Compacted(d, Basename(d)) <==> !Compactable(fs, d)
  {
    if Compactable(fs, d) {
      var c := d + [SubDirs(fs, d)[0]];
      assert Compact(fs, d).path == Compact(fs, c).path;
    }
  }

  /** Folding a folded directory again changes nothing. */
  lemma CompactIdempotent(fs: FileSystem, d: Path)
    requires IsDir(fs, d)
    ensures var p := Compact(fs, d).path; Compact(fs, p) == Compacted(p, Basename(p))
  {
    CompactFixedPoint(fs, Compact(fs, d).path);
  }

  // ---------------------------------------------------------------------
  // Tree items and their order

  /** `TreeItemCollapsibleState`; `Leaf` is its `None`. */
  datatype State = Leaf | Collapsed | Expanded

  /** A tree node (`ProjectItem`): its label, the path it stands for, its
      collapsible state, whether it is a directory and whether it is the
      workspace root. */
  datatype Item = Item(text: string, path: Path, state: State, isDirectory: bool, isRoot: bool)

  /** The single node shown for the workspace root. */
  function RootItem(root: Path): Item
  {
    Item(Basename(root), root, Expanded, true, true)
  }

  /** The node for the directory at `d`, folded and shown expanded. */
  function FolderItem(fs: FileSystem, d: Path): (r: Item)
    requires IsDir(fs, d)
    ensures r.isDirectory && !r.isRoot && r.state == Expanded
    ensures !Compactable(fs, d) ==> r.path == d && r.text == Basename(d)
  {
    CompactFixedPoint(fs, d);
    var c := Compact(fs, d);
    Item(c.text, c.path, Expanded, true, false)
  }

  /** The node listed for the entry `n` of directory `d`: a directory shows
      its folded chain and can be expanded exactly when the directory the
      chain ends in has entries; a file shows its own name and path. */
  function ChildItem(fs: FileSystem, d: Path, n: string): (r: Item)
    requires d + [n] in fs
    ensures r.isDirectory <==> IsDir(fs, d + [n])
    ensures !r.isRoot && r.state != Expanded
    ensures r.isDirectory ==> r.path == Compact(fs, d + [n]).path && r.text == Compact(fs, d + [n]).text
    ensures r.isDirectory ==> (r.state == Collapsed <==> |Entries(fs, r.path)| > 0)
    ensures !r.isDirectory ==> r.path == d + [n] && r.text == n && r.state == Leaf
  {
    var p := d + [n];
    if IsDir(fs, p) then
      var c := Compact(fs, p);
      Item(c.text, c.path, if |Entries(fs, c.path)| > 0 then Collapsed else Leaf, true, false)
    else
      Item(n, p, Leaf, false, false)
  }

  /** Every listed name of `d` exists. */
  predicate AllResolve(fs: FileSystem, d: Path, names: seq<string>)
  {
    forall i :: 0 <= i < |names| ==> d + [names[i]] in fs
  }

  /** One node per listed name, in listing order. */
  function ChildItems(fs: FileSystem, d: Path, names: seq<string>): (r: seq<Item>)
    requires AllResolve(fs, d, names)
    ensures |r| == |names| && forall i :: 0 <= i < |names| ==> r[i] == ChildItem(fs, d, names[i])
  {
    seq(|names|, i requires 0 <= i < |names| => ChildItem(fs, d, names[i]))
  }

  /** Code-unit order on labels; it stands in for `localeCompare`. */
  predicate LabelLeq(a: string, b: string)
  {
    a == [] || (b != [] && (a[0] < b[0] || (a[0] == b[0] && LabelLeq(a[1..], b[1..]))))
  }

  lemma {:induction false} LabelLeqTotal(a: string, b: string)
    ensures LabelLeq(a, b) || LabelLeq(b, a)
  {
    if a != [] && b != [] && a[0] == b[0] {
      LabelLeqTotal(a[1..], b[1..]);
    }
  }

  lemma {:induction false} LabelLeqTrans(a: string, b: string, c: string)
    requires LabelLeq(a, b) && LabelLeq(b, c)
    ensures LabelLeq(a, c)
  {
    if a != [] && b != [] && c != [] && a[0] == b[0] && b[0] == c[0] {
      LabelLeqTrans(a[1..], b[1..], c[1..]);
    }
  }

  /** The listing order: directories before files, then by label. */
  predicate ItemLeq(a: Item, b: Item)
  {
    (a.isDirectory && !b.isDirectory) || (a.isDirectory == b.isDirectory && LabelLeq(a.text, b.text))
  }

  lemma ItemLeqTotal(a: Item, b: Item)
    ensures ItemLeq(a, b) || ItemLeq(b, a)
  {
    LabelLeqTotal(a.text, b.text);
  }

  lemma ItemLeqTrans(a: Item, b: Item, c: Item)
    requires ItemLeq(a, b) && ItemLeq(b, c)
    ensures ItemLeq(a, c)
  {
    if a.isDirectory == b.isDirectory == c.isDirectory {
      LabelLeqTrans(a.text, b.text, c.text);
    }
  }

  predicate SortedItems(s: seq<Item>)
  {
    forall i, j :: 0 <= i < j < |s| ==> ItemLeq(s[i], s[j])
  }

  /** A sorted list stays sorted behind a head that precedes all of it. */
  lemma SortedCons(h: Item, s: seq<Item>, x: Item, rest: seq<Item>)
    requires SortedItems([h] + s) && ItemLeq(h, x)
    requires SortedItems(rest) && multiset(rest) == multiset(s) + multiset{x}
    ensures SortedItems([h] + rest)
  {
    forall j | 0 <= j < |rest| ensures ItemLeq(h, rest[j]) {
      assert rest[j] in multiset(rest);
      if rest[j] != x {
        assert rest[j] in multiset(s);
        var k :| 0 <= k < |s| && s[k] == rest[j];
        assert ([h] + s)[0] == h && ([h] + s)[k + 1] == s[k];
        assert ItemLeq(([h] + s)[0], ([h] + s)[k + 1]);
      }
    }
  }

  /** Places `x` after every node of `s` that does not follow it. */
  function InsertItem(x: Item, s: seq<Item>): (r: seq<Item>)
    requires SortedItems(s)
    ensures SortedItems(r) && multiset(r) == multiset(s) + multiset{x}
  {
    if s == [] then [x]
    else if ItemLeq(s[0], x) then
      var rest := InsertItem(x, s[1..]);
      SortedCons(s[0], s[1..], x, rest);
      assert s == [s[0]] + s[1..];
      [s[0]] + rest
    else
      SortedFront(x, s);
      [x] + s
  }

  /** A node that precedes the head of a sorted list precedes all of it. */
  lemma SortedFront(x: Item, s: seq<Item>)
    requires SortedItems(s) && s != [] && !ItemLeq(s[0], x)
    ensures SortedItems([x] + s)
  {
    ItemLeqTotal(s[0], x);
    forall j | 0 <= j < |s| ensures ItemLeq(x, s[j]) {
      if j > 0 { ItemLeqTrans(x, s[0], s[j]); }
    }
  }

  /** `Array.prototype.sort` with the listing comparator: a sorted
      rearrangement of `s`. */
  function SortItems(s: seq<Item>): (r: seq<Item>)
    ensures SortedItems(r) && multiset(r) == multiset(s)
  {
    if s == [] then []
    else
      assert s == s[..|s| - 1] + [s[|s| - 1]];
      InsertItem(s[|s| - 1], SortItems(s[..|s| - 1]))
  }

  // ---------------------------------------------------------------------
  // Walking up to the parent node

  /** The node `getParent` settles on once its upward walk reaches `p`:
      the root node at the workspace root, the folded node of the first
      directory that is not a single-child directory, and nothing once the
      walk leaves the workspace or reaches a path that cannot be listed. */
  function ParentFrom(fs: FileSystem, root: Path, p: Path): Option<Item>
    decreases |p|
  {
    if !IsPrefix(root, p) then None
    else if p == root then Some(RootItem(root))
    else if !IsDir(fs, p) then None
    else if !Compactable(fs, p) then Some(FolderItem(fs, p))
    else ParentFrom(fs, root, Dirname(p))
  }

  /** A node shown as a parent: the workspace root, or a directory the tree
      does not fold away. */
  predicate Boundary(fs: FileSystem, root: Path, a: Path)
  {
    IsPrefix(root, a) && (a == root || (IsDir(fs, a) && !Compactable(fs, a)))
  }

  /** The node shown for a boundary directory. */
  function BoundaryItem(fs: FileSystem, root: Path, a: Path): (r: Item)
    requires Boundary(fs, root, a)
    ensures r.path == a && r.isDirectory && r.state == Expanded
  {
    if a == root then RootItem(root) else FolderItem(fs, a)
  }

  /** The walk stops at the nearest boundary at or above `p`: every
      directory it passes on the way is a single-child directory. */
  lemma {:induction false} ParentFromNearest(fs: FileSystem, root: Path, p: Path)
    ensures ParentFrom(fs, root, p).Some? ==>
      var a := ParentFrom(fs, root, p).value.path;
      && Boundary(fs, root, a) && IsPrefix(a, p)
      && ParentFrom(fs, root, p).value == BoundaryItem(fs, root, a)
      && forall k :: |a| < k <= |p| ==> Compactable(fs, p[..k])
    decreases |p|
  {
    if IsPrefix(root, p) && p != root && Compactable(fs, p) {
      var q := Dirname(p);
      ParentFromSkips(fs, root, p);
      ParentFromNearest(fs, root, q);
      if ParentFrom(fs, root, q).Some? {
        NearestExtend(fs, ParentFrom(fs, root, q).value.path, p);
      }
    } else if IsPrefix(root, p) && p != root && IsDir(fs, p) {
      assert p[..|p|] == p;
    }
  }

  /** Below the root the walk passes a single-child directory by. */
  lemma ParentFromSkips(fs: FileSystem, root: Path, p: Path)
    requires IsPrefix(root, p) && p != root && Compactable(fs, p)
    ensures ParentFrom(fs, root, p) == ParentFrom(fs, root, Dirname(p))
  {
  }

  /** A run of single-child directories from `a` down to the parent of a
      single-child directory `p` reaches down to `p` itself. */
  lemma NearestExtend(fs: FileSystem, a: Path, p: Path)
    requires p != [] && Compactable(fs, p)
    requires IsPrefix(a, Dirname(p)) && forall k :: |a| < k <= |Dirname(p)| ==> Compactable(fs, Dirname(p)[..k])
    ensures IsPrefix(a, p) && forall k :: |a| < k <= |p| ==> Compactable(fs, p[..k])
  {
    var q := Dirname(p);
    assert p[..|a|] == q[..|a|];
    forall k | |a| < k <= |p| ensures Compactable(fs, p[..k]) {
      if k < |p| {
        assert p[..k] == q[..k];
      } else {
        assert p[..k] == p;
      }
    }
  }

  /** Stepping back up a folded chain from its end stays on the chain, on
      single-child directories. */
  lemma {:induction false} ChainUp(fs: FileSystem, c: Path, t: Path)
    requires ChainFrom(fs, c, t) && t != c
    ensures IsPrefix(c, Dirname(t)) && ChainFrom(fs, c, Dirname(t)) && Compactable(fs, Dirname(t))
    decreases |t| - |c|
  {
    var c1 := c + [t[|c|]];
    if t == c1 {
      assert Dirname(t) == c;
    } else {
      ChainUp(fs, c1, t);
      ChainPrepend(fs, c, Dirname(t));
    }
  }

  /** A chain from the only sub-directory of a single-child directory `c`
      is a chain from `c`. */
  lemma ChainPrepend(fs: FileSystem, c: Path, q: Path)
    requires Compactable(fs, c) && IsPrefix(c + [SubDirs(fs, c)[0]], q)
    requires ChainFrom(fs, c + [SubDirs(fs, c)[0]], q)
    ensures IsPrefix(c, q) && ChainFrom(fs, c, q)
  {
    StepPrefix(c, SubDirs(fs, c)[0], q);
  }

  lemma {:induction false} WalkUpChain(fs: FileSystem, root: Path, a: Path, c: Path, t: Path)
    requires Boundary(fs, root, a) && |c| == |a| + 1 && IsPrefix(a, c) && ChainFrom(fs, c, t)
    ensures ParentFrom(fs, root, Dirname(t)) == Some(BoundaryItem(fs, root, a))
    decreases |t| - |c|
  {
    if t == c {
      assert Dirname(t) == a;
    } else {
      ChainUp(fs, c, t);
      var q := Dirname(t);
      PrefixTrans(a, c, q);
      PrefixTrans(root, a, q);
      ParentFromSkips(fs, root, q);
      WalkUpChain(fs, root, a, c, q);
    }
  }

  /** `getParent` undoes `getChildren`: the parent of any node listed under
      a boundary directory is that directory's own node. */
  lemma ParentOfChild(fs: FileSystem, root: Path, a: Path, n: string)
    requires Boundary(fs, root, a) && a + [n] in fs
    ensures ParentFrom(fs, root, Dirname(ChildItem(fs, a, n).path)) == Some(BoundaryItem(fs, root, a))
  {
    var c := a + [n];
    if IsDir(fs, c) {
      WalkUpChain(fs, root, a, c, Compact(fs, c).path);
    } else {
      assert Dirname(c) == a;
    }
  }

  // ---------------------------------------------------------------------
  // Drag and drop

  /** The payload of a drag: the dragged nodes' paths under the tree's own
      MIME type, and a `text/uri-list` text. */
  datatype Transfer = Transfer(internal: Option<seq<Path>>, uriList: Option<string>)

  function Paths(items: seq<Item>): (r: seq<Path>)
    ensures |r| == |items| && forall i :: 0 <= i < |items| ==> r[i] == items[i].path
  {
    seq(|items|, i requires 0 <= i < |items| => items[i].path)
  }

  /** `handleDrag`: the dragged nodes go under the internal MIME type at
      once; the uri-list is written only when the drag was not cancelled
      in between. */
  function Drag(t: Transfer, items: seq<Item>, cancelled: bool): Transfer
  {
    Transfer(Some(Paths(items)), if cancelled then t.uriList else Some(DragUriList(Paths(items))))
  }

  /** The sources `handleDrop` moves: the internal payload when it holds
      any node, otherwise the `file` paths of the uri-list. */
  function DropSources(t: Transfer): seq<Path>
  {
    if t.internal.Some? && |t.internal.value| > 0 then t.internal.value
    else if t.uriList.Some? then UriListSources(t.uriList.value)
    else []
  }

  /** A drop sees the dragged paths: from the internal payload when the
      drag came from this tree, and, for plain paths, from the uri-list
      alone when only that reaches the drop. */
  lemma DragThenDrop(t: Transfer, items: seq<Item>)
    requires forall i :: 0 <= i < |items| ==> PlainPath(items[i].path)
    ensures DropSources(Drag(t, items, false)) == Paths(items)
    ensures DropSources(Transfer(None, Drag(t, items, false).uriList)) == Paths(items)
  {
    DragDropRoundTrip(Paths(items));
  }

  /** The nodes go on the payload before the cancellation check: a
      cancelled drag of at least one node leaves the uri-list as it was
      and a drop still reads the nodes. */
  lemma CancelledDragStillDrops(t: Transfer, items: seq<Item>)
    requires |items| > 0
    ensures Drag(t, items, true).uriList == t.uriList
    ensures DropSources(Drag(t, items, true)) == Paths(items)
  {
  }

  /** While the internal payload holds a node, the uri-list is ignored. */
  lemma InternalPayloadWins(t: Transfer, u: Option<string>)
    requires t.internal.Some? && |t.internal.value| > 0
    ensures DropSources(t.(uriList := u)) == DropSources(t) == t.internal.value
  {
  }

  /** The directory a drop moves into: the workspace root without a target,
      the target directory, or the directory holding a target file. */
  function DropTarget(root: Option<Path>, target: Option<Item>): (r: Option<Path>)
    ensures target.None? ==> r == root
    ensures target.Some? ==> r.Some? && (target.value.isDirectory ==> r.value == target.value.path)
    ensures target.Some? && !target.value.isDirectory ==> r.value == Dirname(target.value.path)
  {
    match target
    case None => root
    case Some(it) => Some(if it.isDirectory then it.path else Dirname(it.path))
  }

  /** `moveFile`: nothing happens when source and destination coincide,
      when the destination exists, or when the rename fails; otherwise the
      source is renamed to the destination. */
  function MoveStep(fs: FileSystem, src: Path, dst: Path): (r: FileSystem)
    ensures src == dst || dst in fs || !CanRename(fs, src, dst) ==> r == fs
  {
    if src == dst || dst in fs || !CanRename(fs, src, dst) then fs else Renamed(fs, src, dst)
  }

  lemma MoveStepValid(fs: FileSystem, src: Path, dst: Path)
    requires Valid(fs)
    ensures Valid(MoveStep(fs, src, dst))
  {
    if MoveStep(fs, src, dst) != fs {
      RenamedValid(fs, src, dst);
    }
  }

  /** A move happens exactly when the rename is allowed, and then the
      source is gone, the destination holds the source's node and the
      snapshot is the renamed one. */
  lemma MoveStepMoves(fs: FileSystem, src: Path, dst: Path)
    requires Valid(fs)
    ensures MoveStep(fs, src, dst) != fs <==> CanRename(fs, src, dst)
    ensures CanRename(fs, src, dst) ==>
      var r := MoveStep(fs, src, dst);
      r == Renamed(fs, src, dst) && src !in r && dst in r && r[dst] == fs[src]
  {
    if CanRename(fs, src, dst) {
      assert src != dst && dst !in fs;
      DestinationExists(fs, src, dst);
      RenamedMoves(fs, src, dst);
      assert IsPrefix(src, src) && Reroot(src, dst, src) == dst;
    }
  }

  /** A move never overwrites: whatever exists outside the moved subtree
      keeps its node (its listing too unless it is one of the two touched
      directories), and the moved subtree reappears under the destination. */
  lemma MoveStepKeeps(fs: FileSystem, src: Path, dst: Path)
    requires Valid(fs)
    ensures forall q :: q in fs && !IsPrefix(src, q) && q != Dirname(src) && q != Dirname(dst) ==>
      q in MoveStep(fs, src, dst) && MoveStep(fs, src, dst)[q] == fs[q]
    ensures MoveStep(fs, src, dst) != fs ==>
      dst !in fs && forall q :: q in fs && IsPrefix(src, q) ==>
        var q' := Reroot(src, dst, q);
        q' in MoveStep(fs, src, dst) && MoveStep(fs, src, dst)[q'] == fs[q]
  {
    if MoveStep(fs, src, dst) != fs {
      RenamedMoves(fs, src, dst);
    }
  }

  /** The snapshot after moving every source into `target`, one after the
      other. */
  function DropAll(fs: FileSystem, target: Path, sources: seq<Path>): FileSystem
    decreases |sources|
  {
    if sources == [] then fs
    else DropAll(MoveStep(fs, sources[0], Join(target, Basename(sources[0]))), target, sources[1..])
  }

  /** Dropping a list is dropping its first part and then the rest. */
  lemma {:induction false} DropAllAppend(fs: FileSystem, target: Path, a: seq<Path>, b: seq<Path>)
    ensures DropAll(fs, target, a + b) == DropAll(DropAll(fs, target, a), target, b)
    decreases |a|
  {
    if a == [] {
      assert a + b == b;
    } else {
      assert (a + b)[0] == a[0] && (a + b)[1..] == a[1..] + b;
      DropAllAppend(MoveStep(fs, a[0], Join(target, Basename(a[0]))), target, a[1..], b);
    }
  }

  /** Dropping one more source is one more move. */
  lemma DropAllSnoc(fs: FileSystem, target: Path, a: seq<Path>, x: Path)
    ensures DropAll(fs, target, a + [x]) == MoveStep(DropAll(fs, target, a), x, Join(target, Basename(x)))
  {
    DropAllAppend(fs, target, a, [x]);
    var before := DropAll(fs, target, a);
    assert DropAll(before, target, [x]) == DropAll(MoveStep(before, x, Join(target, Basename(x))), target, []);
  }

  /** Dropping the first `i + 1` sources is dropping the first `i` and
      then moving the next one. */
  lemma DropAllPrefix(fs: FileSystem, target: Path, sources: seq<Path>, i: nat)
    requires i < |sources|
    ensures DropAll(fs, target, sources[..i + 1])
      == MoveStep(DropAll(fs, target, sources[..i]), sources[i], Join(target, Basename(sources[i])))
  {
    TakeSnoc(sources, i);
    DropAllSnoc(fs, target, sources[..i], sources[i]);
  }

  lemma TakeSnoc(s: seq<Path>, i: nat)
    requires i < |s|
    ensures s[..i + 1] == s[..i] + [s[i]]
  {
  }

  lemma DropAllWhole(fs: FileSystem, target: Path, sources: seq<Path>)
    ensures DropAll(fs, target, sources[..|sources|]) == DropAll(fs, target, sources)
  {
    assert sources[..|sources|] == sources;
  }

  /** Items are moved independently: one that cannot be moved changes
      nothing and the others are moved as if it had not been dropped. */
  lemma DropSkipsFailed(fs: FileSystem, target: Path, a: seq<Path>, x: Path, b: seq<Path>)
    requires var before := DropAll(fs, target, a);
      MoveStep(before, x, Join(target, Basename(x))) == before
    ensures DropAll(fs, target, a + [x] + b) == DropAll(fs, target, a + b)
  {
    DropAllAppend(fs, target, a + [x], b);
    DropAllAppend(fs, target, a, [x]);
    DropAllAppend(fs, target, a, b);
  }

  /** A drop keeps the snapshot consistent. */
  lemma {:induction false} DropAllValid(fs: FileSystem, target: Path, sources: seq<Path>)
    requires Valid(fs)
    ensures Valid(DropAll(fs, target, sources))
    decreases |sources|
  {
    if sources != [] {
      var dst := Join(target, Basename(sources[0]));
      MoveStepValid(fs, sources[0], dst);
      DropAllValid(MoveStep(fs, sources[0], dst), target, sources[1..]);
    }
  }

  // ---------------------------------------------------------------------
  // The provider

  /** The result of `getChildren`: the listed nodes, or a failure when the
      node cannot be listed. */
  datatype Listing = Items(items: seq<Item>) | Failed

  class ProjectProvider {
    /** The file system the tree shows; `moveFile` changes it. */
    var fs: FileSystem
    /** The workspace folder; `None` when no folder is open. */
    const workspaceRoot: Option<Path>

    constructor(root: Option<Path>, snapshot: FileSystem)
      ensures workspaceRoot == root && fs == snapshot
    {
      workspaceRoot := root;
      fs := snapshot;
    }

    /** `getChildren`: the root node at the top; below it one node per
        entry, sorted with directories first and then by label. */
    method GetChildren(element: Option<Item>) returns (r: Listing)
      ensures workspaceRoot.None? ==> r == Items([])
      ensures workspaceRoot.Some? && element.None? ==> r == Items([RootItem(workspaceRoot.value)])
      ensures workspaceRoot.Some? && element.Some? ==>
        var d := element.value.path;
        && (d !in fs ==> r == Items([]))
        && (IsFile(fs, d) ==> r == Failed)
        && (IsDir(fs, d) ==>
              (r.Failed? <==> !AllResolve(fs, d, fs[d].names))
              && (r.Items? ==> SortedItems(r.items) && multiset(r.items) == multiset(ChildItems(fs, d, fs[d].names))))
    {
      if workspaceRoot.None? {
        return Items([]);
      }
      if element.None? {
        return Items([RootItem(workspaceRoot.value)]);
      }
      var d := element.value.path;
      if d !in fs {
        return Items([]);
      }
      if !IsDir(fs, d) {
        return Failed;
      }
      var names := fs[d].names;
      var result: seq<Item> := [];
      for i := 0 to |names|
        invariant AllResolve(fs, d, names[..i])
        invariant result == ChildItems(fs, d, names[..i])
      {
        if d + [names[i]] !in fs {
          return Failed;
        }
        assert names[..i + 1] == names[..i] + [names[i]];
        result := result + [ChildItem(fs, d, names[i])];
      }
      assert names[..|names|] == names;
      return Items(SortItems(result));
    }

    /** `getParent`: nothing for the root or without a workspace; otherwise
        the walk up from the node's directory. */
    method GetParent(element: Item) returns (r: Option<Item>)
      ensures workspaceRoot.None? || element.path == workspaceRoot.value ==> r == None
      ensures workspaceRoot.Some? && element.path != workspaceRoot.value ==>
        r == ParentFrom(fs, workspaceRoot.value, Dirname(element.path))
    {
      if workspaceRoot.None? || element.path == workspaceRoot.value {
        return None;
      }
      var root := workspaceRoot.value;
      var p := Dirname(element.path);
      while IsPrefix(root, p)
        invariant ParentFrom(fs, root, p) == ParentFrom(fs, root, Dirname(element.path))
        decreases |p|
      {
        if p == root {
          return Some(RootItem(root));
        }
        if !IsDir(fs, p) {
          break;
        }
        if |SubDirs(fs, p)| != 1 || |Files(fs, p)| > 0 {
          return Some(FolderItem(fs, p));
        }
        p := Dirname(p);
      }
      return None;
    }

    /** `moveFile`. */
    method MoveFile(src: Path, dst: Path)
      modifies this
      ensures fs == MoveStep(old(fs), src, dst)
    {
      if src == dst {
        return;
      }
      if dst in fs {
        return;
      }
      if CanRename(fs, src, dst) {
        fs := Renamed(fs, src, dst);
      }
    }

    /** `handleDrop`: a cancelled drop changes nothing; otherwise every
        source is moved into the drop target in turn. */
    method HandleDrop(target: Option<Item>, t: Transfer, cancelled: bool)
      modifies this
      ensures cancelled || DropTarget(workspaceRoot, target).None? ==> fs == old(fs)
      ensures !cancelled && DropTarget(workspaceRoot, target).Some? ==>
        fs == DropAll(old(fs), DropTarget(workspaceRoot, target).value, DropSources(t))
      ensures Valid(old(fs)) ==> Valid(fs)
    {
      if cancelled {
        return;
      }
      var targetPath := DropTarget(workspaceRoot, target);
      if targetPath.None? {
        return;
      }
      ghost var fs0 := fs;
      MoveAll(targetPath.value, DropSources(t));
      if Valid(fs0) {
        DropAllValid(fs0, targetPath.value, DropSources(t));
      }
    }

    /** The loop of `handleDrop`: each source is moved into `target` under
        its own name, one after the other. */
    method MoveAll(target: Path, sources: seq<Path>)
      modifies this
      ensures fs == DropAll(old(fs), target, sources)
    {
      ghost var fs0 := fs;
      for i := 0 to |sources|
        invariant fs == DropAll(fs0, target, sources[..i])
      {
        DropAllPrefix(fs0, target, sources, i);
        MoveFile(sources[i], Join(target, Basename(sources[i])));
      }
      DropAllWhole(fs0, target, sources);
    }
  }
}
