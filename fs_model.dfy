/** Paths and file-system snapshots shared by the tree provider and the
    explorer commands. A path is the sequence of its segments (`[]` is the
    file-system root `/`); a snapshot maps every existing path to what is
    there: a directory with its entry names in listing order, or a file with
    its bytes. */
module FsModel {

  type Path = seq<string>

  newtype byte = x: int | 0 <= x < 256

  datatype Node = Dir(names: seq<string>) | File(bytes: seq<byte>)

  type FileSystem = map<Path, Node>

  datatype Option<T> = None | Some(value: T)

  /** `path.join(dir, name)`: joining the empty name yields the directory itself. */
  function Join(dir: Path, name: string): (r: Path)
    ensures name != "" ==> Dirname(r) == dir && Basename(r) == name
    ensures name == "" ==> r == dir
  {
    if name == "" then dir else dir + [name]
  }

  /** `path.basename`: the last segment, "" for the root. */
  function Basename(p: Path): string
  {
    if p == [] then "" else p[|p| - 1]
  }

  /** `path.dirname`: drops the last segment; the root is its own dirname. */
  function Dirname(p: Path): (r: Path)
    ensures p != [] ==> r + [Basename(p)] == p
    ensures |r| == if p == [] then 0 else |p| - 1
  {
    if p == [] then [] else p[..|p| - 1]
  }

  /** `a` is `b` or one of its ancestors. */
  predicate IsPrefix(a: Path, b: Path)
  {
    |a| <= |b| && b[..|a|] == a
  }

  predicate IsDir(fs: FileSystem, p: Path)
  {
    p in fs && fs[p].Dir?
  }

  predicate IsFile(fs: FileSystem, p: Path)
  {
    p in fs && fs[p].File?
  }

  /** `readdirSync`: the entry names of a directory, in listing order. */
  function Entries(fs: FileSystem, d: Path): seq<string>
  {
    if IsDir(fs, d) then fs[d].names else []
  }

  predicate Distinct(s: seq<string>)
  {
    forall i, j :: 0 <= i < j < |s| ==> s[i] != s[j]
  }

  /** A consistent snapshot, as a real file system always is: every listed
      name exists, no directory lists a name twice, and every path other
      than the root sits in a directory that lists it. */
  ghost predicate Valid(fs: FileSystem)
  {
    && (forall p, i :: IsDir(fs, p) && 0 <= i < |fs[p].names| ==> p + [fs[p].names[i]] in fs)
    && (forall p :: IsDir(fs, p) ==> Distinct(fs[p].names))
    && (forall d, n {:trigger d + [n] in fs} :: d + [n] in fs ==> IsDir(fs, d) && n in fs[d].names)
  }

  lemma {:induction false} SubsetCard<T>(a: set<T>, b: set<T>)
    requires a <= b
    ensures |a| <= |b|
    decreases a
  {
    if a != {} {
      var x :| x in a;
      SubsetCard(a - {x}, b - {x});
    }
  }

  /** The existing paths strictly below `p`: a measure that shrinks on every
      step down into an existing entry. */
  function Below(fs: FileSystem, p: Path): set<Path>
  {
    set q | q in fs && |p| < |q| && q[..|p|] == p
  }

  lemma BelowShrinks(fs: FileSystem, p: Path, n: string)
    requires p + [n] in fs
    ensures |Below(fs, p + [n])| < |Below(fs, p)|
  {
    var c := p + [n];
    assert Below(fs, c) <= Below(fs, p) - {c} by {
      forall q | q in Below(fs, c) ensures q in Below(fs, p) {
        assert q[..|p|] == q[..|c|][..|p|];
      }
    }
    assert c[..|p|] == p;
    SubsetCard(Below(fs, c), Below(fs, p) - {c});
  }

  /** In a consistent snapshot every proper ancestor of an existing path is
      an existing directory that lists the next segment. */
  lemma {:induction false} AncestorIsDir(fs: FileSystem, a: Path, q: Path)
    requires Valid(fs) && q in fs && IsPrefix(a, q) && a != q
    ensures IsDir(fs, a) && q[|a|] in fs[a].names
    decreases |q| - |a|
  {
    var d := Dirname(q);
    assert d + [Basename(q)] in fs;
    if d == a {
      assert q[|a|] == Basename(q);
    } else {
      assert IsPrefix(a, d) by { assert d[..|a|] == q[..|a|]; }
      assert q[|a|] == d[|a|];
      AncestorIsDir(fs, a, d);
    }
  }

  lemma AncestorExists(fs: FileSystem, a: Path, q: Path)
    requires Valid(fs) && q in fs && IsPrefix(a, q)
    ensures a in fs
  {
    if a != q {
      AncestorIsDir(fs, a, q);
    }
  }

  /** A name list without `n`. */
  function Without(names: seq<string>, n: string): (r: seq<string>)
    ensures forall x :: x in r <==> x in names && x != n
    ensures Distinct(names) ==> Distinct(r)
  {
    if names == [] then []
    else if names[0] == n then Without(names[1..], n)
    else
      var rest := Without(names[1..], n);
      assert Distinct(names) ==> Distinct([names[0]] + rest) by {
        if Distinct(names) {
          assert Distinct(names[1..]);
          assert names[0] !in names[1..];
          assert names[0] !in rest;
        }
      }
      [names[0]] + rest
  }

  /** The path a rename from `src` to `dst` gives to `q`, a path at or below `src`. */
  function Reroot(src: Path, dst: Path, q: Path): (r: Path)
    requires IsPrefix(src, q)
    ensures IsPrefix(dst, r) && src + r[|dst|..] == q && |r| == |dst| + |q| - |src|
  {
    dst + q[|src|..]
  }

  /** Whether `renameSync(src, dst)` can succeed once `dst` is known to be
      free: the source exists, neither path is the root, the destination's
      directory exists, and the source is not moved into itself. */
  predicate CanRename(fs: FileSystem, src: Path, dst: Path)
  {
    src in fs && src != [] && dst != [] && dst !in fs
    && IsDir(fs, Dirname(dst)) && !IsPrefix(src, dst)
  }

  /** The paths the subtree at `src` occupies once re-rooted at `dst`. */
  function MovedKeys(fs: FileSystem, src: Path, dst: Path): (r: set<Path>)
    ensures forall k :: k in r ==> IsPrefix(dst, k) && src + k[|dst|..] in fs
    ensures forall q :: q in fs && IsPrefix(src, q) ==> Reroot(src, dst, q) in r
  {
    set q | q in fs && IsPrefix(src, q) :: Reroot(src, dst, q)
  }

  /** The subtree at `src` re-rooted at `dst`, everything else left in place
      (a path that exists at both ends takes the moved node). */
  function Relocated(fs: FileSystem, src: Path, dst: Path): (m: FileSystem)
    ensures forall q :: q in fs && IsPrefix(src, q) ==> Reroot(src, dst, q) in m && m[Reroot(src, dst, q)] == fs[q]
    ensures forall q :: q in fs && !IsPrefix(src, q) && !IsPrefix(dst, q) ==> q in m && m[q] == fs[q]
    ensures forall q :: q in m ==> (q in fs && !IsPrefix(src, q)) || (IsPrefix(dst, q) && src + q[|dst|..] in fs)
  {
    var kept := map q | q in fs && !IsPrefix(src, q) :: fs[q];
    var moved := map k | k in MovedKeys(fs, src, dst) :: fs[src + k[|dst|..]];
    kept + moved
  }

  /** The snapshot after `renameSync(src, dst)`: the subtree at `src` now
      sits at `dst`, the source's directory no longer lists it and the
      destination's directory lists it last. */
  function Renamed(fs: FileSystem, src: Path, dst: Path): FileSystem
  {
    var m := Relocated(fs, src, dst);
    var m1 := if IsDir(m, Dirname(src)) then m[Dirname(src) := Dir(Without(m[Dirname(src)].names, Basename(src)))] else m;
    if IsDir(m1, Dirname(dst)) then m1[Dirname(dst) := Dir(m1[Dirname(dst)].names + [Basename(dst)])] else m1
  }

  /** Nothing exists below a path that does not exist. */
  lemma NothingBelowMissing(fs: FileSystem, d: Path, q: Path)
    requires Valid(fs) && d !in fs && q in fs
    ensures !IsPrefix(d, q)
  {
    if IsPrefix(d, q) {
      AncestorExists(fs, d, q);
    }
  }

  lemma PrefixTrans(a: Path, b: Path, c: Path)
    requires IsPrefix(a, b) && IsPrefix(b, c)
    ensures IsPrefix(a, c)
  {
    assert c[..|a|] == c[..|b|][..|a|];
  }

  /** The two directories a rename touches exist before it and are not
      inside the moved subtree or below the destination. */
  lemma RenameParents(fs: FileSystem, src: Path, dst: Path)
    requires Valid(fs) && CanRename(fs, src, dst)
    ensures var m := Relocated(fs, src, dst);
      && IsDir(fs, Dirname(src)) && Dirname(src) in m && Dirname(dst) in m
      && m[Dirname(src)] == fs[Dirname(src)] && m[Dirname(dst)] == fs[Dirname(dst)]
      && !IsPrefix(src, Dirname(dst)) && !IsPrefix(dst, Dirname(src)) && Basename(src) in fs[Dirname(src)].names
  {
    var ps, pd := Dirname(src), Dirname(dst);
    assert ps + [Basename(src)] in fs;
    NothingBelowMissing(fs, dst, ps);
    NothingBelowMissing(fs, dst, pd);
    assert IsPrefix(pd, dst);
    assert IsPrefix(src, pd) ==> IsPrefix(src, dst) by {
      if IsPrefix(src, pd) { PrefixTrans(src, pd, dst); }
    }
  }

  /** Removing a name from one directory listing and appending a name to
      another touches only those two entries. */
  lemma ListingUpdate(m: FileSystem, ps: Path, pd: Path, bs: string, bd: string)
    requires IsDir(m, ps) && IsDir(m, pd)
    ensures var m1 := m[ps := Dir(Without(m[ps].names, bs))];
      var r := m1[pd := Dir(m1[pd].names + [bd])];
      && r.Keys == m.Keys
      && (forall q :: q in m && q != ps && q != pd ==> r[q] == m[q])
      && IsDir(r, ps) && IsDir(r, pd)
      && (ps != pd ==> r[ps].names == Without(m[ps].names, bs))
      && r[pd].names == (if ps == pd then Without(m[pd].names, bs) else m[pd].names) + [bd]
  {
  }

  /** A rename changes the listings of the source's and the destination's
      directories and nothing else beyond the relocation itself. */
  lemma RenamedShape(fs: FileSystem, src: Path, dst: Path)
    requires Valid(fs) && CanRename(fs, src, dst)
    ensures var r := Renamed(fs, src, dst);
      var m := Relocated(fs, src, dst);
      && r.Keys == m.Keys
      && (forall q :: q in m && q != Dirname(src) && q != Dirname(dst) ==> r[q] == m[q])
      && IsDir(r, Dirname(src)) && IsDir(r, Dirname(dst))
      && (Dirname(src) != Dirname(dst) ==> r[Dirname(src)].names == Without(fs[Dirname(src)].names, Basename(src)))
      && r[Dirname(dst)].names
         == (if Dirname(src) == Dirname(dst) then Without(fs[Dirname(dst)].names, Basename(src)) else fs[Dirname(dst)].names)
            + [Basename(dst)]
  {
    RenameParents(fs, src, dst);
    var m := Relocated(fs, src, dst);
    var ps, pd := Dirname(src), Dirname(dst);
    assert IsDir(m, ps) && IsDir(m, pd);
    var m1 := m[ps := Dir(Without(m[ps].names, Basename(src)))];
    assert IsDir(m1, pd);
    assert Renamed(fs, src, dst) == m1[pd := Dir(m1[pd].names + [Basename(dst)])];
    ListingUpdate(m, ps, pd, Basename(src), Basename(dst));
  }

  lemma PrefixesOfOne(a: Path, b: Path, q: Path)
    requires IsPrefix(a, q) && IsPrefix(b, q)
    ensures IsPrefix(a, b) || IsPrefix(b, a)
  {
    if |a| <= |b| {
      assert b[..|a|] == q[..|b|][..|a|];
    } else {
      assert a[..|b|] == q[..|a|][..|b|];
    }
  }

  /** What a successful rename does: the subtree at `src` reappears at `dst`
      node for node, nothing remains at or below `src`, every other existing
      path outside the two touched directories keeps its node, and no path
      appears from nowhere. */
  lemma RenamedMoves(fs: FileSystem, src: Path, dst: Path)
    requires Valid(fs) && CanRename(fs, src, dst)
    ensures var r := Renamed(fs, src, dst);
      && (forall q :: q in fs && IsPrefix(src, q) ==> Reroot(src, dst, q) in r && r[Reroot(src, dst, q)] == fs[q])
      && (forall q :: IsPrefix(src, q) ==> q !in r)
      && (forall q :: q in fs && !IsPrefix(src, q) && q != Dirname(src) && q != Dirname(dst) ==> q in r && r[q] == fs[q])
      && (forall q :: q in r ==> (q in fs && !IsPrefix(src, q)) || (IsPrefix(dst, q) && src + q[|dst|..] in fs))
  {
    var r := Renamed(fs, src, dst);
    var m := Relocated(fs, src, dst);
    RenameParents(fs, src, dst);
    RenamedShape(fs, src, dst);
    NothingBelowMissing(fs, dst, Dirname(src));
    NothingBelowMissing(fs, dst, Dirname(dst));
    forall q | q in fs && IsPrefix(src, q)
      ensures Reroot(src, dst, q) in r && r[Reroot(src, dst, q)] == fs[q]
    {
      var t := Reroot(src, dst, q);
      assert t != Dirname(src) && t != Dirname(dst);
    }
    forall q | IsPrefix(src, q) ensures q !in r {
      if q in r {
        if IsPrefix(dst, q) {
          PrefixesOfOne(src, dst, q);
          if IsPrefix(dst, src) {
            NothingBelowMissing(fs, dst, src);
          }
        }
      }
    }
    forall q | q in fs && !IsPrefix(src, q) && q != Dirname(src) && q != Dirname(dst)
      ensures q in r && r[q] == fs[q]
    {
      NothingBelowMissing(fs, dst, q);
    }
  }

  lemma RerootAppend(src: Path, dst: Path, q: Path, n: string)
    requires IsPrefix(src, q)
    ensures IsPrefix(src, q + [n]) && Reroot(src, dst, q + [n]) == Reroot(src, dst, q) + [n]
  {
    assert (q + [n])[..|src|] == q[..|src|];
    assert (q + [n])[|src|..] == q[|src|..] + [n];
  }

  /** In a consistent snapshot a listed name exists. */
  lemma ListedResolves(fs: FileSystem, p: Path, n: string)
    requires Valid(fs) && IsDir(fs, p) && n in fs[p].names
    ensures p + [n] in fs
  {
    var i :| 0 <= i < |fs[p].names| && fs[p].names[i] == n;
  }

  lemma PrefixOfExtension(a: Path, p: Path, n: string)
    ensures IsPrefix(a, p + [n]) ==> a == p + [n] || IsPrefix(a, p)
  {
    if IsPrefix(a, p + [n]) && a != p + [n] {
      assert a == (p + [n])[..|a|] == p[..|a|];
    }
  }

  /** Every existing path outside the moved subtree survives a rename. */
  lemma RenamedKeeps(fs: FileSystem, src: Path, dst: Path, q: Path)
    requires Valid(fs) && CanRename(fs, src, dst)
    requires q in fs && !IsPrefix(src, q)
    ensures q in Renamed(fs, src, dst)
  {
    NothingBelowMissing(fs, dst, q);
    assert q in Relocated(fs, src, dst);
  }

  /** After a rename the destination exists. */
  lemma DestinationExists(fs: FileSystem, src: Path, dst: Path)
    requires CanRename(fs, src, dst)
    ensures dst in Renamed(fs, src, dst)
  {
    assert IsPrefix(src, src) && Reroot(src, dst, src) == dst;
    assert dst in Relocated(fs, src, dst);
  }

  lemma ListedEntryResolves(fs: FileSystem, src: Path, dst: Path, p: Path, n: string)
    requires Valid(fs) && CanRename(fs, src, dst)
    requires IsDir(Renamed(fs, src, dst), p) && n in Renamed(fs, src, dst)[p].names
    ensures p + [n] in Renamed(fs, src, dst)
  {
    var ps, pd := Dirname(src), Dirname(dst);
    if p == pd || p == ps {
      ListedEntryResolvesTouched(fs, src, dst, p, n);
    } else {
      RenamedMoves(fs, src, dst);
      if p in fs && !IsPrefix(src, p) {
        ListedEntryResolvesKept(fs, src, dst, p, n);
      } else {
        ListedEntryResolvesMoved(fs, src, dst, p, n);
      }
    }
  }

  lemma ListedEntryResolvesTouched(fs: FileSystem, src: Path, dst: Path, p: Path, n: string)
    requires Valid(fs) && CanRename(fs, src, dst)
    requires p == Dirname(src) || p == Dirname(dst)
    requires IsDir(Renamed(fs, src, dst), p) && n in Renamed(fs, src, dst)[p].names
    ensures p + [n] in Renamed(fs, src, dst)
  {
    if p == Dirname(dst) && n == Basename(dst) {
      DestinationExists(fs, src, dst);
      assert p + [n] == dst;
    } else {
      OldNameResolves(fs, src, dst, p, n);
    }
  }

  lemma OldNameResolves(fs: FileSystem, src: Path, dst: Path, p: Path, n: string)
    requires Valid(fs) && CanRename(fs, src, dst)
    requires p == Dirname(src) || p == Dirname(dst)
    requires !(p == Dirname(dst) && n == Basename(dst))
    requires IsDir(Renamed(fs, src, dst), p) && n in Renamed(fs, src, dst)[p].names
    ensures p + [n] in Renamed(fs, src, dst)
  {
    OldNameListed(fs, src, dst, p, n);
    TouchedOutsideSource(fs, src, dst);
    ListedResolves(fs, p, n);
    assert Dirname(p + [n]) == p;
    PrefixOfExtension(src, p, n);
    RenamedKeeps(fs, src, dst, p + [n]);
  }

  /** Neither touched directory lies at or below the source. */
  lemma TouchedOutsideSource(fs: FileSystem, src: Path, dst: Path)
    requires CanRename(fs, src, dst)
    ensures !IsPrefix(src, Dirname(src)) && !IsPrefix(src, Dirname(dst))
  {
    assert IsPrefix(Dirname(dst), dst);
    if IsPrefix(src, Dirname(dst)) {
      PrefixTrans(src, Dirname(dst), dst);
    }
  }

  /** A name the two touched directories list after a rename, other than
      the destination's, was listed there before and is not the source's. */
  lemma OldNameListed(fs: FileSystem, src: Path, dst: Path, p: Path, n: string)
    requires Valid(fs) && CanRename(fs, src, dst)
    requires p == Dirname(src) || p == Dirname(dst)
    requires !(p == Dirname(dst) && n == Basename(dst))
    requires IsDir(Renamed(fs, src, dst), p) && n in Renamed(fs, src, dst)[p].names
    ensures IsDir(fs, p) && n in fs[p].names && (p == Dirname(src) ==> n != Basename(src))
  {
    RenameParents(fs, src, dst);
    RenamedShape(fs, src, dst);
  }

  lemma ListedEntryResolvesKept(fs: FileSystem, src: Path, dst: Path, p: Path, n: string)
    requires Valid(fs) && CanRename(fs, src, dst)
    requires p != Dirname(src) && p != Dirname(dst) && p in fs && !IsPrefix(src, p)
    requires IsDir(Renamed(fs, src, dst), p) && n in Renamed(fs, src, dst)[p].names
    ensures p + [n] in Renamed(fs, src, dst)
  {
    RenamedMoves(fs, src, dst);
    assert n in fs[p].names;
    ListedResolves(fs, p, n);
    assert Dirname(p + [n]) == p;
    PrefixOfExtension(src, p, n);
    RenamedKeeps(fs, src, dst, p + [n]);
  }

  lemma ListedEntryResolvesMoved(fs: FileSystem, src: Path, dst: Path, p: Path, n: string)
    requires Valid(fs) && CanRename(fs, src, dst)
    requires IsPrefix(dst, p) && src + p[|dst|..] in fs
    requires IsDir(Renamed(fs, src, dst), p) && n in Renamed(fs, src, dst)[p].names
    ensures p + [n] in Renamed(fs, src, dst)
  {
    RenamedMoves(fs, src, dst);
    var q0 := src + p[|dst|..];
    assert IsPrefix(src, q0);
    assert Reroot(src, dst, q0) == p;
    assert n in fs[q0].names;
    ListedResolves(fs, q0, n);
    RerootAppend(src, dst, q0, n);
  }

  lemma ParentListsEntry(fs: FileSystem, src: Path, dst: Path, d: Path, n: string)
    requires Valid(fs) && CanRename(fs, src, dst)
    requires d + [n] in Renamed(fs, src, dst)
    ensures IsDir(Renamed(fs, src, dst), d) && n in Renamed(fs, src, dst)[d].names
  {
    RenamedMoves(fs, src, dst);
    var q := d + [n];
    if q in fs && !IsPrefix(src, q) {
      ParentListsKeptEntry(fs, src, dst, d, n);
    } else if q == dst {
      RenamedShape(fs, src, dst);
    } else {
      ParentListsMovedEntry(fs, src, dst, d, n);
    }
  }

  lemma ParentListsKeptEntry(fs: FileSystem, src: Path, dst: Path, d: Path, n: string)
    requires Valid(fs) && CanRename(fs, src, dst)
    requires d + [n] in fs && !IsPrefix(src, d + [n])
    ensures IsDir(Renamed(fs, src, dst), d) && n in Renamed(fs, src, dst)[d].names
  {
    var q := d + [n];
    assert IsDir(fs, d) && n in fs[d].names;
    assert IsPrefix(d, q);
    assert IsPrefix(src, d) ==> IsPrefix(src, q) by {
      if IsPrefix(src, d) { PrefixTrans(src, d, q); }
    }
    NothingBelowMissing(fs, dst, d);
    assert d == Dirname(src) ==> n != Basename(src);
    RenamedShape(fs, src, dst);
    var m := Relocated(fs, src, dst);
    assert d in m && m[d] == fs[d];
  }

  lemma ParentListsMovedEntry(fs: FileSystem, src: Path, dst: Path, d: Path, n: string)
    requires Valid(fs) && CanRename(fs, src, dst)
    requires IsPrefix(dst, d + [n]) && d + [n] != dst && src + (d + [n])[|dst|..] in fs
    ensures IsDir(Renamed(fs, src, dst), d) && n in Renamed(fs, src, dst)[d].names
  {
    var q := d + [n];
    assert IsPrefix(dst, d) by { assert d[..|dst|] == q[..|dst|]; }
    var d0 := src + d[|dst|..];
    assert src + q[|dst|..] == d0 + [n];
    assert d0 + [n] in fs;
    assert IsDir(fs, d0) && n in fs[d0].names;
    assert IsPrefix(src, d0);
    assert Reroot(src, dst, d0) == d;
    RenamedMoves(fs, src, dst);
  }

  /** No directory lists a name twice after a rename. */
  lemma RenamedDistinct(fs: FileSystem, src: Path, dst: Path, p: Path)
    requires Valid(fs) && CanRename(fs, src, dst)
    requires IsDir(Renamed(fs, src, dst), p)
    ensures Distinct(Renamed(fs, src, dst)[p].names)
  {
    if p == Dirname(dst) {
      RenamedDistinctDest(fs, src, dst);
    } else if p == Dirname(src) {
      RenamedDistinctSource(fs, src, dst);
    } else {
      RenamedDistinctOther(fs, src, dst, p);
    }
  }

  /** The destination's directory gains a name it did not list. */
  lemma RenamedDistinctDest(fs: FileSystem, src: Path, dst: Path)
    requires Valid(fs) && CanRename(fs, src, dst)
    ensures IsDir(Renamed(fs, src, dst), Dirname(dst))
    ensures Distinct(Renamed(fs, src, dst)[Dirname(dst)].names)
  {
    var ps, pd := Dirname(src), Dirname(dst);
    RenameParents(fs, src, dst);
    RenamedShape(fs, src, dst);
    assert Basename(dst) !in fs[pd].names by {
      if Basename(dst) in fs[pd].names {
        ListedResolves(fs, pd, Basename(dst));
      }
    }
    var l := if ps == pd then Without(fs[pd].names, Basename(src)) else fs[pd].names;
    DistinctSnoc(l, Basename(dst));
  }

  /** Appending a name a list lacks keeps it free of duplicates. */
  lemma DistinctSnoc(l: seq<string>, x: string)
    requires Distinct(l) && x !in l
    ensures Distinct(l + [x])
  {
    forall i, j | 0 <= i < j < |l + [x]| ensures (l + [x])[i] != (l + [x])[j] {
      assert (l + [x])[i] == l[i];
    }
  }

  /** The source's directory only loses a name. */
  lemma RenamedDistinctSource(fs: FileSystem, src: Path, dst: Path)
    requires Valid(fs) && CanRename(fs, src, dst) && Dirname(src) != Dirname(dst)
    ensures IsDir(Renamed(fs, src, dst), Dirname(src))
    ensures Distinct(Renamed(fs, src, dst)[Dirname(src)].names)
  {
    RenameParents(fs, src, dst);
    RenamedShape(fs, src, dst);
  }

  /** Every other directory keeps, or carries along, a listing it had. */
  lemma RenamedDistinctOther(fs: FileSystem, src: Path, dst: Path, p: Path)
    requires Valid(fs) && CanRename(fs, src, dst)
    requires p != Dirname(src) && p != Dirname(dst) && IsDir(Renamed(fs, src, dst), p)
    ensures Distinct(Renamed(fs, src, dst)[p].names)
  {
    RenamedMoves(fs, src, dst);
    if !(p in fs && !IsPrefix(src, p)) {
      var q0 := src + p[|dst|..];
      assert IsPrefix(src, q0);
      assert Reroot(src, dst, q0) == p;
    }
  }

  /** A rename keeps a consistent snapshot consistent. */
  lemma RenamedValid(fs: FileSystem, src: Path, dst: Path)
    requires Valid(fs) && CanRename(fs, src, dst)
    ensures Valid(Renamed(fs, src, dst))
  {
    var r := Renamed(fs, src, dst);
    forall p, i | IsDir(r, p) && 0 <= i < |r[p].names|
      ensures p + [r[p].names[i]] in r
    {
      ListedEntryResolves(fs, src, dst, p, r[p].names[i]);
    }
    forall p | IsDir(r, p) ensures Distinct(r[p].names) {
      RenamedDistinct(fs, src, dst, p);
    }
    forall d, n {:trigger d + [n] in r} | d + [n] in r
      ensures IsDir(r, d) && n in r[d].names
    {
      ParentListsEntry(fs, src, dst, d, n);
    }
  }

  /** Two snapshots that hold the same paths, with a directory where the
      other has one and the same bytes in every file. */
  ghost predicate SameTree(a: FileSystem, b: FileSystem)
  {
    && (forall q :: q in a <==> q in b)
    && (forall q :: q in a ==> (a[q].Dir? <==> b[q].Dir?) && (a[q].File? ==> a[q] == b[q]))
  }

  /** Consistent snapshots with the same tree list the same names in every
      directory; only the listing order may differ. */
  lemma SameTreeListings(a: FileSystem, b: FileSystem, p: Path, n: string)
    requires Valid(a) && Valid(b) && SameTree(a, b) && IsDir(a, p)
    ensures n in a[p].names <==> n in b[p].names
  {
    if n in a[p].names {
      ListedResolves(a, p, n);
      assert p + [n] in b;
    }
    if n in b[p].names {
      ListedResolves(b, p, n);
      assert p + [n] in a;
    }
  }

  /** After a successful rename, renaming the destination back to the
      source is possible. */
  lemma RenameBackAllowed(fs: FileSystem, src: Path, dst: Path)
    requires Valid(fs) && CanRename(fs, src, dst)
    ensures CanRename(Renamed(fs, src, dst), dst, src)
  {
    RenamedMoves(fs, src, dst);
    RenamedShape(fs, src, dst);
    assert Reroot(src, dst, src) == dst;
    assert IsPrefix(src, src);
    NothingBelowMissing(fs, dst, src);
  }

  /** A path of the original snapshot is back, with its node, after a
      rename there and back. */
  lemma RenameBackKeeps(fs: FileSystem, src: Path, dst: Path, q: Path)
    requires Valid(fs) && CanRename(fs, src, dst) && q in fs
    ensures var b := Renamed(Renamed(fs, src, dst), dst, src);
      q in b && (b[q].Dir? <==> fs[q].Dir?) && (fs[q].File? ==> b[q] == fs[q])
  {
    var r := Renamed(fs, src, dst);
    RenameBackAllowed(fs, src, dst);
    RenamedValid(fs, src, dst);
    RenamedMoves(fs, src, dst);
    RenamedMoves(r, dst, src);
    if IsPrefix(src, q) {
      var t := Reroot(src, dst, q);
      assert Reroot(dst, src, t) == q;
    } else {
      RenameParents(fs, src, dst);
      RenamedShape(fs, src, dst);
      RenamedKeeps(fs, src, dst, q);
      NothingBelowMissing(fs, dst, q);
      RenamedKeeps(r, dst, src, q);
      RenamedShape(r, dst, src);
    }
  }

  /** Nothing appears after a rename there and back that was not there
      before. */
  lemma RenameBackNothingNew(fs: FileSystem, src: Path, dst: Path, r: FileSystem, q: Path)
    requires Valid(fs) && CanRename(fs, src, dst) && r == Renamed(fs, src, dst)
    requires q in Renamed(r, dst, src)
    ensures q in fs
  {
    RenamedOrigin(r, dst, src, q);
    if q in r && !IsPrefix(dst, q) {
      RenamedOrigin(fs, src, dst, q);
    } else {
      RenameBackOrigin(fs, src, dst, r, q);
    }
  }

  /** A path below the source after the rename back came from the
      destination, which held what the source held. */
  lemma RenameBackOrigin(fs: FileSystem, src: Path, dst: Path, r: FileSystem, q: Path)
    requires Valid(fs) && CanRename(fs, src, dst) && r == Renamed(fs, src, dst)
    requires IsPrefix(src, q) && dst + q[|src|..] in r
    ensures q in fs
  {
    var t := dst + q[|src|..];
    assert IsPrefix(dst, t);
    RenamedOrigin(fs, src, dst, t);
    if t in fs {
      NothingBelowMissing(fs, dst, t);
    }
    assert src + t[|dst|..] == q;
  }

  /** Where a path after a rename comes from. */
  lemma RenamedOrigin(fs: FileSystem, src: Path, dst: Path, q: Path)
    requires q in Renamed(fs, src, dst)
    ensures (q in fs && !IsPrefix(src, q)) || (IsPrefix(dst, q) && src + q[|dst|..] in fs)
  {
    assert q in Relocated(fs, src, dst);
  }

  /** Renaming back undoes a rename: every path, every file's bytes and,
      by `SameTreeListings`, every directory's set of names are restored. */
  lemma RenameBackRestores(fs: FileSystem, src: Path, dst: Path)
    requires Valid(fs) && CanRename(fs, src, dst)
    ensures CanRename(Renamed(fs, src, dst), dst, src)
    ensures SameTree(Renamed(Renamed(fs, src, dst), dst, src), fs)
  {
    RenameBackAllowed(fs, src, dst);
    var b := Renamed(Renamed(fs, src, dst), dst, src);
    forall q | q in fs ensures q in b && (b[q].Dir? <==> fs[q].Dir?) && (fs[q].File? ==> b[q] == fs[q]) {
      RenameBackKeeps(fs, src, dst, q);
    }
    forall q | q in b ensures q in fs {
      RenameBackNothingNew(fs, src, dst, Renamed(fs, src, dst), q);
    }
  }
}
