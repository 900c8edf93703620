/** The host filesystem as the package manager sees it: a map from absolute paths (sequences of
    components) to files, directories and symbolic links, and the library calls the source makes
    on it (os.listdir, open for reading, writing and appending, Path.touch, Path.mkdir with
    parents, shutil.move, `mv`, os.rmdir, os.unlink, `ln -sf`, `rm -rf`), each as a function from the
    tree before to the tree after or the error raised. Symbolic links are recorded but never
    followed. */
module Files {
  import opened Wrappers

  type Path = seq<string>

  datatype Node = File(content: string) | Dir | Link(target: Path)

  type Tree = map<Path, Node>

  /** The OSError subclasses (and shutil.Error) the calls raise. */
  datatype FsError =
    | NotFound(path: Path)
    | NotADirectory(path: Path)
    | IsADirectory(path: Path)
    | AlreadyExists(path: Path)
    | NotEmpty(path: Path)
    | IntoItself(path: Path)
    | LinkNotFollowed(path: Path)

  function Lookup(t: Tree, k: Path): Option<Node>
  {
    if k in t then Some(t[k]) else None
  }

  function Parent(k: Path): Path
    requires k != []
  {
    k[..|k| - 1]
  }

  /** A tree: every entry but the root sits in a directory that is itself an entry. */
  ghost predicate WellFormed(t: Tree)
  {
    forall k {:trigger Parent(k)} :: k in t && k != [] ==> Lookup(t, Parent(k)) == Some(Dir)
  }

  /** The names directly inside `p`. */
  function Children(t: Tree, p: Path): set<string>
  {
    set k | k in t && |k| == |p| + 1 && p <= k :: k[|p|]
  }

  lemma {:induction false} ChildIff(t: Tree, p: Path, n: string)
    ensures n in Children(t, p) <==> p + [n] in t
  {
    if p + [n] in t {
      var k := p + [n];
      assert |k| == |p| + 1 && p <= k && k[|p|] == n;
    }
    if n in Children(t, p) {
      var k :| k in t && |k| == |p| + 1 && p <= k && k[|p|] == n;
      assert k == p + [n];
    }
  }

  /** Every proper ancestor of an entry is a directory. */
  lemma {:induction false} AncestorIsDir(t: Tree, k: Path, j: Path)
    requires WellFormed(t) && k in t && j < k
    ensures Lookup(t, j) == Some(Dir)
    decreases |k|
  {
    var q := Parent(k);
    assert Lookup(t, q) == Some(Dir);
    assert j <= q by { assert q[..|j|] == k[..|j|]; }
    if j != q {
      AncestorIsDir(t, q, j);
    }
  }

  /** Nothing lies at or below a path that is not an entry. */
  lemma {:induction false} NothingWithinAbsent(t: Tree, p: Path)
    requires WellFormed(t) && p !in t
    ensures forall k :: k in t ==> !(p <= k)
  {
    forall k | k in t && p <= k ensures false {
      assert p != k;
      AncestorIsDir(t, k, p);
    }
  }

  /** Nothing lies below an entry that is not a directory. */
  lemma {:induction false} NothingBelowNonDir(t: Tree, p: Path)
    requires WellFormed(t) && Lookup(t, p) != Some(Dir)
    ensures forall k :: k in t ==> !(p < k)
  {
    forall k | k in t && p < k ensures false {
      AncestorIsDir(t, k, p);
    }
  }

  /** An entry below `p` lies below one of the names listed in `p`. */
  lemma {:induction false} BelowHasChild(t: Tree, p: Path, k: Path)
    requires WellFormed(t) && k in t && p < k
    ensures k[|p|] in Children(t, p)
  {
    var c := p + [k[|p|]];
    assert c <= k by { assert k[..|c|] == k[..|p|] + [k[|p|]]; }
    if c != k {
      AncestorIsDir(t, k, c);
    }
    ChildIff(t, p, k[|p|]);
  }

  // ------------------------------------------------------------ the calls

  /** os.listdir(p). */
  function ListDirResult(t: Tree, p: Path): Result<set<string>, FsError>
  {
    match Lookup(t, p)
    case None => Failure(NotFound(p))
    case Some(Dir) => Success(Children(t, p))
    case Some(File(_)) => Failure(NotADirectory(p))
    case Some(Link(_)) => Failure(LinkNotFollowed(p))
  }

  /** open(p).read(). */
  function ReadFile(t: Tree, p: Path): Result<string, FsError>
  {
    match Lookup(t, p)
    case None => Failure(NotFound(p))
    case Some(File(text)) => Success(text)
    case Some(Dir) => Failure(IsADirectory(p))
    case Some(Link(_)) => Failure(LinkNotFollowed(p))
  }

  /** Whether a new entry can be created at `p`: its parent must be a directory. */
  function CanCreate(t: Tree, p: Path): Outcome<FsError>
  {
    if p == [] then Fail(NotFound(p))
    else match Lookup(t, Parent(p))
      case None => Fail(NotFound(p))
      case Some(Dir) => Pass
      case Some(File(_)) => Fail(NotADirectory(p))
      case Some(Link(_)) => Fail(LinkNotFollowed(p))
  }

  /** open(p, "w") (truncate: keep nothing) or open(p, "a") (keep the old text), then write(text). */
  function WriteFile(t: Tree, p: Path, text: string, append: bool): Result<Tree, FsError>
  {
    match Lookup(t, p)
    case Some(File(before)) => Success(t[p := File(if append then before + text else text)])
    case Some(Dir) => Failure(IsADirectory(p))
    case Some(Link(_)) => Failure(LinkNotFollowed(p))
    case None =>
      match CanCreate(t, p)
      case Pass => Success(t[p := File(text)])
      case Fail(e) => Failure(e)
  }

  /** Path.touch(): create an empty file unless something is already there. */
  function TouchFile(t: Tree, p: Path): Result<Tree, FsError>
  {
    if p in t then Success(t)
    else match CanCreate(t, p)
      case Pass => Success(t[p := File([])])
      case Fail(e) => Failure(e)
  }

  /** The root, every ancestor of `p`, and `p`. */
  function Prefixes(p: Path): set<Path>
  {
    set i | 0 <= i <= |p| :: p[..i]
  }

  /** Path.mkdir(parents=True, exist_ok=True). */
  function MkDirsAt(t: Tree, p: Path): Result<Tree, FsError>
  {
    match Lookup(t, p)
    case Some(Dir) => Success(t)
    case Some(File(_)) => Failure(AlreadyExists(p))
    case Some(Link(_)) => Failure(LinkNotFollowed(p))
    case None =>
      if exists q :: q in Prefixes(p) && q in t && t[q] != Dir then Failure(NotADirectory(p))
      else Success(t + map q | q in Prefixes(p) :: Dir)
  }

  /** os.unlink(p), or Path.unlink(missing_ok=True) when `missingOk`. */
  function UnlinkAt(t: Tree, p: Path, missingOk: bool): Result<Tree, FsError>
  {
    match Lookup(t, p)
    case None => if missingOk then Success(t) else Failure(NotFound(p))
    case Some(Dir) => Failure(IsADirectory(p))
    case Some(_) => Success(t - {p})
  }

  /** `ln -sf target link` run without looking at its exit status: the link replaces a file or link
      at `link`; when `link` cannot be created (no parent directory) nothing changes. Real
      `ln -sf` would make the link inside a directory already at `link`; the model leaves the tree
      unchanged there instead. The registration never reaches that case, since its earlier
      `unlink` of the link raises `IsADirectory` first. */
  function SymlinkAt(t: Tree, link: Path, target: Path): Tree
  {
    if link != [] && Lookup(t, Parent(link)) == Some(Dir) && Lookup(t, link) != Some(Dir)
    then t[link := Link(target)] else t
  }

  /** `rm -rf p` run without looking at its exit status: `p` and everything below it go. */
  function RemoveTree(t: Tree, p: Path): Tree
  {
    map k | k in t && !(p <= k) :: t[k]
  }

  /** The paths below `p`, relative to `p` (`p` itself is `[]`). */
  function Tails(t: Tree, p: Path): set<Path>
  {
    set k | k in t && p <= k :: k[|p|..]
  }

  /** The entries at and below `p`, relative to `p`. */
  function Subtree(t: Tree, p: Path): Tree
  {
    map r | r in Tails(t, p) && p + r in t :: t[p + r]
  }

  /** The paths of `rs` placed under `dst`. */
  function Graft(dst: Path, rs: set<Path>): set<Path>
  {
    set r | r in rs :: dst + r
  }

  /** os.rename(src, dst) on a tree: `src` and everything below it now live under `dst`. */
  function RenameTree(t: Tree, src: Path, dst: Path): Tree
  {
    Overlay(RemoveTree(t, src), dst, Subtree(t, src))
  }

  /** shutil.move(src, dir) where `dir` is meant to be an existing directory: `src` moves to
      `dir`/basename(`src`), which must not exist yet. */
  function MoveInto(t: Tree, src: Path, dir: Path): Result<Tree, FsError>
  {
    if Lookup(t, dir) != Some(Dir) then Failure(NotADirectory(dir))
    else if src == [] then Failure(IntoItself(src))
    else
      var dst := dir + [src[|src| - 1]];
      if dst in t then Failure(AlreadyExists(dst))
      else if src !in t then Failure(NotFound(src))
      else if src <= dst then Failure(IntoItself(src))
      else Success(RenameTree(t, src, dst))
  }

  /** os.rmdir(p). */
  function RmDirAt(t: Tree, p: Path): Result<Tree, FsError>
  {
    match Lookup(t, p)
    case None => Failure(NotFound(p))
    case Some(Dir) => if Children(t, p) != {} then Failure(NotEmpty(p)) else Success(t - {p})
    case Some(_) => Failure(NotADirectory(p))
  }

  /** What an archive tool lays down: the entries of `tree`, relative to `dst`, written over
      whatever was there. */
  function Overlay(t: Tree, dst: Path, tree: Tree): Tree
  {
    t + map k | k in Graft(dst, tree.Keys) && dst <= k && k[|dst|..] in tree :: tree[k[|dst|..]]
  }

  /** `tree` can be laid under `dst` as a tree: `dst` is a directory, `tree` is a relative tree,
      and it puts no file or link where `t` has entries below. */
  predicate FitsUnder(t: Tree, dst: Path, tree: Tree)
  {
    && Lookup(t, dst) == Some(Dir)
    && [] !in tree
    && (forall r {:trigger Parent(r)} :: r in tree && |r| > 1 ==> Lookup(tree, Parent(r)) == Some(Dir))
    && (forall r, k :: r in tree && k in t && dst + r < k ==> tree[r] == Dir)
  }

  // ------------------------------------------------------- pointwise views

  lemma {:induction false} OverlayLookup(t: Tree, dst: Path, tree: Tree, k: Path)
    ensures Lookup(Overlay(t, dst, tree), k) ==
      if dst <= k && k[|dst|..] in tree then Some(tree[k[|dst|..]]) else Lookup(t, k)
  {
    if dst <= k && k[|dst|..] in tree {
      assert dst + k[|dst|..] == k;
      assert k in Graft(dst, tree.Keys);
    }
  }

  lemma {:induction false} SubtreeLookup(t: Tree, p: Path, r: Path)
    ensures Lookup(Subtree(t, p), r) == Lookup(t, p + r)
  {
    if p + r in t {
      var k := p + r;
      assert k[|p|..] == r;
      assert r in Tails(t, p);
    }
  }

  lemma {:induction false} RenameTreeLookup(t: Tree, src: Path, dst: Path, k: Path)
    requires forall j :: j in t ==> !(dst <= j)
    ensures Lookup(RenameTree(t, src, dst), k) == RenamedAt(t, src, dst, k)
  {
    OverlayLookup(RemoveTree(t, src), dst, Subtree(t, src), k);
    RemoveTreeLookup(t, src, k);
    if dst <= k {
      SubtreeLookup(t, src, k[|dst|..]);
    }
  }

  lemma {:induction false} RemoveTreeLookup(t: Tree, p: Path, k: Path)
    ensures Lookup(RemoveTree(t, p), k) == if p <= k then None else Lookup(t, k)
  {
  }

  /** A path below `p` is `p` followed by the rest of it. */
  lemma {:induction false} PrefixRest(p: Path, k: Path)
    requires p <= k
    ensures p + k[|p|..] == k
  {
    assert k[..|p|] == p;
    assert k[..|p|] + k[|p|..] == k;
  }

  /** Two trees that agree on every path are the same tree. */
  lemma {:induction false} Extensionality(a: Tree, b: Tree)
    requires forall k :: Lookup(a, k) == Lookup(b, k)
    ensures a == b
  {
    forall k | k in a ensures k in b && a[k] == b[k] {
      assert Lookup(a, k) == Lookup(b, k);
    }
    forall k | k in b ensures k in a {
      assert Lookup(a, k) == Lookup(b, k);
    }
  }

  // ------------------------------------------- the calls keep a tree a tree

  lemma {:induction false} NewLeafWellFormed(t: Tree, p: Path, n: Node)
    requires WellFormed(t) && n != Dir
    requires (p in t && t[p] != Dir) || (p !in t && CanCreate(t, p) == Pass)
    ensures WellFormed(t[p := n])
  {
    var t' := t[p := n];
    forall k | k in t' && k != [] ensures Lookup(t', Parent(k)) == Some(Dir) {
      if k == p {
        if p in t { assert Lookup(t, Parent(k)) == Some(Dir); }
      } else {
        assert Lookup(t, Parent(k)) == Some(Dir);
        if Parent(k) == p {
          assert false;
        }
      }
    }
  }

  lemma {:induction false} WriteFileWellFormed(t: Tree, p: Path, text: string, append: bool)
    requires WellFormed(t) && WriteFile(t, p, text, append).Success?
    ensures WellFormed(WriteFile(t, p, text, append).value)
  {
    match Lookup(t, p)
    case Some(File(before)) => NewLeafWellFormed(t, p, File(if append then before + text else text));
    case None => NewLeafWellFormed(t, p, File(text));
  }

  lemma {:induction false} TouchFileWellFormed(t: Tree, p: Path)
    requires WellFormed(t) && TouchFile(t, p).Success?
    ensures WellFormed(TouchFile(t, p).value)
  {
    if p !in t {
      NewLeafWellFormed(t, p, File([]));
    }
  }

  lemma {:induction false} MkDirsAtWellFormed(t: Tree, p: Path)
    requires WellFormed(t) && MkDirsAt(t, p).Success?
    ensures WellFormed(MkDirsAt(t, p).value)
    ensures Lookup(MkDirsAt(t, p).value, p) == Some(Dir)
    ensures forall k :: k in t ==> k in MkDirsAt(t, p).value
    ensures forall k :: k !in Prefixes(p) ==> Lookup(MkDirsAt(t, p).value, k) == Lookup(t, k)
  {
    if p !in t {
      var ps := Prefixes(p);
      var t' := t + map q | q in ps :: Dir;
      assert p[..|p|] == p;
      forall k | k in t' && k != [] ensures Lookup(t', Parent(k)) == Some(Dir) {
        if k in ps {
          var i :| 0 <= i <= |p| && k == p[..i];
          assert Parent(k) == p[..i - 1];
        } else {
          assert Lookup(t, Parent(k)) == Some(Dir);
        }
      }
    }
  }

  /** `mkdir -p` leaves every file and link where it was. */
  lemma {:induction false} MkDirsAtKeepsLeaves(t: Tree, p: Path, k: Path)
    requires MkDirsAt(t, p).Success? && k in t && t[k] != Dir
    ensures Lookup(MkDirsAt(t, p).value, k) == Lookup(t, k)
  {
  }

  /** Creating one new directory inside an existing one adds just that directory. */
  lemma {:induction false} MkDirsNewChild(t: Tree, d: Path, n: string)
    requires WellFormed(t) && Lookup(t, d) == Some(Dir) && d + [n] !in t
    ensures MkDirsAt(t, d + [n]) == Success(t[d + [n] := Dir])
  {
    var p := d + [n];
    forall q | q in Prefixes(p) && q != p ensures Lookup(t, q) == Some(Dir) {
      var i :| 0 <= i <= |p| && q == p[..i];
      assert p[..|p|] == p;
      assert q == d[..i];
      if q != d {
        AncestorIsDir(t, d, q);
      }
    }
    var m := t + map q | q in Prefixes(p) :: Dir;
    assert p[..|p|] == p;
    forall k ensures Lookup(m, k) == Lookup(t[p := Dir], k) {
      if k in Prefixes(p) && k != p {
        assert Lookup(t, k) == Some(Dir);
      }
    }
    Extensionality(m, t[p := Dir]);
  }

  lemma {:induction false} UnlinkAtWellFormed(t: Tree, p: Path, missingOk: bool)
    requires WellFormed(t) && UnlinkAt(t, p, missingOk).Success?
    ensures WellFormed(UnlinkAt(t, p, missingOk).value)
  {
    if p in t {
      NothingBelowNonDir(t, p);
      var t' := t - {p};
      forall k | k in t' && k != [] ensures Lookup(t', Parent(k)) == Some(Dir) {
        assert Lookup(t, Parent(k)) == Some(Dir);
        assert Parent(k) < k;
      }
    }
  }

  lemma {:induction false} SymlinkAtWellFormed(t: Tree, link: Path, target: Path)
    requires WellFormed(t)
    ensures WellFormed(SymlinkAt(t, link, target))
  {
    if link != [] && Lookup(t, Parent(link)) == Some(Dir) && Lookup(t, link) != Some(Dir) {
      if link in t {
        NewLeafWellFormed(t, link, Link(target));
      } else {
        assert CanCreate(t, link) == Pass;
        NewLeafWellFormed(t, link, Link(target));
      }
    }
  }

  lemma {:induction false} RemoveTreeWellFormed(t: Tree, p: Path)
    requires WellFormed(t)
    ensures WellFormed(RemoveTree(t, p))
  {
    var t' := RemoveTree(t, p);
    forall k | k in t' && k != [] ensures Lookup(t', Parent(k)) == Some(Dir) {
      assert Lookup(t, Parent(k)) == Some(Dir);
    }
  }

  lemma {:induction false} RmDirAtWellFormed(t: Tree, p: Path)
    requires WellFormed(t) && RmDirAt(t, p).Success?
    ensures WellFormed(RmDirAt(t, p).value)
  {
    var t' := t - {p};
    forall k | k in t' && k != [] ensures Lookup(t', Parent(k)) == Some(Dir) {
      assert Lookup(t, Parent(k)) == Some(Dir);
      if Parent(k) == p {
        assert k == p + [k[|p|]];
        ChildIff(t, p, k[|p|]);
      }
    }
  }

  /** What a rename leaves at `k`, given nothing lies at or below `dst` beforehand. */
  function RenamedAt(t: Tree, src: Path, dst: Path, k: Path): Option<Node>
  {
    if dst <= k then Lookup(t, src + k[|dst|..])
    else if src <= k then None
    else Lookup(t, k)
  }

  lemma {:induction false} RenamedParent(t: Tree, src: Path, dst: Path, k: Path)
    requires WellFormed(t) && src in t && !(src <= dst)
    requires dst != [] && Lookup(t, Parent(dst)) == Some(Dir)
    requires RenamedAt(t, src, dst, k).Some? && k != []
    ensures RenamedAt(t, src, dst, Parent(k)) == Some(Dir)
  {
    var q := Parent(k);
    if dst <= k {
      if k == dst {
        assert !(src <= q);
      } else {
        var j := src + k[|dst|..];
        assert dst <= q;
        assert j != [] && Parent(j) == src + q[|dst|..];
      }
    } else {
      assert Lookup(t, q) == Some(Dir);
      assert !(src <= q);
      assert !(dst <= q);
    }
  }

  lemma {:induction false} MoveIntoWellFormed(t: Tree, src: Path, dir: Path)
    requires WellFormed(t) && MoveInto(t, src, dir).Success?
    ensures WellFormed(MoveInto(t, src, dir).value)
  {
    var dst := dir + [src[|src| - 1]];
    NothingWithinAbsent(t, dst);
    assert Parent(dst) == dir;
    forall k | k in RenameTree(t, src, dst) && k != []
      ensures Lookup(RenameTree(t, src, dst), Parent(k)) == Some(Dir)
    {
      RenameTreeLookup(t, src, dst, k);
      RenameTreeLookup(t, src, dst, Parent(k));
      RenamedParent(t, src, dst, k);
    }
  }

  /** The parent of a path more than one name below `dst` is below `dst` too. */
  lemma {:induction false} ParentOfRest(dst: Path, k: Path)
    requires dst <= k && |k| > |dst| + 1
    ensures dst <= Parent(k) && Parent(k)[|dst|..] == Parent(k[|dst|..])
  {
    assert Parent(k)[..|dst|] == k[..|dst|];
  }

  lemma {:induction false} OverlayParent(t: Tree, dst: Path, tree: Tree, k: Path)
    requires WellFormed(t) && FitsUnder(t, dst, tree)
    requires k in Overlay(t, dst, tree) && k != []
    ensures Lookup(Overlay(t, dst, tree), Parent(k)) == Some(Dir)
  {
    var q := Parent(k);
    OverlayLookup(t, dst, tree, k);
    OverlayLookup(t, dst, tree, q);
    if dst <= k && k[|dst|..] in tree {
      var r := k[|dst|..];
      if |r| == 1 {
        assert q == dst;
        assert q[|dst|..] == [];
      } else {
        ParentOfRest(dst, k);
      }
    } else {
      assert Lookup(t, q) == Some(Dir);
      if dst <= q && q[|dst|..] in tree {
        var r := q[|dst|..];
        assert dst + r == q && q < k;
      }
    }
  }

  lemma {:induction false} OverlayWellFormed(t: Tree, dst: Path, tree: Tree)
    requires WellFormed(t) && FitsUnder(t, dst, tree)
    ensures WellFormed(Overlay(t, dst, tree))
  {
    forall k | k in Overlay(t, dst, tree) && k != []
      ensures Lookup(Overlay(t, dst, tree), Parent(k)) == Some(Dir)
    {
      OverlayParent(t, dst, tree, k);
    }
  }

  /** The file `src` taken away and `n` put at `dst`: what `mv` does to a file, and what a tool
      that turns one file into another does. */
  function Relocated(t: Tree, src: Path, dst: Path, n: Node): Tree
  {
    (t - {src})[dst := n]
  }

  /** `src` is a file, and `dst` is another name inside a directory with no directory at it. */
  predicate CanRelocate(t: Tree, src: Path, dst: Path)
  {
    && Lookup(t, src).Some? && Lookup(t, src).value.File? && src != dst
    && dst != [] && Lookup(t, Parent(dst)) == Some(Dir) && Lookup(t, dst) != Some(Dir)
  }

  lemma {:induction false} RelocatedWellFormed(t: Tree, src: Path, dst: Path, n: Node)
    requires WellFormed(t) && CanRelocate(t, src, dst) && n != Dir
    ensures WellFormed(Relocated(t, src, dst, n))
  {
    UnlinkAtWellFormed(t, src, false);
    var t' := t - {src};
    assert Lookup(t', Parent(dst)) == Some(Dir);
    NewLeafWellFormed(t', dst, n);
  }

  // ------------------------------------------------------------ the object

  /** Whether a call that returns a new tree or raises took effect: on success the tree is the
      new one and the call passes, on failure nothing changed and the call raised. */
  predicate Took(before: Tree, res: Result<Tree, FsError>, after: Tree, r: Outcome<FsError>)
  {
    match res
    case Success(t) => r == Pass && after == t
    case Failure(e) => r == Fail(e) && after == before
  }

  /** The host filesystem, changed in place by the calls below. */
  class FileSystem {
    var entries: Tree

    ghost predicate Valid()
      reads this
    {
      WellFormed(entries)
    }

    constructor (initial: Tree)
      requires WellFormed(initial)
      ensures Valid() && entries == initial
    {
      entries := initial;
    }

    /** Path.exists() (without following links). */
    function Exists(p: Path): (r: bool)
      reads this
    {
      p in entries
    }

    /** os.listdir(p): it lists exactly when `p` is a directory, and then gives the names of the
        entries directly inside; otherwise it raises for what is there instead. */
    method ListDir(p: Path) returns (r: Result<set<string>, FsError>)
      ensures r.Success? <==> Lookup(entries, p) == Some(Dir)
      ensures r.Success? ==> (forall n :: n in r.value <==> p + [n] in entries) && r.value == Children(entries, p)
      ensures Lookup(entries, p).None? ==> r == Failure(NotFound(p))
      ensures Lookup(entries, p).Some? && Lookup(entries, p).value.File? ==> r == Failure(NotADirectory(p))
      ensures Lookup(entries, p).Some? && Lookup(entries, p).value.Link? ==> r == Failure(LinkNotFollowed(p))
    {
      r := ListDirResult(entries, p);
      forall n ensures n in Children(entries, p) <==> p + [n] in entries {
        ChildIff(entries, p, n);
      }
    }

    /** open(p).read(): it reads exactly when `p` is a file, and then gives its text; otherwise
        it raises for what is there instead. */
    method Read(p: Path) returns (r: Result<string, FsError>)
      ensures r.Success? <==> Lookup(entries, p).Some? && Lookup(entries, p).value.File?
      ensures r.Success? ==> r.value == Lookup(entries, p).value.content
      ensures Lookup(entries, p).None? ==> r == Failure(NotFound(p))
      ensures Lookup(entries, p) == Some(Dir) ==> r == Failure(IsADirectory(p))
      ensures Lookup(entries, p).Some? && Lookup(entries, p).value.Link? ==> r == Failure(LinkNotFollowed(p))
    {
      r := ReadFile(entries, p);
    }

    method Write(p: Path, text: string, append: bool) returns (r: Outcome<FsError>)
      requires Valid()
      modifies this
      ensures Valid()
      ensures Took(old(entries), WriteFile(old(entries), p, text, append), entries, r)
    {
      var res := WriteFile(entries, p, text, append);
      if res.Success? {
        WriteFileWellFormed(entries, p, text, append);
        entries := res.value;
        r := Pass;
      } else {
        r := Fail(res.error);
      }
    }

    method Touch(p: Path) returns (r: Outcome<FsError>)
      requires Valid()
      modifies this
      ensures Valid()
      ensures Took(old(entries), TouchFile(old(entries), p), entries, r)
    {
      var res := TouchFile(entries, p);
      if res.Success? {
        TouchFileWellFormed(entries, p);
        entries := res.value;
        r := Pass;
      } else {
        r := Fail(res.error);
      }
    }

    method MkDirs(p: Path) returns (r: Outcome<FsError>)
      requires Valid()
      modifies this
      ensures Valid()
      ensures Took(old(entries), MkDirsAt(old(entries), p), entries, r)
    {
      var res := MkDirsAt(entries, p);
      if res.Success? {
        MkDirsAtWellFormed(entries, p);
        entries := res.value;
        r := Pass;
      } else {
        r := Fail(res.error);
      }
    }

    method Unlink(p: Path, missingOk: bool) returns (r: Outcome<FsError>)
      requires Valid()
      modifies this
      ensures Valid()
      ensures Took(old(entries), UnlinkAt(old(entries), p, missingOk), entries, r)
    {
      var res := UnlinkAt(entries, p, missingOk);
      if res.Success? {
        UnlinkAtWellFormed(entries, p, missingOk);
        entries := res.value;
        r := Pass;
      } else {
        r := Fail(res.error);
      }
    }

    method Symlink(link: Path, target: Path)
      requires Valid()
      modifies this
      ensures Valid()
      ensures entries == SymlinkAt(old(entries), link, target)
    {
      SymlinkAtWellFormed(entries, link, target);
      entries := SymlinkAt(entries, link, target);
    }

    method RemoveAll(p: Path)
      requires Valid()
      modifies this
      ensures Valid()
      ensures entries == RemoveTree(old(entries), p)
    {
      RemoveTreeWellFormed(entries, p);
      entries := RemoveTree(entries, p);
    }

    method Move(src: Path, dir: Path) returns (r: Outcome<FsError>)
      requires Valid()
      modifies this
      ensures Valid()
      ensures Took(old(entries), MoveInto(old(entries), src, dir), entries, r)
    {
      var res := MoveInto(entries, src, dir);
      if res.Success? {
        MoveIntoWellFormed(entries, src, dir);
        entries := res.value;
        r := Pass;
      } else {
        r := Fail(res.error);
      }
    }

    method RmDir(p: Path) returns (r: Outcome<FsError>)
      requires Valid()
      modifies this
      ensures Valid()
      ensures Took(old(entries), RmDirAt(old(entries), p), entries, r)
    {
      var res := RmDirAt(entries, p);
      if res.Success? {
        RmDirAtWellFormed(entries, p);
        entries := res.value;
        r := Pass;
      } else {
        r := Fail(res.error);
      }
    }

    /** An external tool that unpacks `tree` into `dst`. */
    method Unpack(dst: Path, tree: Tree)
      requires Valid() && FitsUnder(entries, dst, tree)
      modifies this
      ensures Valid()
      ensures entries == Overlay(old(entries), dst, tree)
    {
      OverlayWellFormed(entries, dst, tree);
      entries := Overlay(entries, dst, tree);
    }

    /** `mv src dst` for a file `src` and a name `dst` with no directory at it. */
    method MoveFile(src: Path, dst: Path)
      requires Valid() && CanRelocate(entries, src, dst)
      modifies this
      ensures Valid()
      ensures entries == Relocated(old(entries), src, dst, old(entries)[src])
    {
      RelocatedWellFormed(entries, src, dst, entries[src]);
      entries := Relocated(entries, src, dst, entries[src]);
    }

    /** An external tool that turns the file `src` into the file `dst` holding `text`. */
    method Convert(src: Path, dst: Path, text: string)
      requires Valid() && CanRelocate(entries, src, dst)
      modifies this
      ensures Valid()
      ensures entries == Relocated(old(entries), src, dst, File(text))
    {
      RelocatedWellFormed(entries, src, dst, File(text));
      entries := Relocated(entries, src, dst, File(text));
    }
  }
}
