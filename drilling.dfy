/** `_drill_singleton_dirs`: while a directory holds exactly one entry, move everything inside
    that entry up into the directory and remove the emptied entry.

    The specification works on the tree as it was before drilling: `DrillSpec` follows the chain
    of singleton directories below `p` and says where drilling stops and what it raises, and
    `Rebase` is the tree with the contents at the end of that chain lifted up to `p`. */
module Drilling {
  import opened Wrappers
  import opened Files

  /** Where drilling stops: the chain of names it lifted, and what it raised, if anything. */
  datatype Drill = Drill(chain: Path, error: Option<FsError>)

  /** Drilling stopped at an entry named like the directory it sits in (shutil.move refuses to
      overwrite it), having moved an unspecified part of its siblings already. */
  predicate IsClash(d: Drill)
  {
    d.error.Some? && d.error.value.AlreadyExists?
  }

  function KeysBelow(t: Tree, q: Path): set<Path>
  {
    set k | k in t && q < k
  }

  lemma {:induction false} KeysBelowShrink(t: Tree, q: Path, s: string)
    requires q + [s] in t
    ensures KeysBelow(t, q + [s]) < KeysBelow(t, q)
  {
    forall k | k in KeysBelow(t, q + [s]) ensures k in KeysBelow(t, q) {
      assert k[..|q|] == (q + [s])[..|q|];
    }
    assert q + [s] in KeysBelow(t, q);
  }

  lemma {:induction false} SingletonIs(s: set<string>, x: string)
    requires |s| == 1 && x in s
    ensures s == {x}
  {
    assert |s - {x}| == 0;
  }

  /** The one element of a one-element listing. */
  ghost function TheOnly(s: set<string>): (r: string)
    requires |s| == 1
    ensures s == {r}
  {
    assert s != {};
    var x :| x in s;
    SingletonIs(s, x);
    x
  }

  /** `k` below `p` splits into `p`, the name directly below `p`, and the rest. */
  lemma {:induction false} SplitBelow(p: Path, k: Path)
    requires p < k
    ensures k == p + k[|p|..] && k[|p|..] == [k[|p|]] + k[|p| + 1..] && p + [k[|p|]] <= k
  {
    assert k[..|p|] == p;
    assert k[..|p|] + k[|p|..] == k;
  }

  /** `k` lies within an absent child `q/n`, so it is absent too. */
  lemma {:induction false} AbsentWithin(t: Tree, q: Path, n: string, k: Path)
    requires WellFormed(t) && n !in Children(t, q) && q + [n] <= k
    ensures Lookup(t, k) == None
  {
    ChildIff(t, q, n);
    NothingWithinAbsent(t, q + [n]);
  }

  // ------------------------------------------------------------ the lifted tree

  /** `t` with everything below `p + c` lifted up to `p`: entries outside `p` stay, and below `p`
      the tree now shows what was below `p + c`. */
  function Rebase(t: Tree, p: Path, c: Path): Tree
  {
    var q := p + c;
    Overlay(map k | k in t && !(p < k) :: t[k], p,
      map r | r in Tails(t, q) && r != [] && q + r in t :: t[q + r])
  }

  function RebasedAt(t: Tree, p: Path, c: Path, k: Path): Option<Node>
  {
    if p < k then Lookup(t, p + c + k[|p|..]) else Lookup(t, k)
  }

  lemma {:induction false} RebaseLookup(t: Tree, p: Path, c: Path, k: Path)
    ensures Lookup(Rebase(t, p, c), k) == RebasedAt(t, p, c, k)
  {
    var q := p + c;
    var kept := map k | k in t && !(p < k) :: t[k];
    var lifted := map r | r in Tails(t, q) && r != [] && q + r in t :: t[q + r];
    OverlayLookup(kept, p, lifted, k);
    if p <= k {
      var r := k[|p|..];
      if r == [] {
        assert k == p;
      } else {
        assert p < k;
        if q + r in t {
          var j := q + r;
          assert j[|q|..] == r;
          assert r in Tails(t, q);
        }
      }
    }
  }

  /** Lifting keeps a tree a tree as long as `p` is a directory. */
  lemma {:induction false} RebaseWellFormed(t: Tree, p: Path, c: Path)
    requires WellFormed(t) && Lookup(t, p) == Some(Dir)
    ensures WellFormed(Rebase(t, p, c))
  {
    var t' := Rebase(t, p, c);
    forall k | k in t' && k != [] ensures Lookup(t', Parent(k)) == Some(Dir) {
      RebaseLookup(t, p, c, k);
      RebaseLookup(t, p, c, Parent(k));
      if p < k {
        var from := p + c + k[|p|..];
        assert from in t && from != [];
        if |k| > |p| + 1 {
          assert p < Parent(k);
          assert Parent(from) == p + c + Parent(k)[|p|..];
        } else {
          assert Parent(k) == p;
        }
      }
    }
  }

  /** Lifting below `p` leaves `p` and everything outside it alone. */
  lemma {:induction false} RebaseOutside(t: Tree, p: Path, c: Path)
    ensures forall k :: !(p < k) ==> Lookup(Rebase(t, p, c), k) == Lookup(t, k)
  {
    forall k | !(p < k) ensures Lookup(Rebase(t, p, c), k) == Lookup(t, k) {
      RebaseLookup(t, p, c, k);
    }
  }

  lemma {:induction false} RebaseNothing(t: Tree, p: Path)
    ensures Rebase(t, p, []) == t
  {
    forall k ensures Lookup(Rebase(t, p, []), k) == Lookup(t, k) {
      RebaseLookup(t, p, [], k);
      if p < k {
        SplitBelow(p, k);
        assert p + [] + k[|p|..] == k;
      }
    }
    Extensionality(Rebase(t, p, []), t);
  }

  /** Listing a directory at or below `p` after lifting lists the matching place before it. */
  lemma {:induction false} ChildrenRebase(t: Tree, p: Path, c: Path, q: Path)
    requires p <= q
    ensures Children(Rebase(t, p, c), q) == Children(t, p + c + q[|p|..])
  {
    forall n ensures n in Children(Rebase(t, p, c), q) <==> n in Children(t, p + c + q[|p|..]) {
      ChildIff(Rebase(t, p, c), q, n);
      ChildIff(t, p + c + q[|p|..], n);
      var k := q + [n];
      RebaseLookup(t, p, c, k);
      assert p < k;
      assert k[|p|..] == q[|p|..] + [n];
      assert p + c + k[|p|..] == p + c + q[|p|..] + [n];
    }
  }

  // ------------------------------------------------------------ the specification

  /** What lifting the single entry `s` of `p + c` raises: listing it fails unless it is a
      directory, and moving its entry named `s` up finds `p/s` in the way. */
  ghost function StepError(t: Tree, p: Path, c: Path, s: string): Option<FsError>
  {
    match Lookup(t, p + c + [s])
    case None => Some(NotFound(p + [s]))
    case Some(File(_)) => Some(NotADirectory(p + [s]))
    case Some(Link(_)) => Some(LinkNotFollowed(p + [s]))
    case Some(Dir) => if s in Children(t, p + c + [s]) then Some(AlreadyExists(p + [s])) else None
  }

  /** Drilling from `p + c`, the names in `c` having been lifted already. */
  ghost function DrillFrom(t: Tree, p: Path, c: Path): Drill
    requires WellFormed(t) && Lookup(t, p + c) == Some(Dir)
    decreases KeysBelow(t, p + c)
  {
    var kids := Children(t, p + c);
    if |kids| != 1 then Drill(c, None)
    else
      var s := TheOnly(kids);
      match StepError(t, p, c, s)
      case Some(e) => Drill(c, Some(e))
      case None =>
        KeysBelowShrink(t, p + c, s);
        assert p + (c + [s]) == p + c + [s];
        DrillFrom(t, p, c + [s])
  }

  /** Drilling `p`: listing `p` itself may fail first. */
  ghost function DrillSpec(t: Tree, p: Path): Drill
    requires WellFormed(t)
  {
    match Lookup(t, p)
    case None => Drill([], Some(NotFound(p)))
    case Some(File(_)) => Drill([], Some(NotADirectory(p)))
    case Some(Link(_)) => Drill([], Some(LinkNotFollowed(p)))
    case Some(Dir) =>
      assert p + [] == p;
      DrillFrom(t, p, [])
  }

  // ------------------------------------------------------------ one drilling step

  /** What the tree holds at `k` while the entries named in `M` have been moved from `p/s` up to
      `p`, the tree having been `Rebase(t, p, c)` when the step began. */
  function Moving(t: Tree, p: Path, c: Path, s: string, M: set<string>, k: Path): Option<Node>
  {
    if p < k && k[|p|] in M then Lookup(t, p + c + [s] + k[|p|..])
    else if p + [s] < k && k[|p| + 1] in M then None
    else RebasedAt(t, p, c, k)
  }

  /** Outside `p` a drilling step changes nothing. */
  lemma {:induction false} MovingOutside(t: Tree, p: Path, c: Path, s: string, M: set<string>, k: Path)
    requires !(p < k)
    ensures Moving(t, p, c, s, M, k) == Lookup(t, k)
  {
  }

  /** The step's invariant facts about the original tree. */
  ghost predicate StepReady(t: Tree, p: Path, c: Path, s: string)
  {
    && WellFormed(t)
    && Lookup(t, p) == Some(Dir)
    && Children(t, p + c) == {s}
    && Lookup(t, p + c + [s]) == Some(Dir)
  }

  lemma {:induction false} ClashAt(t: Tree, p: Path, c: Path, s: string, M: set<string>, cur: Tree)
    requires StepReady(t, p, c, s) && s !in M
    requires forall k :: Lookup(cur, k) == Moving(t, p, c, s, M, k)
    ensures MoveInto(cur, p + [s, s], p) == Failure(AlreadyExists(p + [s]))
  {
    assert Lookup(cur, p) == Some(Dir) by {
      assert Lookup(cur, p) == Moving(t, p, c, s, M, p);
      MovingOutside(t, p, c, s, M, p);
    }
    var dst := p + [s];
    assert Lookup(cur, dst) == Moving(t, p, c, s, M, dst);
    assert dst[|p|..] == [s];
    assert (p + [s, s])[|p + [s, s]| - 1] == s;
  }

  lemma {:induction false} MoveStepAt(t: Tree, p: Path, c: Path, s: string, M: set<string>, f: string, cur: Tree, k: Path)
    requires s !in M && f != s && f !in M
    requires Lookup(cur, k) == Moving(t, p, c, s, M, k)
    requires p + [f] <= k ==>
      Lookup(cur, p + [s, f] + k[|p + [f]|..]) == Moving(t, p, c, s, M, p + [s, f] + k[|p + [f]|..])
    ensures RenamedAt(cur, p + [s, f], p + [f], k) == Moving(t, p, c, s, M + {f}, k)
  {
    var src := p + [s, f];
    var dst := p + [f];
    if dst <= k {
      var rest := k[|dst|..];
      assert k == dst + rest;
      assert p < k && k[|p|] == f && k[|p|..] == [f] + rest;
      var j := src + rest;
      assert p < j && j[|p|] == s && p + [s] < j && j[|p| + 1] == f;
      assert j[|p|..] == [s] + ([f] + rest);
      assert p + c + j[|p|..] == p + c + [s] + ([f] + rest);
    } else if src <= k {
      assert p < k && k[|p|] == s && p + [s] < k && k[|p| + 1] == f;
    } else {
      if p < k {
        SplitBelow(p, k);
      }
      if p + [s] < k {
        SplitBelow(p + [s], k);
        assert p + [s] + [k[|p| + 1]] == p + [s, k[|p| + 1]];
      }
    }
  }

  lemma {:induction false} MoveStep(t: Tree, p: Path, c: Path, s: string, M: set<string>, f: string, cur: Tree)
    requires StepReady(t, p, c, s) && s !in M && f != s && f !in M
    requires f in Children(t, p + c + [s])
    requires forall j :: Lookup(cur, j) == Moving(t, p, c, s, M, j)
    ensures MoveInto(cur, p + [s, f], p).Success?
    ensures forall k :: Lookup(MoveInto(cur, p + [s, f], p).value, k) == Moving(t, p, c, s, M + {f}, k)
  {
    var src := p + [s, f];
    var dst := p + [f];
    assert Lookup(cur, p) == Some(Dir) by {
      assert Lookup(cur, p) == Moving(t, p, c, s, M, p);
      MovingOutside(t, p, c, s, M, p);
    }
    forall j | j in cur && dst <= j ensures false {
      assert Lookup(cur, j) == Moving(t, p, c, s, M, j);
      assert p < j && j[|p|] == f;
      SplitBelow(p, j);
      var w := p + c + j[|p|..];
      assert Lookup(t, w) != None;
      assert p + c + [f] <= w;
      AbsentWithin(t, p + c, f, w);
    }
    assert src[|src| - 1] == f;
    assert dst !in cur;
    assert src in cur by {
      ChildIff(t, p + c + [s], f);
      assert Lookup(cur, src) == Moving(t, p, c, s, M, src);
      assert p < src && src[|p|] == s && p + [s] < src && src[|p| + 1] == f;
      assert src[|p|..] == [s, f];
      assert p + c + [s, f] == p + c + [s] + [f];
    }
    assert !(src <= dst);
    forall k ensures Lookup(RenameTree(cur, src, dst), k) == Moving(t, p, c, s, M + {f}, k) {
      RenameTreeLookup(cur, src, dst, k);
      if dst <= k {
        assert Lookup(cur, src + k[|dst|..]) == Moving(t, p, c, s, M, src + k[|dst|..]);
      }
      MoveStepAt(t, p, c, s, M, f, cur, k);
    }
  }

  /** Below `p`, once all of `F` = the names in `p/s` have moved up and `p/s` is gone, the tree
      shows what the original held one level further down. */
  lemma {:induction false} StepDoneAt(t: Tree, p: Path, c: Path, s: string, F: set<string>, k: Path)
    requires WellFormed(t) && F == Children(t, p + c + [s]) && s !in F
    requires forall x :: x in Children(t, p + c) ==> x == s
    ensures (if k == p + [s] then None else Moving(t, p, c, s, F, k)) == RebasedAt(t, p, c + [s], k)
  {
    var q := p + c + [s];
    assert p + (c + [s]) == q;
    if k == p + [s] {
      assert k[|p|..] == [s];
      AbsentWithin(t, q, s, q + [s]);
    } else if p < k {
      SplitBelow(p, k);
      var x := k[|p|];
      var rest := k[|p| + 1..];
      assert p + c + [s] + k[|p|..] == q + [x] + rest;
      if x !in F {
        AbsentWithin(t, q, x, q + [x] + rest);
        if x == s {
          StepDoneBelowSingleton(t, p, c, s, F, k);
        } else {
          assert !(p + [s] < k);
          assert p + c + k[|p|..] == p + c + [x] + rest;
          AbsentWithin(t, p + c, x, p + c + [x] + rest);
        }
      }
    }
  }

  lemma {:induction false} StepDoneBelowSingleton(t: Tree, p: Path, c: Path, s: string, F: set<string>, k: Path)
    requires WellFormed(t) && F == Children(t, p + c + [s]) && s !in F
    requires p + [s] < k
    ensures Moving(t, p, c, s, F, k) == None || k[|p| + 1] in F
    ensures k[|p| + 1] !in F ==> RebasedAt(t, p, c, k) == None
  {
    var q := p + c + [s];
    SplitBelow(p + [s], k);
    var y := k[|p| + 1];
    var rest := k[|p| + 2..];
    assert k[|p|..] == [s, y] + rest;
    assert p + c + k[|p|..] == q + [y] + rest;
    if y !in F {
      AbsentWithin(t, q, y, q + [y] + rest);
    }
  }

  lemma {:induction false} StepDoneEmpty(t: Tree, p: Path, c: Path, s: string, F: set<string>, cur: Tree)
    requires StepReady(t, p, c, s) && F == Children(t, p + c + [s]) && s !in F
    requires forall k :: Lookup(cur, k) == Moving(t, p, c, s, F, k)
    ensures Lookup(cur, p + [s]) == Some(Dir) && Children(cur, p + [s]) == {}
  {
    var d := p + [s];
    assert Lookup(cur, d) == Moving(t, p, c, s, F, d);
    assert d[|p|..] == [s];
    forall n ensures Lookup(cur, d + [n]) == None {
      var k := d + [n];
      assert Lookup(cur, k) == Moving(t, p, c, s, F, k);
      assert p < k && k[|p|] == s && p + [s] < k && k[|p| + 1] == n;
      assert k[|p|..] == [s, n];
      assert p + c + [s, n] == p + c + [s] + [n];
      ChildIff(t, p + c + [s], n);
    }
    forall n ensures n !in Children(cur, d) {
      ChildIff(cur, d, n);
    }
  }

  lemma {:induction false} StepDone(t: Tree, p: Path, c: Path, s: string, F: set<string>, cur: Tree)
    requires StepReady(t, p, c, s) && F == Children(t, p + c + [s]) && s !in F
    requires forall k :: Lookup(cur, k) == Moving(t, p, c, s, F, k)
    ensures RmDirAt(cur, p + [s]) == Success(Rebase(t, p, c + [s]))
  {
    var d := p + [s];
    StepDoneEmpty(t, p, c, s, F, cur);
    var after := cur - {d};
    forall k ensures Lookup(after, k) == Lookup(Rebase(t, p, c + [s]), k) {
      StepDoneAt(t, p, c, s, F, k);
      RebaseLookup(t, p, c + [s], k);
      assert Lookup(cur, k) == Moving(t, p, c, s, F, k);
      assert Lookup(after, k) == if k == d then None else Lookup(cur, k);
    }
    Extensionality(after, Rebase(t, p, c + [s]));
  }

  // ------------------------------------------------------------ the loops

  /** The inner loop: move every entry of `p/s` (listed as `names`) up into `p`, in any order. */
  method MoveUp(fs: FileSystem, p: Path, s: string, names: set<string>, ghost t: Tree, ghost c: Path)
    returns (r: Outcome<FsError>)
    requires fs.Valid() && StepReady(t, p, c, s) && names == Children(t, p + c + [s])
    requires forall k :: Lookup(fs.entries, k) == RebasedAt(t, p, c, k)
    modifies fs
    ensures fs.Valid()
    ensures r == Pass ==> s !in names && forall k :: Lookup(fs.entries, k) == Moving(t, p, c, s, names, k)
    ensures r.Fail? ==> s in names && r.error == AlreadyExists(p + [s])
    ensures forall k :: !(p < k) ==> Lookup(fs.entries, k) == Lookup(t, k)
  {
    var todo := names;
    ghost var moved: set<string> := {};
    while todo != {}
      invariant fs.Valid()
      invariant todo + moved == names && todo !! moved && s !in moved
      invariant forall k :: Lookup(fs.entries, k) == Moving(t, p, c, s, moved, k)
      decreases todo
    {
      var f :| f in todo;
      if f == s {
        ClashAt(t, p, c, s, moved, fs.entries);
      } else {
        MoveStep(t, p, c, s, moved, f, fs.entries);
      }
      var m := fs.Move(p + [s, f], p);
      if m.Fail? {
        r := m;
        forall k | !(p < k) ensures Lookup(fs.entries, k) == Lookup(t, k) {
          MovingOutside(t, p, c, s, moved, k);
        }
        return;
      }
      todo := todo - {f};
      moved := moved + {f};
    }
    r := Pass;
    forall k | !(p < k) ensures Lookup(fs.entries, k) == Lookup(t, k) {
      MovingOutside(t, p, c, s, moved, k);
    }
  }


  lemma {:induction false} DrillFromStep(t: Tree, p: Path, c: Path, s: string)
    requires WellFormed(t) && Lookup(t, p + c) == Some(Dir) && Children(t, p + c) == {s}
    requires StepError(t, p, c, s) == None
    ensures Lookup(t, p + (c + [s])) == Some(Dir)
    ensures DrillFrom(t, p, c) == DrillFrom(t, p, c + [s])
    ensures KeysBelow(t, p + (c + [s])) < KeysBelow(t, p + c)
  {
    ChildIff(t, p + c, s);
    KeysBelowShrink(t, p + c, s);
    assert p + (c + [s]) == p + c + [s];
  }

  /** Drilling starts where listing `p` succeeds, and raises what listing `p` raises. */
  lemma {:induction false} DrillSpecStart(t: Tree, p: Path)
    requires WellFormed(t)
    ensures ListDirResult(t, p).Failure? ==> DrillSpec(t, p) == Drill([], Some(ListDirResult(t, p).error))
    ensures ListDirResult(t, p).Success? ==>
      p + [] == p && Lookup(t, p + []) == Some(Dir) && DrillSpec(t, p) == DrillFrom(t, p, []) &&
      ListDirResult(t, p).value == Children(t, p + [])
  {
    assert p + [] == p;
  }

  lemma {:induction false} DrillFromDone(t: Tree, p: Path, c: Path)
    requires WellFormed(t) && Lookup(t, p + c) == Some(Dir) && |Children(t, p + c)| != 1
    ensures DrillFrom(t, p, c) == Drill(c, None)
  {
  }

  lemma {:induction false} DrillFromStop(t: Tree, p: Path, c: Path, s: string)
    requires WellFormed(t) && Lookup(t, p + c) == Some(Dir) && Children(t, p + c) == {s}
    requires StepError(t, p, c, s).Some?
    ensures DrillFrom(t, p, c) == Drill(c, StepError(t, p, c, s))
  {
  }

  /** After lifting, `p` lists what the end of the chain listed. */
  lemma {:induction false} ListAfter(t: Tree, p: Path, c: Path)
    requires Lookup(t, p) == Some(Dir)
    ensures ListDirResult(Rebase(t, p, c), p) == Success(Children(t, p + c))
  {
    RebaseLookup(t, p, c, p);
    ChildrenRebase(t, p, c, p);
    assert p + c + p[|p|..] == p + c;
  }

  /** One pass of the outer loop: list the single entry `s` of `p`, move its entries up, remove it.
      The tree is `Rebase(t, p, c)` before, and `Rebase(t, p, c + [s])` after a pass that raises
      nothing; a pass that fails on listing changes nothing; none changes anything outside `p`. */
  method LiftSingleton(fs: FileSystem, p: Path, s: string, ghost t: Tree, ghost c: Path)
    returns (r: Outcome<FsError>)
    requires fs.Valid() && WellFormed(t) && Lookup(t, p) == Some(Dir) && Lookup(t, p + c) == Some(Dir)
    requires Children(t, p + c) == {s} && fs.entries == Rebase(t, p, c)
    modifies fs
    ensures fs.Valid()
    ensures r == Pass <==> StepError(t, p, c, s) == None
    ensures r.Fail? ==> StepError(t, p, c, s) == Some(r.error)
    ensures r == Pass ==> fs.entries == Rebase(t, p, c + [s])
    ensures r.Fail? && !r.error.AlreadyExists? ==> fs.entries == Rebase(t, p, c)
    ensures forall k :: !(p < k) ==> Lookup(fs.entries, k) == Lookup(t, k)
  {
    forall k ensures Lookup(fs.entries, k) == RebasedAt(t, p, c, k) {
      RebaseLookup(t, p, c, k);
    }
    var inner := fs.ListDir(p + [s]);
    ListedStep(t, p, c, s);
    if inner.Failure? {
      r := Fail(inner.error);
      return;
    }
    r := MoveUp(fs, p, s, inner.value, t, c);
    if r == Pass {
      StepDone(t, p, c, s, inner.value, fs.entries);
      r := fs.RmDir(p + [s]);
      RebaseOutside(t, p, c + [s]);
    }
  }

  /** Listing the only child `p/s` of the partly lifted tree raises what the step raises;
      when it lists, the step is ready and raises only the clash of a grandchild named `s`. */
  lemma {:induction false} ListedStep(t: Tree, p: Path, c: Path, s: string)
    requires WellFormed(t) && Lookup(t, p) == Some(Dir) && Lookup(t, p + c) == Some(Dir)
    requires Children(t, p + c) == {s}
    ensures var l := ListDirResult(Rebase(t, p, c), p + [s]);
      l.Failure? ==> StepError(t, p, c, s) == Some(l.error)
    ensures var l := ListDirResult(Rebase(t, p, c), p + [s]);
      l.Success? ==> StepReady(t, p, c, s) && l.value == Children(t, p + c + [s])
    ensures var l := ListDirResult(Rebase(t, p, c), p + [s]);
      l.Success? ==> StepError(t, p, c, s) == if s in l.value then Some(AlreadyExists(p + [s])) else None
  {
    ChildIff(t, p + c, s);
    RebaseLookup(t, p, c, p + [s]);
    assert (p + [s])[|p|..] == [s];
    ChildrenRebase(t, p, c, p + [s]);
  }

  /** The drilling loop on the host filesystem. It raises what `DrillSpec` says; unless it stopped
      at a clash, the tree is then the lifted tree; and nothing outside `p` changes. */
  method DrillSingletonDirs(fs: FileSystem, p: Path) returns (r: Outcome<FsError>)
    requires fs.Valid()
    modifies fs
    ensures fs.Valid()
    ensures r == Pass <==> DrillSpec(old(fs.entries), p).error == None
    ensures r.Fail? ==> DrillSpec(old(fs.entries), p).error == Some(r.error)
    ensures !IsClash(DrillSpec(old(fs.entries), p)) ==>
      fs.entries == Rebase(old(fs.entries), p, DrillSpec(old(fs.entries), p).chain)
    ensures forall k :: !(p < k) ==> Lookup(fs.entries, k) == Lookup(old(fs.entries), k)
  {
    ghost var orig := fs.entries;
    RebaseNothing(orig, p);
    var listing := fs.ListDir(p);
    DrillSpecStart(orig, p);
    if listing.Failure? {
      r := Fail(listing.error);
      return;
    }
    ghost var c: Path := [];
    var names := listing.value;
    while |names| == 1
      invariant fs.Valid() && fs.entries == Rebase(orig, p, c)
      invariant Lookup(orig, p + c) == Some(Dir)
      invariant names == Children(orig, p + c)
      invariant DrillFrom(orig, p, c) == DrillSpec(orig, p)
      invariant forall k :: !(p < k) ==> Lookup(fs.entries, k) == Lookup(orig, k)
      decreases KeysBelow(orig, p + c)
    {
      var s :| s in names;
      SingletonIs(names, s);
      r := LiftSingleton(fs, p, s, orig, c);
      if r.Fail? {
        DrillFromStop(orig, p, c, s);
        return;
      }
      DrillFromStep(orig, p, c, s);
      c := c + [s];
      ListAfter(orig, p, c);
      var again := fs.ListDir(p);
      names := again.value;
    }
    DrillFromDone(orig, p, c);
    r := Pass;
  }
}
