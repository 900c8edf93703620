/** What drilling promises, proved about its specification: it changes nothing when the directory
    does not hold exactly one entry, it stops at a count other than one, it loses and duplicates
    no entry, and how the nested cases come out. */
module DrillingFacts {
  import opened Wrappers
  import opened Files
  import opened Drilling

  /** `ch` names a chain of directories below `q`, each the only entry of the one before. */
  ghost predicate SingletonChain(t: Tree, q: Path, ch: Path)
    decreases |ch|
  {
    ch == [] || (Children(t, q) == {ch[0]} && SingletonChain(t, q + [ch[0]], ch[1..]))
  }

  lemma {:induction false} DrillFromFacts(t: Tree, p: Path, c: Path)
    requires WellFormed(t) && Lookup(t, p + c) == Some(Dir)
    ensures var d := DrillFrom(t, p, c);
      && c <= d.chain
      && Lookup(t, p + d.chain) == Some(Dir)
      && SingletonChain(t, p + c, d.chain[|c|..])
      && (d.error == None <==> |Children(t, p + d.chain)| != 1)
    decreases KeysBelow(t, p + c)
  {
    var kids := Children(t, p + c);
    if |kids| == 1 {
      var s := TheOnly(kids);
      if StepError(t, p, c, s) == None {
        DrillFromStep(t, p, c, s);
        DrillFromFacts(t, p, c + [s]);
        var d := DrillFrom(t, p, c + [s]);
        assert p + (c + [s]) == p + c + [s];
        assert d.chain[|c|..] == [s] + d.chain[|c| + 1..];
        assert d.chain[|c|..][1..] == d.chain[|c + [s]|..];
      } else {
        DrillFromStop(t, p, c, s);
        assert c[|c|..] == [];
      }
    } else {
      assert c[|c|..] == [];
    }
  }

  /** The facts about drilling a directory `p`, drawn from its chain. */
  lemma {:induction false} DrillSpecFacts(t: Tree, p: Path)
    requires WellFormed(t) && Lookup(t, p) == Some(Dir)
    ensures var d := DrillSpec(t, p);
      && Lookup(t, p + d.chain) == Some(Dir)
      && SingletonChain(t, p, d.chain)
      && (d.error == None <==> |Children(t, p + d.chain)| != 1)
  {
    assert p + [] == p;
    DrillFromFacts(t, p, []);
    var d := DrillSpec(t, p);
    assert d.chain[0..] == d.chain;
  }

  /** With zero or two and more entries, drilling raises nothing and changes nothing. */
  lemma {:induction false} DrillNoOp(t: Tree, p: Path)
    requires WellFormed(t) && Lookup(t, p) == Some(Dir) && |Children(t, p)| != 1
    ensures DrillSpec(t, p) == Drill([], None)
    ensures Rebase(t, p, DrillSpec(t, p).chain) == t
  {
    assert p + [] == p;
    RebaseNothing(t, p);
  }

  /** When drilling raises nothing, the directory it leaves does not hold exactly one entry. */
  lemma {:induction false} DrillExitCount(t: Tree, p: Path)
    requires WellFormed(t) && Lookup(t, p) == Some(Dir) && DrillSpec(t, p).error == None
    ensures |Children(Rebase(t, p, DrillSpec(t, p).chain), p)| != 1
  {
    DrillSpecFacts(t, p);
    ChildrenRebase(t, p, DrillSpec(t, p).chain, p);
    assert p + DrillSpec(t, p).chain + p[|p|..] == p + DrillSpec(t, p).chain;
  }

  /** What lies below `q` and is not a directory lies below the whole chain. */
  lemma {:induction false} ChainCovers(t: Tree, q: Path, ch: Path, k: Path)
    requires WellFormed(t) && SingletonChain(t, q, ch) && Lookup(t, q + ch) == Some(Dir)
    requires k in t && q < k && t[k] != Dir
    ensures q + ch < k
    decreases |ch|
  {
    if ch == [] {
      assert q + ch == q;
    } else {
      var n := ch[0];
      var q' := q + [n];
      BelowHasChild(t, q, k);
      assert k[|q|] == n;
      assert q' <= k by { assert k[..|q'|] == k[..|q|] + [k[|q|]]; }
      assert Lookup(t, q') == Some(Dir) by {
        if |ch| == 1 {
          assert q + ch == q';
        } else {
          assert q' + ch[1..] == q + ch;
          AncestorIsDir(t, q + ch, q');
        }
      }
      assert q' != k;
      assert q' + ch[1..] == q + ch;
      ChainCovers(t, q', ch[1..], k);
    }
  }

  /** An entry below `q` that is not below the whole chain is one of the chain's directories. */
  lemma {:induction false} ChainRest(t: Tree, q: Path, ch: Path, k: Path)
    requires WellFormed(t) && SingletonChain(t, q, ch) && Lookup(t, q + ch) == Some(Dir)
    requires k in t && q < k && !(q + ch < k)
    ensures k <= q + ch && t[k] == Dir
    decreases |ch|
  {
    if ch == [] {
      assert false;
    } else {
      var n := ch[0];
      var q' := q + [n];
      BelowHasChild(t, q, k);
      assert k[|q|] == n;
      assert q' <= k by { assert k[..|q'|] == k[..|q|] + [k[|q|]]; }
      assert q' + ch[1..] == q + ch;
      if q' == k {
        assert k <= q + ch;
        if |ch| > 1 {
          ChildIff(t, q', ch[1]);
          AncestorIsDir(t, q' + [ch[1]], q');
        } else {
          assert q + ch == q';
        }
      } else {
        ChainRest(t, q', ch[1..], k);
      }
    }
  }

  /** Drilling neither loses nor duplicates entries. Every entry below the end of the chain
      reappears at one place below `p`, with the same contents; every entry below `p` afterwards
      is one of those; the only entries that go are the chain's directories themselves; and
      every file and link below `p` lies below the end of the chain. */
  lemma {:induction false} DrillKeepsEntries(t: Tree, p: Path)
    requires WellFormed(t) && Lookup(t, p) == Some(Dir) && !IsClash(DrillSpec(t, p))
    ensures var ch := DrillSpec(t, p).chain; var after := Rebase(t, p, ch);
      && (forall k :: k in t && p + ch < k ==> Lookup(after, p + k[|p + ch|..]) == Some(t[k]))
      && (forall k :: k in after && p < k ==> Lookup(t, p + ch + k[|p|..]) == Some(after[k]))
      && (forall k :: k in t && p < k && !(p + ch < k) ==> t[k] == Dir && k <= p + ch)
      && (forall k :: k in t && p < k && t[k] != Dir ==> p + ch < k)
      && (forall k :: !(p < k) ==> Lookup(after, k) == Lookup(t, k))
  {
    var ch := DrillSpec(t, p).chain;
    var after := Rebase(t, p, ch);
    DrillSpecFacts(t, p);
    forall k | k in t && p + ch < k ensures Lookup(after, p + k[|p + ch|..]) == Some(t[k]) {
      var r := k[|p + ch|..];
      RebaseLookup(t, p, ch, p + r);
      assert (p + r)[|p|..] == r;
      assert p + ch + r == k;
    }
    forall k | k in after && p < k ensures Lookup(t, p + ch + k[|p|..]) == Some(after[k]) {
      RebaseLookup(t, p, ch, k);
    }
    forall k | k in t && p < k && !(p + ch < k) ensures t[k] == Dir && k <= p + ch {
      ChainRest(t, p, ch, k);
    }
    forall k | k in t && p < k && t[k] != Dir ensures p + ch < k {
      ChainCovers(t, p, ch, k);
    }
    forall k | !(p < k) ensures Lookup(after, k) == Lookup(t, k) {
      RebaseLookup(t, p, ch, k);
    }
  }

  // ------------------------------------------------------------ nested cases

  /** A directory whose only entry is a regular file: listing that file fails, so drilling
      raises and leaves the tree as it was. */
  lemma {:induction false} SingleFileRaises(t: Tree, p: Path, n: string, text: string)
    requires WellFormed(t) && Lookup(t, p) == Some(Dir) && Children(t, p) == {n}
    requires Lookup(t, p + [n]) == Some(File(text))
    ensures DrillSpec(t, p) == Drill([], Some(NotADirectory(p + [n])))
    ensures Rebase(t, p, DrillSpec(t, p).chain) == t
  {
    assert p + [] == p;
    assert p + [] + [n] == p + [n];
    DrillFromStop(t, p, [], n);
    RebaseNothing(t, p);
  }

  /** A single directory holding an entry with its own name: moving that entry up clashes. */
  lemma {:induction false} SameNameClashes(t: Tree, p: Path, n: string)
    requires WellFormed(t) && Lookup(t, p) == Some(Dir) && Children(t, p) == {n}
    requires Lookup(t, p + [n]) == Some(Dir) && n in Children(t, p + [n])
    ensures DrillSpec(t, p) == Drill([], Some(AlreadyExists(p + [n])))
  {
    assert p + [] == p;
    assert p + [] + [n] == p + [n];
    DrillFromStop(t, p, [], n);
  }

  /** `p/a/b/c/...` with `a`, `b` and `c` each the only entry of the directory above. */
  ghost predicate NestedABC(t: Tree, p: Path)
  {
    && WellFormed(t)
    && Lookup(t, p) == Some(Dir) && Children(t, p) == {"a"}
    && Lookup(t, p + ["a"]) == Some(Dir) && Children(t, p + ["a"]) == {"b"}
    && Lookup(t, p + ["a", "b"]) == Some(Dir) && Children(t, p + ["a", "b"]) == {"c"}
    && Lookup(t, p + ["a", "b", "c"]) == Some(Dir)
  }

  /** Drilling through `a`, `b` and `c` lifts the contents of `c` up to `p`. */
  lemma {:induction false} DrillThroughABC(t: Tree, p: Path)
    requires NestedABC(t, p) && "c" !in Children(t, p + ["a", "b", "c"])
    ensures DrillSpec(t, p) == DrillFrom(t, p, ["a", "b", "c"])
  {
    var c0: Path := [];
    var c1: Path := ["a"];
    var c2: Path := ["a", "b"];
    var c3: Path := ["a", "b", "c"];
    assert p + c0 == p && p + c0 + ["a"] == p + c1;
    assert "a" !in Children(t, p + c1) by { assert Children(t, p + c1) == {"b"}; }
    DrillFromStep(t, p, c0, "a");
    assert c0 + ["a"] == c1 && c1 + ["b"] == c2 && c2 + ["c"] == c3;
    assert p + c1 + ["b"] == p + c2 && p + c2 + ["c"] == p + c3;
    assert "b" !in Children(t, p + c2);
    DrillFromStep(t, p, c1, "b");
    DrillFromStep(t, p, c2, "c");
  }

  /** `a/b/c/file.txt` alone: `file.txt` ends up directly under `p`, and then drilling tries to
      list it as a directory and raises. */
  lemma {:induction false} NestedSingleFile(t: Tree, p: Path, text: string)
    requires NestedABC(t, p) && Children(t, p + ["a", "b", "c"]) == {"file.txt"}
    requires Lookup(t, p + ["a", "b", "c", "file.txt"]) == Some(File(text))
    ensures DrillSpec(t, p) == Drill(["a", "b", "c"], Some(NotADirectory(p + ["file.txt"])))
    ensures Children(Rebase(t, p, ["a", "b", "c"]), p) == {"file.txt"}
    ensures Lookup(Rebase(t, p, ["a", "b", "c"]), p + ["file.txt"]) == Some(File(text))
  {
    var c3: Path := ["a", "b", "c"];
    DrillThroughABC(t, p);
    NestedFilePaths(p);
    DrillFromStop(t, p, c3, "file.txt");
    ChildrenRebase(t, p, c3, p);
    RebaseLookup(t, p, c3, p + ["file.txt"]);
  }

  /** `a/b/c` holding `file.txt` and one more entry: drilling stops with both directly under `p`. */
  lemma {:induction false} NestedTwoEntries(t: Tree, p: Path, other: string)
    requires NestedABC(t, p) && other != "file.txt" && other != "c"
    requires Children(t, p + ["a", "b", "c"]) == {"file.txt", other}
    ensures DrillSpec(t, p) == Drill(["a", "b", "c"], None)
    ensures Children(Rebase(t, p, ["a", "b", "c"]), p) == {"file.txt", other}
    ensures Lookup(Rebase(t, p, ["a", "b", "c"]), p + ["file.txt"]) ==
      Lookup(t, p + ["a", "b", "c", "file.txt"])
  {
    var c3: Path := ["a", "b", "c"];
    DrillThroughABC(t, p);
    assert |Children(t, p + c3)| == 2;
    ChildrenRebase(t, p, c3, p);
    RebaseLookup(t, p, c3, p + ["file.txt"]);
    NestedFilePaths(p);
  }

  lemma {:induction false} NestedFilePaths(p: Path)
    ensures p + ["a", "b", "c"] + ["file.txt"] == p + ["a", "b", "c", "file.txt"]
    ensures p + ["a", "b", "c"] + p[|p|..] == p + ["a", "b", "c"]
    ensures (p + ["file.txt"])[|p|..] == ["file.txt"]
  {
    assert p[|p|..] == [];
  }

  /** One directory with several entries (or none) under a single top directory of another
      name: drilling lifts those entries and stops there. */
  lemma {:induction false} DrillOneLevel(t: Tree, p: Path, top: string)
    requires WellFormed(t) && Lookup(t, p) == Some(Dir) && Children(t, p) == {top}
    requires Lookup(t, p + [top]) == Some(Dir) && top !in Children(t, p + [top])
    requires |Children(t, p + [top])| != 1
    ensures DrillSpec(t, p) == Drill([top], None)
  {
    var c0: Path := [];
    assert p + c0 == p && p + c0 + [top] == p + [top] && c0 + [top] == [top];
    DrillFromStep(t, p, c0, top);
  }
}
