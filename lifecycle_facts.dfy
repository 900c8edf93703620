/** What the lifecycle operations promise: `_init_env` makes the profile source the env file
    once, `_add_path` points the link at the install path and keeps one export line per
    class, `extract` always runs its `finally`, and the end-to-end consequences for the
    descriptors whose archives the generic extractor cannot open. */
module LifecycleFacts {
  import opened Wrappers
  import opened Text
  import opened Files
  import opened Store
  import opened Archive
  import opened EnvLines
  import opened Drilling
  import opened DrillingFacts
  import opened Catalog
  import opened Lifecycle

  // ------------------------------------------------------------ the store's paths

  /** No class's link name is `env` or `tmp`. */
  lemma {:induction false} LinkNameIsNotEnvOrTmp(k: Kind)
    ensures Lower(ClassName(k)) != "env" && Lower(ClassName(k)) != "tmp"
  {
    var s := ClassName(k);
    assert Lower(s)[0] == LowerChar(s[0]);
  }

  /** The link, the env file, the scratch directory and the profile are different paths. */
  lemma {:induction false} StoreEntriesDistinct(p: Package)
    ensures LinkPath(p) != EnvFile(p.host) && LinkPath(p) != TmpDir(p.host)
    ensures Profile(p.host) != EnvFile(p.host) && Profile(p.host) != LinkPath(p)
    ensures Profile(p.host) != TmpDir(p.host) && EnvFile(p.host) != TmpDir(p.host)
  {
    var n := |Root(p.host)|;
    assert LinkPath(p)[n] == Lower(ClassName(p.kind));
    assert EnvFile(p.host)[n] == "env";
    assert TmpDir(p.host)[n] == "tmp";
    LinkNameIsNotEnvOrTmp(p.kind);
  }

  // ------------------------------------------------------------------ _init_env

  /** The profile's text after `_init_env` created the env file: as it was when it already
      holds the sourcing line, otherwise with the line appended (a missing profile starts
      empty). */
  function ProfileAfter(t: Tree, h: Host): string
  {
    match Lookup(t, Profile(h))
    case Some(File(text)) => if Contains(text, SourcingLine(h)) then text else text + ProfileAddition(h)
    case _ => ProfileAddition(h)
  }

  /** Afterwards the profile always sources the env file. */
  lemma {:induction false} ProfileSourcesEnv(t: Tree, h: Host)
    ensures Contains(ProfileAfter(t, h), SourcingLine(h))
  {
    var line := SourcingLine(h);
    ContainsSelf(line);
    ContainsRight("\n", line, line);
    ContainsLeft("\n" + line, "\n", line);
    assert ProfileAddition(h) == ("\n" + line) + "\n";
    match Lookup(t, Profile(h))
    case Some(File(text)) =>
      if !Contains(text, line) {
        ContainsRight(text, ProfileAddition(h), line);
      }
    case _ =>
  }

  /** `_init_env` on Linux: an existing env file means nothing happens; a successful call
      leaves an env file; a created env file is empty and comes with the profile as
      `ProfileAfter` says; only those two paths change; the tree stays well formed. */
  lemma {:induction false} InitEnvEffect(t: Tree, h: Host)
    requires WellFormed(t) && h.isPosix
    ensures InitEnvSpec(t, h).known
    ensures EnvFile(h) in t ==> InitEnvSpec(t, h) == Done(t, Pass)
    ensures InitEnvSpec(t, h).outcome == Pass ==> EnvFile(h) in InitEnvSpec(t, h).tree
    ensures EnvFile(h) !in t && InitEnvSpec(t, h).outcome == Pass ==>
      Lookup(InitEnvSpec(t, h).tree, EnvFile(h)) == Some(File("")) &&
      Lookup(InitEnvSpec(t, h).tree, Profile(h)) == Some(File(ProfileAfter(t, h)))
    ensures forall k :: k != EnvFile(h) && k != Profile(h) ==> Lookup(InitEnvSpec(t, h).tree, k) == Lookup(t, k)
    ensures WellFormed(InitEnvSpec(t, h).tree)
  {
    var env := EnvFile(h);
    assert Profile(h) != env by {
      assert |Profile(h)| < |env|;
    }
    if env !in t && TouchFile(t, env).Success? {
      TouchFileWellFormed(t, env);
      var t1 := TouchFile(t, env).value;
      assert Lookup(t1, Profile(h)) == Lookup(t, Profile(h));
      var addition := ProfileAddition(h);
      var read := ReadFile(t1, Profile(h));
      if !(Profile(h) in t1 && read.Failure?) && !(Profile(h) in t1 && Contains(read.value, SourcingLine(h))) {
        if WriteFile(t1, Profile(h), addition, true).Success? {
          WriteFileWellFormed(t1, Profile(h), addition, true);
        }
      }
    }
  }

  /** A second `_init_env` after a successful one changes nothing. */
  lemma {:induction false} InitEnvIdempotent(t: Tree, h: Host)
    requires WellFormed(t) && h.isPosix && InitEnvSpec(t, h).outcome == Pass
    ensures InitEnvSpec(InitEnvSpec(t, h).tree, h) == Done(InitEnvSpec(t, h).tree, Pass)
  {
    InitEnvEffect(t, h);
  }

  /** `_init_env` raises on every host but Linux and changes nothing. */
  lemma {:induction false} InitEnvOffLinux(t: Tree, h: Host)
    requires !h.isPosix
    ensures InitEnvSpec(t, h) == Done(t, Fail(NotImplemented))
  {
  }

  // ------------------------------------------------------------------ _add_path

  /** The env file's text as `_add_path` will read it: what is there, or nothing yet. */
  function PriorEnv(t: Tree, h: Host): string
  {
    match Lookup(t, EnvFile(h))
    case Some(File(text)) => text
    case _ => ""
  }

  /** `_add_path` for a package with a PATH entry, on Linux: when it passes, the link points at
      the install path and the env file holds the previous lines with the package's first
      tagged line dropped and the export line appended; nothing but the link, the env file and
      the profile changes. */
  lemma {:induction false} AddPathEffect(t: Tree, p: Package)
    requires WellFormed(t) && RegistersPath(p) && p.host.isPosix
    ensures AddPathSpec(t, p).known
    ensures AddPathSpec(t, p).outcome == Pass ==>
      Lookup(AddPathSpec(t, p).tree, LinkPath(p)) == Some(Link(InstallPath(p))) &&
      Lookup(AddPathSpec(t, p).tree, EnvFile(p.host)) ==
        Some(File(EnvAfter(PriorEnv(t, p.host), Tag(p), ExportLine(p))))
    ensures forall k :: k != EnvFile(p.host) && k != LinkPath(p) && k != Profile(p.host) ==>
      Lookup(AddPathSpec(t, p).tree, k) == Lookup(t, k)
    ensures WellFormed(AddPathSpec(t, p).tree)
  {
    var h := p.host;
    InitEnvEffect(t, h);
    StoreEntriesDistinct(p);
    var e1 := InitEnvSpec(t, h);
    if e1.outcome.Pass? && EnvText(e1.tree, h).Success? {
      assert EnvText(e1.tree, h).value == PriorEnv(t, h);
      if UnlinkAt(e1.tree, LinkPath(p), true).Success? {
        assert Parent(LinkPath(p)) == Root(h) == Parent(EnvFile(h));
        RelinkAndWrite(e1.tree, LinkPath(p), EnvFile(h), InstallPath(p),
          EnvAfter(PriorEnv(t, h), Tag(p), ExportLine(p)));
      }
    }
  }

  /** Replacing a link beside a file and rewriting that file: the link and the file hold what
      was written, the tree stays well formed and nothing else changes. */
  lemma {:induction false} RelinkAndWrite(t1: Tree, link: Path, env: Path, target: Path, after: string)
    requires WellFormed(t1) && link != [] && env != [] && Parent(link) == Parent(env) && link != env
    requires Lookup(t1, env).Some? && Lookup(t1, env).value.File?
    requires UnlinkAt(t1, link, true).Success?
    ensures var t3 := SymlinkAt(UnlinkAt(t1, link, true).value, link, target);
      WriteFile(t3, env, after, false) == Success(t3[env := File(after)])
    ensures var t4 := SymlinkAt(UnlinkAt(t1, link, true).value, link, target)[env := File(after)];
      WellFormed(t4) && Lookup(t4, link) == Some(Link(target)) && Lookup(t4, env) == Some(File(after))
    ensures var t4 := SymlinkAt(UnlinkAt(t1, link, true).value, link, target)[env := File(after)];
      forall k :: k != env && k != link ==> Lookup(t4, k) == Lookup(t1, k)
  {
    UnlinkAtWellFormed(t1, link, true);
    var t2 := UnlinkAt(t1, link, true).value;
    assert Lookup(t2, env) == Lookup(t1, env);
    SymlinkAtWellFormed(t2, link, target);
    var t3 := SymlinkAt(t2, link, target);
    assert Lookup(t3, link) == Some(Link(target));
    WriteFileWellFormed(t3, env, after, false);
  }

  /** Registering the same package twice leaves what registering it once left, provided the
      env file held whole lines with at most one of the package's tagged lines and the export
      line is a single line. */
  lemma {:induction false} AddPathTwice(t: Tree, p: Package)
    requires WellFormed(t) && RegistersPath(p) && p.host.isPosix
    requires AddPathSpec(t, p).outcome == Pass
    requires PriorEnv(t, p.host) == [] || PriorEnv(t, p.host)[|PriorEnv(t, p.host)| - 1] == '\n'
    requires CountTagged(ReadLines(PriorEnv(t, p.host)), Tag(p)) <= 1
    requires '\n' !in ExportLine(p)
    ensures AddPathSpec(AddPathSpec(t, p).tree, p) == Done(AddPathSpec(t, p).tree, Pass)
  {
    var h := p.host;
    var e := AddPathSpec(t, p);
    AddPathEffect(t, p);
    StoreEntriesDistinct(p);
    var once := EnvAfter(PriorEnv(t, h), Tag(p), ExportLine(p));
    ExportLineTagged(p);
    EnvAfterIdempotent(PriorEnv(t, h), Tag(p), ExportLine(p));
    assert EnvAfter(once, Tag(p), ExportLine(p)) == once;
    InitEnvEffect(e.tree, h);
    assert InitEnvSpec(e.tree, h) == Done(e.tree, Pass);
    assert EnvText(e.tree, h) == Success(once);
    assert Lookup(e.tree, Root(h)) == Some(Dir) by {
      assert Parent(EnvFile(h)) == Root(h);
    }
    assert Parent(LinkPath(p)) == Root(h);
    RelinkSame(e.tree, Root(h), LinkPath(p), InstallPath(p), EnvFile(h), once);
  }

  /** Replacing a link by the same link and rewriting a file with what it holds change nothing. */
  lemma {:induction false} RelinkSame(t: Tree, root: Path, link: Path, target: Path, env: Path, text: string)
    requires link != [] && Parent(link) == root && Lookup(t, root) == Some(Dir)
    requires Lookup(t, link) == Some(Link(target)) && Lookup(t, env) == Some(File(text))
    ensures UnlinkAt(t, link, true) == Success(t - {link})
    ensures SymlinkAt(t - {link}, link, target) == t
    ensures WriteFile(t, env, text, false) == Success(t)
  {
    assert root != link;
    var t3 := SymlinkAt(t - {link}, link, target);
    assert t3 == (t - {link})[link := Link(target)];
    Extensionality(t3, t);
    Extensionality(t[env := File(text)], t);
  }

  /** Without a PATH entry `_add_path` does nothing. */
  lemma {:induction false} AddPathWithoutEntry(t: Tree, p: Package)
    requires !RegistersPath(p)
    ensures AddPathSpec(t, p) == Done(t, Pass)
  {
  }

  // -------------------------------------------------------------------- extract

  /** `extract` raises before creating anything on every host but Linux. */
  lemma {:induction false} ExtractOffLinux(t: Tree, p: Package, src: Path, dst: Path, deleteSrc: bool, w: World)
    requires WellFormed(t) && !p.host.isPosix
    ensures ExtractSpec(t, p, src, dst, deleteSrc, w) == Done(t, Fail(NotImplemented))
  {
    NonPosixHasNoMethod(p.host, Render(p.host, src));
  }

  /** With `delete_src`, once `extract` reached its `try` the source is gone afterwards or the
      call raised the unlink's error, whatever the command and the drilling did. */
  lemma {:induction false} ExtractDeletesSource(t: Tree, p: Package, src: Path, dst: Path, cmd: string, w: World)
    requires WellFormed(t)
    ensures var e := ExtractFrom(t, p, src, dst, cmd, true, w);
      MkDirsAt(t, dst).Success? ==> Lookup(e.tree, src) == None || (e.outcome.Fail? && e.outcome.error.Io?)
  {
  }

  /** When the command fails, `extract` raises the command's failure, registers nothing and
      (with `delete_src`) still removes the downloaded file: the tree is what the command laid
      down before failing, less the download, unless that output does not fit under `dst` or
      covers the download itself. */
  lemma {:induction false} FailedCommandStillDeletes(t: Tree, p: Package, src: Path, dst: Path, cmd: string, text: string,
    w: World)
    requires WellFormed(t) && w.unpacked.None? && MkDirsAt(t, dst).Success?
    requires Lookup(t, src) == Some(File(text))
    ensures var t1 := MkDirsAt(t, dst).value; var e := ExtractFrom(t, p, src, dst, cmd, true, w);
      FitsUnder(t1, dst, w.partial) && !(dst <= src) ==>
        e == Done(Overlay(t1, dst, w.partial) - {src}, Fail(CommandFailed(cmd)))
    ensures var t1 := MkDirsAt(t, dst).value; var e := ExtractFrom(t, p, src, dst, cmd, true, w);
      !FitsUnder(t1, dst, w.partial) ==> !e.known && e.outcome == Fail(CommandFailed(cmd)) && src !in e.tree
  {
    MkDirsAtWellFormed(t, dst);
    var t1 := MkDirsAt(t, dst).value;
    MkDirsAtKeepsLeaves(t, dst, src);
    OverlayLookup(t1, dst, w.partial, src);
  }

  /** Without `delete_src`, a failing command leaves what it laid down before failing on top of
      everything else, the created destination included, and raises the command's failure; only
      output that does not fit under `dst` leaves the tree unknown. */
  lemma {:induction false} FailedCommandKeepsSource(t: Tree, p: Package, src: Path, dst: Path, cmd: string, w: World)
    requires WellFormed(t) && w.unpacked.None? && MkDirsAt(t, dst).Success?
    ensures var t1 := MkDirsAt(t, dst).value; var e := ExtractFrom(t, p, src, dst, cmd, false, w);
      e.outcome == Fail(CommandFailed(cmd)) && (e.known <==> FitsUnder(t1, dst, w.partial))
    ensures var t1 := MkDirsAt(t, dst).value; var e := ExtractFrom(t, p, src, dst, cmd, false, w);
      FitsUnder(t1, dst, w.partial) ==> e.tree == Overlay(t1, dst, w.partial)
  {
  }

  // ------------------------------------------------------------ first installs

  /** `path` is free, or a file that a write replaces. */
  predicate Writable(t: Tree, path: Path)
  {
    Lookup(t, path).None? || Lookup(t, path).value.File?
  }

  /** A first install on Linux: the scratch directory exists, the archive's name is free or a
      file, and nothing is at the install path, which lies beside the store's own entries and
      strictly above the artifact. */
  ghost predicate Fresh(t: Tree, p: Package, archiveType: string)
  {
    && WellFormed(t) && p.host.isPosix && ClearOfStore(p) && InstallPath(p) < p.artifact
    && Lookup(t, TmpDir(p.host)) == Some(Dir) && Writable(t, ArchiveFile(p, archiveType))
    && InstallPath(p) !in t
  }

  /** The tree once the download is written. */
  function Downloaded(t: Tree, p: Package, archiveType: string, bytes: string): Tree
  {
    t[ArchiveFile(p, archiveType) := File(bytes)]
  }

  /** A Linux tree whose scratch directory exists: the download is written and extraction
      starts from there. */
  lemma {:induction false} DownloadStep(t: Tree, p: Package, archiveType: string, deleteSrc: bool, w: World)
    requires Fresh(t, p, archiveType) && w.fetched.Some?
    ensures WellFormed(Downloaded(t, p, archiveType, w.fetched.value))
    ensures DownloadExtractSpec(t, p, archiveType, deleteSrc, w) ==
      ExtractBy(Downloaded(t, p, archiveType, w.fetched.value), p, ArchiveFile(p, archiveType), deleteSrc, w)
  {
    var ark := ArchiveFile(p, archiveType);
    assert MkDirsAt(t, TmpDir(p.host)) == Success(t);
    assert Parent(ark) == TmpDir(p.host);
    assert WriteFile(t, ark, w.fetched.value, false) == Success(Downloaded(t, p, archiveType, w.fetched.value));
    WriteFileWellFormed(t, ark, w.fetched.value, false);
  }

  /** Extraction then creates the install path as an empty directory; the download is still
      there and the store's entries are untouched. */
  lemma {:induction false} InstallDirStep(t: Tree, p: Package, archiveType: string, bytes: string)
    requires Fresh(t, p, archiveType) && WellFormed(Downloaded(t, p, archiveType, bytes))
    ensures var t2 := Downloaded(t, p, archiveType, bytes);
      MkDirsAt(t2, InstallPath(p)) == Success(t2[InstallPath(p) := Dir])
    ensures var t3 := Downloaded(t, p, archiveType, bytes)[InstallPath(p) := Dir];
      WellFormed(t3) && Children(t3, InstallPath(p)) == {} &&
      Lookup(t3, ArchiveFile(p, archiveType)) == Some(File(bytes))
  {
    var h := p.host;
    var ip := InstallPath(p);
    var ark := ArchiveFile(p, archiveType);
    var t2 := Downloaded(t, p, archiveType, bytes);
    assert Parent(TmpDir(h)) == Root(h);
    assert Lookup(t2, Root(h)) == Some(Dir);
    var n := |Root(h)|;
    assert ark[n] == "tmp" && ip[n] == p.name;
    assert ip !in t2;
    MkDirsNewChild(t2, Root(h), p.name);
    MkDirsAtWellFormed(t2, ip);
    var t3 := t2[ip := Dir];
    NothingWithinAbsent(t, ip);
    forall x ensures x !in Children(t3, ip) {
      ChildIff(t3, ip, x);
      assert (ip + [x])[n] == p.name;
    }
  }

  /** On Linux TiPruNone, StLink and EsBuild never install: their archives have no extraction
      template, so the call raises `UnsupportedArchive`, leaves the download in the scratch
      directory and creates nothing else; the package stays uninstalled. */
  lemma {:induction false} UnopenableArchiveFails(t: Tree, p: Package, w: World)
    requires Fresh(t, p, ArchiveType(p.host, p.kind)) && p.kind in {TiPruNone, StLink, EsBuild}
    requires w.fetched.Some?
    ensures var ty := ArchiveType(p.host, p.kind);
      InstallSpec(t, p, w) ==
        Done(Downloaded(t, p, ty, w.fetched.value), Fail(UnsupportedArchive(Render(p.host, ArchiveFile(p, ty)))))
    ensures !Installed(InstallSpec(t, p, w).tree, p)
  {
    var ty := ArchiveType(p.host, p.kind);
    var ark := ArchiveFile(p, ty);
    DownloadStep(t, p, ty, DeletesSource(p.kind), w);
    ArchiveDispatch(p);
    UnsupportedIff(Render(p.host, ark));
    NothingWithinAbsent(t, InstallPath(p));
    assert p.artifact != ark by {
      var n := |Root(p.host)|;
      assert ark[n] == "tmp" && p.artifact[n] == p.name;
    }
  }

  /** On every Linux store, not only a fresh one, TiPruNone, StLink and EsBuild never install:
      making the scratch directory, the download or its write may raise first, and otherwise
      the archive type is refused. */
  lemma {:induction false} UnopenableArchivesNeverInstall(t: Tree, p: Package, w: World)
    requires WellFormed(t) && p.host.isPosix && p.kind in {TiPruNone, StLink, EsBuild}
    ensures InstallSpec(t, p, w).outcome.Fail? && InstallSpec(t, p, w).known
    ensures var e := InstallSpec(t, p, w).outcome.error;
      e == UnsupportedArchive(Render(p.host, ArchiveFile(p, ArchiveType(p.host, p.kind))))
      || e == DownloadFailed || e.Io?
  {
    var ty := ArchiveType(p.host, p.kind);
    ArchiveDispatch(p);
    UnsupportedIff(Render(p.host, ArchiveFile(p, ty)));
    match MkDirsAt(t, TmpDir(p.host))
    case Failure(_) =>
    case Success(t1) =>
      MkDirsAtWellFormed(t, TmpDir(p.host));
      if w.fetched.Some? {
        match WriteFile(t1, ArchiveFile(p, ty), w.fetched.value, false)
        case Failure(_) =>
        case Success(t2) =>
          WriteFileWellFormed(t1, ArchiveFile(p, ty), w.fetched.value, false);
      }
  }

  /** A relative tree as an archive tool lays it down: no entry at the top itself, and every
      deeper entry's parent is a directory of the tree. */
  ghost predicate RelativeTree(tree: Tree)
  {
    && [] !in tree
    && (forall r {:trigger Parent(r)} :: r in tree && |r| > 1 ==> Lookup(tree, Parent(r)) == Some(Dir))
  }

  /** The generic extractor on the written download: with a template it creates the install
      path and runs the `try` body there, followed by the `finally`. */
  lemma {:induction false} GenericExtractStep(t: Tree, p: Package, archiveType: string, deleteSrc: bool, bytes: string, w: World)
    requires Fresh(t, p, archiveType) && WellFormed(Downloaded(t, p, archiveType, bytes)) && p.kind != Restic
    requires ExtractionMethod(p.host, Render(p.host, ArchiveFile(p, archiveType))).Success?
    ensures WellFormed(Downloaded(t, p, archiveType, bytes)[InstallPath(p) := Dir])
    ensures var ark := ArchiveFile(p, archiveType);
      var cmd := Format(ExtractionMethod(p.host, Render(p.host, ark)).value, Render(p.host, ark),
        Render(p.host, InstallPath(p)));
      ExtractBy(Downloaded(t, p, archiveType, bytes), p, ark, deleteSrc, w) ==
        Finally(UnpackSpec(Downloaded(t, p, archiveType, bytes)[InstallPath(p) := Dir], p, InstallPath(p), cmd, w),
          ark, deleteSrc)
  {
    InstallDirStep(t, p, archiveType, bytes);
  }

  /** An archive tool's relative tree fits under the freshly created install path, and laying
      it there changes nothing outside the install path. */
  lemma {:induction false} FreshUnpack(t3: Tree, ip: Path, tree: Tree)
    requires WellFormed(t3) && Lookup(t3, ip) == Some(Dir) && Children(t3, ip) == {} && RelativeTree(tree)
    ensures FitsUnder(t3, ip, tree) && WellFormed(Overlay(t3, ip, tree))
    ensures forall k :: !(ip <= k) ==> Lookup(Overlay(t3, ip, tree), k) == Lookup(t3, k)
    ensures forall r :: r in tree ==> Lookup(Overlay(t3, ip, tree), ip + r) == Some(tree[r])
    ensures forall r :: r != [] && r !in tree ==> Lookup(Overlay(t3, ip, tree), ip + r) == None
  {
    forall k | k in t3 && ip < k ensures false {
      BelowHasChild(t3, ip, k);
    }
    OverlayWellFormed(t3, ip, tree);
    forall k | !(ip <= k) ensures Lookup(Overlay(t3, ip, tree), k) == Lookup(t3, k) {
      OverlayLookup(t3, ip, tree, k);
    }
    forall r | r in tree ensures Lookup(Overlay(t3, ip, tree), ip + r) == Some(tree[r]) {
      OverlayLookup(t3, ip, tree, ip + r);
      assert (ip + r)[|ip|..] == r;
    }
    forall r | r != [] && r !in tree ensures Lookup(Overlay(t3, ip, tree), ip + r) == None {
      OverlayLookup(t3, ip, tree, ip + r);
      assert (ip + r)[|ip|..] == r;
      assert ip < ip + r;
    }
  }

  /** The conditions of a first install whose archive has a template and whose download and
      tool succeed, the tool laying down a relative tree. */
  ghost predicate ToolInstall(t: Tree, p: Package, w: World)
  {
    && Fresh(t, p, ArchiveType(p.host, p.kind)) && p.kind != Restic && DeletesSource(p.kind)
    && ExtractionMethod(p.host, Render(p.host, ArchiveFile(p, ArchiveType(p.host, p.kind)))).Success?
    && w.fetched.Some? && w.unpacked.Some? && RelativeTree(w.unpacked.value)
  }

  /** Such an install of a package that neither drills nor registers PATH, the tree holding
      the artifact. */
  ghost predicate PlainInstall(t: Tree, p: Package, w: World)
  {
    && ToolInstall(t, p, w) && !p.drill && !RegistersPath(p)
    && p.artifact[|InstallPath(p)|..] in w.unpacked.value
  }

  /** The tree such an install leaves: the tool's tree under the new install path, the
      download gone. */
  function PlainInstalled(t: Tree, p: Package, w: World): Tree
    requires w.fetched.Some? && w.unpacked.Some?
  {
    Unpacked(t, p, w) - {ArchiveFile(p, ArchiveType(p.host, p.kind))}
  }

  lemma {:induction false} PlainInstallEffect(t: Tree, p: Package, w: World)
    requires PlainInstall(t, p, w)
    ensures InstallSpec(t, p, w) == Done(PlainInstalled(t, p, w), Pass)
  {
    var ark := ArchiveFile(p, ArchiveType(p.host, p.kind));
    ToolInstallSettles(t, p, w);
    UnpackedLookup(t, p, w);
    var t4 := Unpacked(t, p, w);
    assert SettleSpec(t4, p) == Done(t4, Pass);
    assert UnlinkAt(t4, ark, false) == Success(t4 - {ark});
  }

  /** Such an install downloads, creates the install path, lays the tool's tree under it and
      settles there, then deletes the download. */
  lemma {:induction false} ToolInstallSettles(t: Tree, p: Package, w: World)
    requires ToolInstall(t, p, w)
    ensures WellFormed(Unpacked(t, p, w))
    ensures InstallSpec(t, p, w) ==
      Finally(SettleSpec(Unpacked(t, p, w), p), ArchiveFile(p, ArchiveType(p.host, p.kind)), true)
  {
    var h := p.host;
    var ty := ArchiveType(h, p.kind);
    var ark := ArchiveFile(p, ty);
    var ip := InstallPath(p);
    var tree := w.unpacked.value;
    DownloadStep(t, p, ty, true, w);
    var t2 := Downloaded(t, p, ty, w.fetched.value);
    GenericExtractStep(t, p, ty, true, w.fetched.value, w);
    InstallDirStep(t, p, ty, w.fetched.value);
    var t3 := t2[ip := Dir];
    FreshUnpack(t3, ip, tree);
    var t4 := Overlay(t3, ip, tree);
    assert t4 == Unpacked(t, p, w);
    var cmd := Format(ExtractionMethod(h, Render(h, ark)).value, Render(h, ark), Render(h, ip));
    calc {
      InstallSpec(t, p, w);
      DownloadExtractSpec(t, p, ty, true, w);
      ExtractBy(t2, p, ark, true, w);
      Finally(UnpackSpec(t3, p, ip, cmd, w), ark, true);
      Finally(SettleSpec(t4, p), ark, true);
    }
  }


  /** The tree before the download is deleted: the tool's tree under the new install path. */
  function Unpacked(t: Tree, p: Package, w: World): Tree
    requires w.fetched.Some? && w.unpacked.Some?
  {
    Overlay(Downloaded(t, p, ArchiveType(p.host, p.kind), w.fetched.value)[InstallPath(p) := Dir],
      InstallPath(p), w.unpacked.value)
  }

  lemma {:induction false} UnpackedLookup(t: Tree, p: Package, w: World)
    requires ToolInstall(t, p, w)
    ensures WellFormed(Unpacked(t, p, w))
    ensures forall k :: !(InstallPath(p) <= k) && k != ArchiveFile(p, ArchiveType(p.host, p.kind)) ==>
      Lookup(Unpacked(t, p, w), k) == Lookup(t, k)
    ensures Lookup(Unpacked(t, p, w), ArchiveFile(p, ArchiveType(p.host, p.kind))) == Some(File(w.fetched.value))
    ensures forall r :: r in w.unpacked.value ==>
      Lookup(Unpacked(t, p, w), InstallPath(p) + r) == Some(w.unpacked.value[r])
    ensures forall r :: r != [] && r !in w.unpacked.value ==> Lookup(Unpacked(t, p, w), InstallPath(p) + r) == None
    ensures Lookup(Unpacked(t, p, w), InstallPath(p)) == Some(Dir)
  {
    var ty := ArchiveType(p.host, p.kind);
    var ip := InstallPath(p);
    var t2 := Downloaded(t, p, ty, w.fetched.value);
    assert WellFormed(t2) by {
      DownloadStep(t, p, ty, true, w);
    }
    InstallDirStep(t, p, ty, w.fetched.value);
    var t3 := t2[ip := Dir];
    FreshUnpack(t3, ip, w.unpacked.value);
    PathsAroundInstall(p, ty);
    forall k | !(ip <= k) && k != ArchiveFile(p, ty) ensures Lookup(Unpacked(t, p, w), k) == Lookup(t, k) {
      assert Lookup(Unpacked(t, p, w), k) == Lookup(t3, k);
      assert k != ip;
      assert Lookup(t3, k) == Lookup(t2, k);
    }
  }

  /** What the tree left by such an install holds. */
  lemma {:induction false} PlainInstalledLookup(t: Tree, p: Package, w: World)
    requires PlainInstall(t, p, w)
    ensures WellFormed(PlainInstalled(t, p, w))
    ensures forall k :: !(InstallPath(p) <= k) && k != ArchiveFile(p, ArchiveType(p.host, p.kind)) ==>
      Lookup(PlainInstalled(t, p, w), k) == Lookup(t, k)
    ensures ArchiveFile(p, ArchiveType(p.host, p.kind)) !in PlainInstalled(t, p, w)
    ensures forall r :: r in w.unpacked.value ==>
      Lookup(PlainInstalled(t, p, w), InstallPath(p) + r) == Some(w.unpacked.value[r])
  {
    UnpackedLookup(t, p, w);
    PathsAroundInstall(p, ArchiveType(p.host, p.kind));
    DownloadDeleted(Unpacked(t, p, w), t, InstallPath(p), ArchiveFile(p, ArchiveType(p.host, p.kind)),
      w.fetched.value, w.unpacked.value);
  }

  /** Deleting the download from a tree that differs from `t` only below `ip` and at the
      download keeps the tree and everything below `ip`. */
  lemma {:induction false} DownloadDeleted(t4: Tree, t: Tree, ip: Path, ark: Path, bytes: string, tree: Tree)
    requires WellFormed(t4) && Lookup(t4, ark) == Some(File(bytes)) && !(ip <= ark)
    requires forall k :: !(ip <= k) && k != ark ==> Lookup(t4, k) == Lookup(t, k)
    requires forall r :: r in tree ==> Lookup(t4, ip + r) == Some(tree[r])
    ensures WellFormed(t4 - {ark}) && ark !in t4 - {ark}
    ensures forall k :: !(ip <= k) && k != ark ==> Lookup(t4 - {ark}, k) == Lookup(t, k)
    ensures forall r :: r in tree ==> Lookup(t4 - {ark}, ip + r) == Some(tree[r])
  {
    assert UnlinkAt(t4, ark, false) == Success(t4 - {ark});
    UnlinkAtWellFormed(t4, ark, false);
    forall r | r in tree ensures ip + r != ark {
      assert (ip + r)[..|ip|] == ip;
    }
  }

  /** Such an install passes, the artifact exists, the download is deleted, nothing outside
      the install path changes (the env file and the link included), and a later
      `ensure_installed` does nothing. */
  lemma {:induction false} PlainFreshInstall(t: Tree, p: Package, w: World, later: World)
    requires PlainInstall(t, p, w)
    ensures var e := InstallSpec(t, p, w);
      e.known && e.outcome == Pass && Installed(e.tree, p) && ArchiveFile(p, ArchiveType(p.host, p.kind)) !in e.tree
    ensures var e := InstallSpec(t, p, w);
      Lookup(e.tree, EnvFile(p.host)) == Lookup(t, EnvFile(p.host)) && Lookup(e.tree, LinkPath(p)) == Lookup(t, LinkPath(p))
    ensures var e := InstallSpec(t, p, w);
      WellFormed(e.tree) && EnsureSpec(e.tree, p, later) == Done(e.tree, Pass)
  {
    PlainInstallEffect(t, p, w);
    PlainInstalledTree(t, p, w);
  }

  lemma {:induction false} PlainInstalledTree(t: Tree, p: Package, w: World)
    requires PlainInstall(t, p, w)
    ensures var d := PlainInstalled(t, p, w);
      WellFormed(d) && Installed(d, p) && ArchiveFile(p, ArchiveType(p.host, p.kind)) !in d
    ensures var d := PlainInstalled(t, p, w);
      Lookup(d, EnvFile(p.host)) == Lookup(t, EnvFile(p.host)) && Lookup(d, LinkPath(p)) == Lookup(t, LinkPath(p))
  {
    PlainInstalledLookup(t, p, w);
    PathsAroundInstall(p, ArchiveType(p.host, p.kind));
    StoreEntriesDistinct(p);
    PrefixRest(InstallPath(p), p.artifact);
  }

  /** Electron is such a package: a first install on Linux whose zip holds `electron` passes. */
  lemma {:induction false} ElectronFreshInstall(t: Tree, h: Host, version: string, w: World, later: World)
    requires Fresh(t, ElectronPackage(h, version), "zip")
    requires w.fetched.Some? && w.unpacked.Some? && RelativeTree(w.unpacked.value)
    requires ["electron"] in w.unpacked.value
    ensures var p := ElectronPackage(h, version); var e := InstallSpec(t, p, w);
      e.known && e.outcome == Pass && Installed(e.tree, p) && ArchiveFile(p, "zip") !in e.tree
    ensures var p := ElectronPackage(h, version); var e := InstallSpec(t, p, w);
      WellFormed(e.tree) && EnsureSpec(e.tree, p, later) == Done(e.tree, Pass)
  {
    var p := ElectronPackage(h, version);
    ArchiveDispatch(p);
    assert "electron" + Exe(h) == "electron";
    assert p.artifact[|InstallPath(p)|..] == ["electron"];
    assert PlainInstall(t, p, w);
    PlainFreshInstall(t, p, w, later);
  }


  /** The download and the store's own entries lie outside a package's install path, and the
      download is neither the env file nor the link. */
  lemma {:induction false} PathsAroundInstall(p: Package, archiveType: string)
    requires ClearOfStore(p)
    ensures !(InstallPath(p) <= ArchiveFile(p, archiveType))
    ensures !(InstallPath(p) <= EnvFile(p.host)) && !(InstallPath(p) <= LinkPath(p))
    ensures ArchiveFile(p, archiveType) != EnvFile(p.host) && ArchiveFile(p, archiveType) != LinkPath(p)
  {
    StoreEntriesOutsideInstall(p);
    var n := |Root(p.host)|;
    assert ArchiveFile(p, archiveType)[n] == "tmp" && InstallPath(p)[n] == p.name;
  }

  // ----------------------------------------------------------- Restic's install

  /** The tree Restic's command leaves when it succeeds: download and `.bz2` gone, the binary in
      place. */
  function Decompressed(t: Tree, src: Path, dstDir: Path, binary: string): Tree
    requires src in t
  {
    Relocated(Moved(t, src, dstDir), ResticCompressed(dstDir), ResticTarget(dstDir), File(binary))
  }

  /** In an empty install path, `mv` neither refuses nor meets anything unmodelled. */
  lemma {:induction false} ResticMoveClear(t3: Tree, ip: Path, src: Path, text: string)
    requires WellFormed(t3) && Lookup(t3, ip) == Some(Dir) && Children(t3, ip) == {}
    requires Lookup(t3, src) == Some(File(text)) && !(ip <= src)
    ensures !MoveRefused(t3, src, ip) && !MoveUnmodelled(t3, src, ip)
  {
    ChildIff(t3, ip, "restic.bz2");
    ChildIff(t3, ip, "restic");
    assert Parent(ResticCompressed(ip)) == ip;
  }

  /** Restic's command run in an empty install path: the binary becomes the only entry there,
      and drilling then raises `NotADirectory` on it, before PATH is registered. */
  lemma {:induction false} ResticDecompressStep(t3: Tree, p: Package, src: Path, text: string, cmd: string, w: World)
    requires WellFormed(t3) && p.drill && p.artifact == InstallPath(p) + ["restic"]
    requires Lookup(t3, InstallPath(p)) == Some(Dir) && Children(t3, InstallPath(p)) == {}
    requires Lookup(t3, src) == Some(File(text)) && !(InstallPath(p) <= src)
    requires w.decompressed.Some?
    ensures WellFormed(Decompressed(t3, src, InstallPath(p), w.decompressed.value))
    ensures DecompressSpec(t3, p, src, InstallPath(p), cmd, w) ==
      Effect(Decompressed(t3, src, InstallPath(p), w.decompressed.value), Fail(Io(NotADirectory(p.artifact))), true)
  {
    var ip := InstallPath(p);
    var target := ResticTarget(ip);
    var z := ResticCompressed(ip);
    var bin := w.decompressed.value;
    ResticMoveClear(t3, ip, src, text);
    MovedWellFormed(t3, src, ip, bin);
    var t4 := Decompressed(t3, src, ip, bin);
    assert target[|ip|] == "restic" && z[|ip|] == "restic.bz2";
    forall n ensures n in Children(t4, ip) <==> n == "restic" {
      ChildIff(t4, ip, n);
      ChildIff(t3, ip, n);
      assert ip + [n] != src;
    }
    assert Children(t4, ip) == {"restic"};
    SingleFileRaises(t4, ip, "restic", bin);
  }

  /** Restic's command in an empty install path when bzip2 fails: the download has been moved to
      `restic.bz2` there and the call raises the command; no binary is written. */
  lemma {:induction false} ResticBzip2FailStep(t3: Tree, p: Package, src: Path, text: string, cmd: string, w: World)
    requires WellFormed(t3) && Lookup(t3, InstallPath(p)) == Some(Dir) && Children(t3, InstallPath(p)) == {}
    requires Lookup(t3, src) == Some(File(text)) && !(InstallPath(p) <= src)
    requires w.decompressed.None?
    ensures DecompressSpec(t3, p, src, InstallPath(p), cmd, w) ==
      Done(Moved(t3, src, InstallPath(p)), Fail(CommandFailed(cmd)))
  {
    var ip := InstallPath(p);
    ResticMoveClear(t3, ip, src, text);
    var moved := Moved(t3, src, ip);
    ChildIff(t3, ip, "restic");
    assert ResticTarget(ip) != src && ResticTarget(ip) != ResticCompressed(ip) by {
      assert ResticTarget(ip)[|ip|] == "restic";
    }
    assert moved - {ResticTarget(ip)} == moved;
  }

  /** The conditions of a first Restic install whose download and decompression succeed. */
  ghost predicate ResticInstall(t: Tree, p: Package, w: World)
  {
    && Fresh(t, p, ArchiveType(p.host, p.kind)) && p.kind == Restic && p.drill
    && p.artifact == InstallPath(p) + ["restic"]
    && w.fetched.Some? && w.decompressed.Some?
  }

  /** The tree such an install leaves. */
  function ResticLeft(t: Tree, p: Package, w: World): Tree
    requires w.fetched.Some? && w.decompressed.Some?
  {
    var ty := ArchiveType(p.host, p.kind);
    Decompressed(Downloaded(t, p, ty, w.fetched.value)[InstallPath(p) := Dir], ArchiveFile(p, ty),
      InstallPath(p), w.decompressed.value)
  }

  lemma {:induction false} ResticInstallEffect(t: Tree, p: Package, w: World)
    requires ResticInstall(t, p, w)
    ensures WellFormed(ResticLeft(t, p, w))
    ensures InstallSpec(t, p, w) == Effect(ResticLeft(t, p, w), Fail(Io(NotADirectory(p.artifact))), true)
  {
    var h := p.host;
    var ty := ArchiveType(h, p.kind);
    var ark := ArchiveFile(p, ty);
    var ip := InstallPath(p);
    DownloadStep(t, p, ty, false, w);
    InstallDirStep(t, p, ty, w.fetched.value);
    var t3 := Downloaded(t, p, ty, w.fetched.value)[ip := Dir];
    PathsAroundInstall(p, ty);
    ResticDecompressStep(t3, p, ark, w.fetched.value, ResticCommand(h, ark, ip), w);
  }

  lemma {:induction false} ResticLeftLookup(t: Tree, p: Package, w: World)
    requires ResticInstall(t, p, w)
    ensures Lookup(ResticLeft(t, p, w), p.artifact) == Some(File(w.decompressed.value))
    ensures ArchiveFile(p, ArchiveType(p.host, p.kind)) !in ResticLeft(t, p, w)
    ensures forall k :: !(InstallPath(p) <= k) && k != ArchiveFile(p, ArchiveType(p.host, p.kind)) ==>
      Lookup(ResticLeft(t, p, w), k) == Lookup(t, k)
  {
    var ty := ArchiveType(p.host, p.kind);
    var ip := InstallPath(p);
    assert ResticTarget(ip) == p.artifact;
    PathsAroundInstall(p, ty);
    forall k | !(ip <= k) && k != ArchiveFile(p, ty) ensures Lookup(ResticLeft(t, p, w), k) == Lookup(t, k) {
      assert k != ip && k != ResticTarget(ip) && k != ResticCompressed(ip);
    }
  }

  /** A first Restic install on Linux whose download and decompression succeed: the binary
      ends up at the artifact, but the call raises from drilling, so PATH is never
      registered; the download was moved away, nothing outside the install path changes (the
      env file and the link included), and since the artifact exists a later
      `ensure_installed` does nothing, leaving Restic off PATH for good. */
  lemma {:induction false} ResticFreshInstall(t: Tree, p: Package, w: World, later: World)
    requires ResticInstall(t, p, w)
    ensures var e := InstallSpec(t, p, w);
      e.known && e.outcome == Fail(Io(NotADirectory(p.artifact))) &&
      Lookup(e.tree, p.artifact) == Some(File(w.decompressed.value)) &&
      ArchiveFile(p, ArchiveType(p.host, p.kind)) !in e.tree
    ensures var e := InstallSpec(t, p, w);
      Lookup(e.tree, EnvFile(p.host)) == Lookup(t, EnvFile(p.host)) && Lookup(e.tree, LinkPath(p)) == Lookup(t, LinkPath(p))
    ensures var e := InstallSpec(t, p, w);
      WellFormed(e.tree) && EnsureSpec(e.tree, p, later) == Done(e.tree, Pass)
  {
    ResticInstallEffect(t, p, w);
    ResticLeftLookup(t, p, w);
    PathsAroundInstall(p, ArchiveType(p.host, p.kind));
    StoreEntriesDistinct(p);
  }

  /** The conditions of a first Restic install whose download succeeds and whose bzip2 fails. */
  ghost predicate ResticBzip2Failure(t: Tree, p: Package, w: World)
  {
    Fresh(t, p, ArchiveType(p.host, p.kind)) && p.kind == Restic && w.fetched.Some? && w.decompressed.None?
  }

  /** The tree such an install leaves: the one `mv` left in the fresh install path. */
  function ResticStranded(t: Tree, p: Package, w: World): Tree
    requires w.fetched.Some?
  {
    var ty := ArchiveType(p.host, p.kind);
    Moved(Downloaded(t, p, ty, w.fetched.value)[InstallPath(p) := Dir], ArchiveFile(p, ty), InstallPath(p))
  }

  lemma {:induction false} ResticBzip2Effect(t: Tree, p: Package, w: World)
    requires ResticBzip2Failure(t, p, w)
    ensures InstallSpec(t, p, w) ==
      Done(ResticStranded(t, p, w), Fail(CommandFailed(ResticCommand(p.host, ArchiveFile(p, ArchiveType(p.host, p.kind)), InstallPath(p)))))
  {
    var h := p.host;
    var ty := ArchiveType(h, p.kind);
    var ark := ArchiveFile(p, ty);
    var ip := InstallPath(p);
    DownloadStep(t, p, ty, false, w);
    InstallDirStep(t, p, ty, w.fetched.value);
    var t3 := Downloaded(t, p, ty, w.fetched.value)[ip := Dir];
    PathsAroundInstall(p, ty);
    ResticBzip2FailStep(t3, p, ark, w.fetched.value, ResticCommand(h, ark, ip), w);
  }

  lemma {:induction false} ResticStrandedLookup(t: Tree, p: Package, w: World)
    requires ResticBzip2Failure(t, p, w)
    ensures var ark := ArchiveFile(p, ArchiveType(p.host, p.kind)); var d := ResticStranded(t, p, w);
      ark !in d && ResticTarget(InstallPath(p)) !in d &&
      Lookup(d, ResticCompressed(InstallPath(p))) == Some(File(w.fetched.value))
    ensures var ark := ArchiveFile(p, ArchiveType(p.host, p.kind));
      forall k :: !(InstallPath(p) <= k) && k != ark ==> Lookup(ResticStranded(t, p, w), k) == Lookup(t, k)
  {
    var ty := ArchiveType(p.host, p.kind);
    var ark := ArchiveFile(p, ty);
    var ip := InstallPath(p);
    PathsAroundInstall(p, ty);
    assert ResticTarget(ip)[|ip|] == "restic" && ResticCompressed(ip)[|ip|] == "restic.bz2";
    assert ark != ip && ark != ResticCompressed(ip);
    assert ResticTarget(ip) !in t by {
      assert Parent(ResticTarget(ip)) == ip;
    }
    forall k | !(ip <= k) && k != ark ensures Lookup(ResticStranded(t, p, w), k) == Lookup(t, k) {
      assert k != ip && k != ResticCompressed(ip);
    }
  }

  /** A first Restic install whose download succeeds but whose bzip2 fails: the call raises the
      command, no binary is written, and the download has left the scratch directory for
      `restic.bz2` in the install path, where it stays, since Restic's install keeps its
      download; nothing outside the install path changes but the download's own entry. */
  lemma {:induction false} ResticBzip2Fails(t: Tree, p: Package, w: World)
    requires Fresh(t, p, ArchiveType(p.host, p.kind)) && p.kind == Restic
    requires w.fetched.Some? && w.decompressed.None?
    ensures var e := InstallSpec(t, p, w); var ark := ArchiveFile(p, ArchiveType(p.host, p.kind));
      e.known && e.outcome == Fail(CommandFailed(ResticCommand(p.host, ark, InstallPath(p)))) &&
      ark !in e.tree && ResticTarget(InstallPath(p)) !in e.tree &&
      Lookup(e.tree, ResticCompressed(InstallPath(p))) == Some(File(w.fetched.value))
    ensures var e := InstallSpec(t, p, w); var ark := ArchiveFile(p, ArchiveType(p.host, p.kind));
      forall k :: !(InstallPath(p) <= k) && k != ark ==> Lookup(e.tree, k) == Lookup(t, k)
  {
    assert ResticBzip2Failure(t, p, w);
    ResticBzip2Effect(t, p, w);
    ResticStrandedLookup(t, p, w);
  }

  /** Restic's own descriptor meets those conditions whenever the store is fresh. */
  lemma {:induction false} ResticDescriptorInstall(t: Tree, h: Host, version: string, w: World)
    requires Fresh(t, ResticPackage(h, version), "bz2") && w.fetched.Some? && w.decompressed.Some?
    ensures InstallSpec(t, ResticPackage(h, version), w).outcome ==
      Fail(Io(NotADirectory(InstallPath(ResticPackage(h, version)) + ["restic"])))
  {
    var p := ResticPackage(h, version);
    ResticShape(h, version);
    assert ResticInstall(t, p, w);
    ResticFreshInstall(t, p, w, w);
  }

  /** Restic's descriptor drills and names `restic` directly in its install path. */
  lemma {:induction false} ResticShape(h: Host, version: string)
    ensures var p := ResticPackage(h, version);
      p.kind == Restic && p.drill && p.artifact == InstallPath(p) + ["restic"] && ArchiveType(h, p.kind) == "bz2"
  {
    var p := ResticPackage(h, version);
    DrillingShape(NewPackage(h, Restic, "restic_" + WithoutV(version), ["restic"], Some(".")));
    OneBelow(InstallPath(p), p.artifact, "restic");
  }

  /** Turning drilling on changes nothing else. */
  lemma {:induction false} DrillingShape(q: Package)
    ensures Catalog.Drilling(q).drill && Catalog.Drilling(q).kind == q.kind && Catalog.Drilling(q).host == q.host
    ensures InstallPath(Catalog.Drilling(q)) == InstallPath(q) && Catalog.Drilling(q).artifact == q.artifact
  {
  }

  lemma {:induction false} OneBelow(ip: Path, artifact: Path, n: string)
    requires ip <= artifact && artifact[|ip|..] == [n]
    ensures artifact == ip + [n]
  {
    assert artifact == artifact[..|ip|] + artifact[|ip|..];
  }

  // ------------------------------------------------ a drilled and registered install

  /** The env file exists as a file and nothing but a file or link is at the link's place: the
      state in which `_add_path` cannot raise. */
  predicate ReadyToRegister(t: Tree, p: Package)
  {
    Lookup(t, EnvFile(p.host)).Some? && Lookup(t, EnvFile(p.host)).value.File? &&
    Lookup(t, LinkPath(p)) != Some(Dir)
  }

  lemma {:induction false} AddPathPasses(t: Tree, p: Package)
    requires WellFormed(t) && RegistersPath(p) && p.host.isPosix && ReadyToRegister(t, p)
    ensures AddPathSpec(t, p).outcome == Pass
  {
    StoreEntriesDistinct(p);
    var h := p.host;
    assert InitEnvSpec(t, h) == Done(t, Pass);
    assert Parent(LinkPath(p)) == Root(h) == Parent(EnvFile(h));
    var t2 := UnlinkAt(t, LinkPath(p), true).value;
    assert Lookup(t2, EnvFile(h)) == Lookup(t, EnvFile(h));
    var t3 := SymlinkAt(t2, LinkPath(p), InstallPath(p));
    assert Lookup(t3, EnvFile(h)) == Lookup(t, EnvFile(h));
  }

  /** A tool's tree with one top directory, of a name it does not hold itself, holding other
      than exactly one entry. */
  ghost predicate SingleTop(tree: Tree, top: string)
  {
    && Children(tree, []) == {top} && Lookup(tree, [top]) == Some(Dir)
    && top !in Children(tree, [top]) && |Children(tree, [top])| != 1
  }

  /** Under the fresh install path the tool's tree lists as it does on its own. */
  lemma {:induction false} UnpackedChildren(t: Tree, p: Package, w: World, q: Path)
    requires ToolInstall(t, p, w)
    ensures Children(Unpacked(t, p, w), InstallPath(p) + q) == Children(w.unpacked.value, q)
  {
    UnpackedLookup(t, p, w);
    ChildrenGrafted(Unpacked(t, p, w), w.unpacked.value, InstallPath(p), q);
  }

  /** A tree grafted at `ip` lists below `ip` as it does on its own. */
  lemma {:induction false} ChildrenGrafted(a: Tree, tree: Tree, ip: Path, q: Path)
    requires forall r :: r in tree ==> Lookup(a, ip + r) == Some(tree[r])
    requires forall r :: r != [] && r !in tree ==> Lookup(a, ip + r) == None
    ensures Children(a, ip + q) == Children(tree, q)
  {
    forall n ensures n in Children(a, ip + q) <==> n in Children(tree, q) {
      ChildIff(a, ip + q, n);
      ChildIff(tree, q, n);
      assert ip + q + [n] == ip + (q + [n]);
      assert q + [n] != [];
    }
  }

  /** Such a tree is drilled one level: its top directory vanishes and its entries sit directly
      under the install path. */
  lemma {:induction false} DrillSingleTop(t: Tree, p: Package, w: World, top: string)
    requires ToolInstall(t, p, w) && SingleTop(w.unpacked.value, top)
    ensures WellFormed(Unpacked(t, p, w))
    ensures DrillSpec(Unpacked(t, p, w), InstallPath(p)) == Drill([top], None)
  {
    var ip := InstallPath(p);
    UnpackedLookup(t, p, w);
    UnpackedChildren(t, p, w, []);
    UnpackedChildren(t, p, w, [top]);
    assert ip + [] == ip;
    DrillOneLevel(Unpacked(t, p, w), ip, top);
  }

  /** After lifting the top directory of a tree laid under `ip`, its entries sit directly
      under `ip`, and nothing outside `ip` moves. */
  lemma {:induction false} LiftedTop(t4: Tree, ip: Path, tree: Tree, top: string)
    requires forall r :: r in tree ==> Lookup(t4, ip + r) == Some(tree[r])
    ensures forall k :: !(ip < k) ==> Lookup(Rebase(t4, ip, [top]), k) == Lookup(t4, k)
    ensures forall r :: r != [] && [top] + r in tree ==> Lookup(Rebase(t4, ip, [top]), ip + r) == Some(tree[[top] + r])
  {
    forall k | !(ip < k) ensures Lookup(Rebase(t4, ip, [top]), k) == Lookup(t4, k) {
      RebaseLookup(t4, ip, [top], k);
    }
    forall r | r != [] && [top] + r in tree
      ensures Lookup(Rebase(t4, ip, [top]), ip + r) == Some(tree[[top] + r])
    {
      RebaseLookup(t4, ip, [top], ip + r);
      assert (ip + r)[|ip|..] == r;
      assert ip + [top] + r == ip + ([top] + r);
    }
  }

  /** On Linux the profile lies outside the store: it is neither the download nor at or below
      an install path. */
  lemma {:induction false} ProfileApart(p: Package, archiveType: string)
    requires p.host.isPosix
    ensures ArchiveFile(p, archiveType) != Profile(p.host)
    ensures !(InstallPath(p) <= Profile(p.host))
  {
    var n := |p.host.home|;
    assert Profile(p.host)[n] == ".profile";
    assert ArchiveFile(p, archiveType)[n] == ".config";
  }

  /** The conditions of a first install that drills into a single top directory of the tool's
      tree and then registers PATH, the env file already in place. */
  ghost predicate DrilledInstall(t: Tree, p: Package, w: World, top: string)
  {
    && ToolInstall(t, p, w) && p.drill && RegistersPath(p) && SingleTop(w.unpacked.value, top)
    && [top] + p.artifact[|InstallPath(p)|..] in w.unpacked.value && ReadyToRegister(t, p)
  }

  /** The tree once the top directory is drilled through. */
  function Drilled(t: Tree, p: Package, w: World, top: string): Tree
    requires w.fetched.Some? && w.unpacked.Some?
  {
    Rebase(Unpacked(t, p, w), InstallPath(p), [top])
  }

  lemma {:induction false} DrilledLookup(t: Tree, p: Package, w: World, top: string)
    requires DrilledInstall(t, p, w, top)
    ensures WellFormed(Drilled(t, p, w, top))
    ensures forall k :: !(InstallPath(p) <= k) && k != ArchiveFile(p, ArchiveType(p.host, p.kind)) ==>
      Lookup(Drilled(t, p, w, top), k) == Lookup(t, k)
    ensures Lookup(Drilled(t, p, w, top), ArchiveFile(p, ArchiveType(p.host, p.kind))) == Some(File(w.fetched.value))
    ensures Lookup(Drilled(t, p, w, top), p.artifact) == Some(w.unpacked.value[[top] + p.artifact[|InstallPath(p)|..]])
  {
    var ip := InstallPath(p);
    UnpackedLookup(t, p, w);
    PathsAroundInstall(p, ArchiveType(p.host, p.kind));
    var r := p.artifact[|ip|..];
    assert ip + r == p.artifact && r != [];
    LiftedTree(Unpacked(t, p, w), t, ip, ArchiveFile(p, ArchiveType(p.host, p.kind)), w.fetched.value,
      w.unpacked.value, top, r);
  }

  /** The same, for any tree `t4` that differs from `t` only below `ip` and at `ark`. */
  lemma {:induction false} LiftedTree(t4: Tree, t: Tree, ip: Path, ark: Path, bytes: string, tree: Tree, top: string, r: Path)
    requires WellFormed(t4) && Lookup(t4, ip) == Some(Dir) && !(ip <= ark)
    requires forall k :: !(ip <= k) && k != ark ==> Lookup(t4, k) == Lookup(t, k)
    requires Lookup(t4, ark) == Some(File(bytes))
    requires forall r :: r in tree ==> Lookup(t4, ip + r) == Some(tree[r])
    requires r != [] && [top] + r in tree
    ensures WellFormed(Rebase(t4, ip, [top]))
    ensures forall k :: !(ip <= k) && k != ark ==> Lookup(Rebase(t4, ip, [top]), k) == Lookup(t, k)
    ensures Lookup(Rebase(t4, ip, [top]), ark) == Some(File(bytes))
    ensures Lookup(Rebase(t4, ip, [top]), ip + r) == Some(tree[[top] + r])
  {
    RebaseWellFormed(t4, ip, [top]);
    LiftedTop(t4, ip, tree, top);
  }

  /** The env file and the link are where they were before the install. */
  lemma {:induction false} DrilledReady(t: Tree, p: Package, w: World, top: string)
    requires DrilledInstall(t, p, w, top)
    ensures Lookup(Drilled(t, p, w, top), EnvFile(p.host)) == Lookup(t, EnvFile(p.host))
    ensures Lookup(Drilled(t, p, w, top), LinkPath(p)) == Lookup(t, LinkPath(p))
    ensures ReadyToRegister(Drilled(t, p, w, top), p)
  {
    DrilledLookup(t, p, w, top);
    PathsAroundInstall(p, ArchiveType(p.host, p.kind));
  }

  lemma {:induction false} DrilledInstallEffect(t: Tree, p: Package, w: World, top: string)
    requires DrilledInstall(t, p, w, top)
    ensures WellFormed(Drilled(t, p, w, top))
    ensures InstallSpec(t, p, w) ==
      Finally(AddPathSpec(Drilled(t, p, w, top), p), ArchiveFile(p, ArchiveType(p.host, p.kind)), true)
  {
    var ip := InstallPath(p);
    ToolInstallSettles(t, p, w);
    UnpackedLookup(t, p, w);
    DrillSingleTop(t, p, w, top);
    RebaseWellFormed(Unpacked(t, p, w), ip, [top]);
    assert SettleSpec(Unpacked(t, p, w), p) == AddPathSpec(Drilled(t, p, w, top), p);
  }


  /** Such an install passes: the artifact exists at its place below the install path, the
      download is deleted, the link points at the install path, the env file gains the
      package's export line, and a later `ensure_installed` does nothing. */
  lemma {:induction false} DrilledFreshInstall(t: Tree, p: Package, w: World, top: string, later: World)
    requires DrilledInstall(t, p, w, top)
    ensures var e := InstallSpec(t, p, w);
      e.known && e.outcome == Pass && Installed(e.tree, p) && ArchiveFile(p, ArchiveType(p.host, p.kind)) !in e.tree
    ensures var e := InstallSpec(t, p, w);
      Lookup(e.tree, LinkPath(p)) == Some(Link(InstallPath(p))) &&
      Lookup(e.tree, EnvFile(p.host)) == Some(File(EnvAfter(PriorEnv(t, p.host), Tag(p), ExportLine(p))))
    ensures var e := InstallSpec(t, p, w);
      WellFormed(e.tree) && EnsureSpec(e.tree, p, later) == Done(e.tree, Pass)
  {
    var h := p.host;
    var ty := ArchiveType(h, p.kind);
    var ark := ArchiveFile(p, ty);
    var ip := InstallPath(p);
    DrilledInstallEffect(t, p, w, top);
    DrilledLookup(t, p, w, top);
    DrilledReady(t, p, w, top);
    PathsAroundInstall(p, ty);
    ProfileApart(p, ty);
    StoreEntriesDistinct(p);
    assert p.artifact != ark && p.artifact != Profile(h) && p.artifact != EnvFile(h) && p.artifact != LinkPath(p) by {
      assert ip <= p.artifact;
    }
    RegisteredThenCleaned(Drilled(t, p, w, top), t, p, ark, w.fetched.value, later);
  }

  /** Registering PATH in a tree ready for it and then deleting the download passes, leaves the
      artifact in place, and points the link and the env file at the install. */
  lemma {:induction false} RegisteredThenCleaned(d: Tree, t: Tree, p: Package, ark: Path, bytes: string, later: World)
    requires WellFormed(d) && RegistersPath(p) && p.host.isPosix && ReadyToRegister(d, p)
    requires Lookup(d, ark) == Some(File(bytes))
    requires ark != EnvFile(p.host) && ark != LinkPath(p) && ark != Profile(p.host)
    requires Lookup(d, EnvFile(p.host)) == Lookup(t, EnvFile(p.host))
    requires p.artifact in d
    requires p.artifact != ark && p.artifact != Profile(p.host) && p.artifact != EnvFile(p.host) && p.artifact != LinkPath(p)
    ensures var e := Finally(AddPathSpec(d, p), ark, true);
      e.known && e.outcome == Pass && Installed(e.tree, p) && ark !in e.tree
    ensures var e := Finally(AddPathSpec(d, p), ark, true);
      Lookup(e.tree, LinkPath(p)) == Some(Link(InstallPath(p))) &&
      Lookup(e.tree, EnvFile(p.host)) == Some(File(EnvAfter(PriorEnv(t, p.host), Tag(p), ExportLine(p))))
    ensures var e := Finally(AddPathSpec(d, p), ark, true);
      WellFormed(e.tree) && EnsureSpec(e.tree, p, later) == Done(e.tree, Pass)
  {
    var h := p.host;
    AddPathEffect(d, p);
    AddPathPasses(d, p);
    var a := AddPathSpec(d, p).tree;
    assert PriorEnv(d, h) == PriorEnv(t, h);
    assert Lookup(a, ark) == Lookup(d, ark);
    assert UnlinkAt(a, ark, false) == Success(a - {ark});
    UnlinkAtWellFormed(a, ark, false);
    assert Lookup(a, p.artifact) == Lookup(d, p.artifact);
  }

  /** Node is such a package: a first install on Linux whose archive holds one top directory
      with `bin/node` below it passes, links the store's `node` entry to the install and adds
      the export line for its `bin` directory. */
  lemma {:induction false} NodeFreshInstall(t: Tree, h: Host, version: string, w: World, top: string, later: World)
    requires Fresh(t, NodePackage(h, version), "tar.xz")
    requires w.fetched.Some? && w.unpacked.Some? && RelativeTree(w.unpacked.value)
    requires SingleTop(w.unpacked.value, top) && [top, "bin", "node"] in w.unpacked.value
    requires ReadyToRegister(t, NodePackage(h, version))
    ensures var p := NodePackage(h, version); var e := InstallSpec(t, p, w);
      e.known && e.outcome == Pass && Installed(e.tree, p) && ArchiveFile(p, "tar.xz") !in e.tree
    ensures var p := NodePackage(h, version); var e := InstallSpec(t, p, w);
      Lookup(e.tree, LinkPath(p)) == Some(Link(InstallPath(p))) &&
      Lookup(e.tree, EnvFile(h)) == Some(File(EnvAfter(PriorEnv(t, h), Tag(p), ExportLine(p))))
    ensures var p := NodePackage(h, version); var e := InstallSpec(t, p, w);
      WellFormed(e.tree) && EnsureSpec(e.tree, p, later) == Done(e.tree, Pass)
  {
    var p := NodePackage(h, version);
    NodeShape(h, version);
    ArchiveDispatch(p);
    ThreeNames(top, "bin", "node");
    assert Fresh(t, p, ArchiveType(p.host, p.kind));
    assert p.kind != Restic && DeletesSource(p.kind);
    assert ExtractionMethod(p.host, Render(p.host, ArchiveFile(p, ArchiveType(p.host, p.kind)))).Success?;
    assert ToolInstall(t, p, w);
    assert [top] + p.artifact[|InstallPath(p)|..] in w.unpacked.value;
    assert DrilledInstall(t, p, w, top);
    DrilledFreshInstall(t, p, w, top, later);
  }

  /** Node's descriptor drills, registers PATH and names `bin/node` below its install path. */
  lemma {:induction false} NodeShape(h: Host, version: string)
    ensures var p := NodePackage(h, version);
      p.kind == Node && p.drill && RegistersPath(p) && p.artifact[|InstallPath(p)|..] == ["bin", "node"]
  {
    DrillingShape(NewPackage(h, Node, "node_" + WithoutV(version), ["bin", "node"], Some("bin")));
  }

  lemma {:induction false} ThreeNames(a: string, b: string, c: string)
    ensures [a] + [b, c] == [a, b, c]
  {
  }

  // --------------------------------------------------------------------- remove

  /** `remove` uninstalls: the artifact is gone, so a later `ensure_installed` installs again,
      while everything outside the install path stays; in particular the link and the env
      line survive, the link now pointing at nothing. */
  lemma {:induction false} RemoveUninstalls(t: Tree, p: Package, w: World)
    requires WellFormed(t) && ClearOfStore(p) && InstallPath(p) <= p.artifact
    ensures var t' := RemoveTree(t, InstallPath(p));
      WellFormed(t') && !Installed(t', p) && InstallPath(p) !in t' &&
      EnsureSpec(t', p, w) == InstallSpec(t', p, w)
    ensures forall k :: !(InstallPath(p) <= k) ==> Lookup(RemoveTree(t, InstallPath(p)), k) == Lookup(t, k)
    ensures var t' := RemoveTree(t, InstallPath(p));
      Lookup(t', LinkPath(p)) == Lookup(t, LinkPath(p)) && Lookup(t', EnvFile(p.host)) == Lookup(t, EnvFile(p.host))
  {
    RemoveTreeWellFormed(t, InstallPath(p));
    StoreEntriesOutsideInstall(p);
    forall k ensures Lookup(RemoveTree(t, InstallPath(p)), k) == if InstallPath(p) <= k then None else Lookup(t, k) {
      RemoveTreeLookup(t, InstallPath(p), k);
    }
  }

  /** Removing what a plain first install laid down gives back the tree it started from, less
      the download's name. */
  lemma {:induction false} PlainInstallThenRemove(t: Tree, p: Package, w: World)
    requires PlainInstall(t, p, w)
    ensures RemoveTree(InstallSpec(t, p, w).tree, InstallPath(p)) == t - {ArchiveFile(p, ArchiveType(p.host, p.kind))}
  {
    var ip := InstallPath(p);
    var ark := ArchiveFile(p, ArchiveType(p.host, p.kind));
    PlainInstallEffect(t, p, w);
    PlainInstalledLookup(t, p, w);
    NothingWithinAbsent(t, ip);
    RemoveGrafted(PlainInstalled(t, p, w), t, ip, ark);
  }

  /** Removing the grafted directory from a tree that differs from `t` only there and at `ark`,
      where it holds nothing, gives `t` without `ark`. */
  lemma {:induction false} RemoveGrafted(d: Tree, t: Tree, ip: Path, ark: Path)
    requires forall k :: !(ip <= k) && k != ark ==> Lookup(d, k) == Lookup(t, k)
    requires ark !in d && forall k :: k in t ==> !(ip <= k)
    ensures RemoveTree(d, ip) == t - {ark}
  {
    var r := RemoveTree(d, ip);
    forall k ensures Lookup(r, k) == Lookup(t - {ark}, k) {
      RemoveTreeLookup(d, ip, k);
    }
    Extensionality(r, t - {ark});
  }
}
