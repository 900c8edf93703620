/** The package lifecycle on the host filesystem: `_init_env`, `_add_path`, `extract` (with its
    Restic override), `download_extract`, `install`, `is_installed`, `ensure_installed` and
    `remove`. Each operation is a method over `FileSystem` proved against a specification
    function that gives the tree it leaves behind and whether it raised. */
module Lifecycle {
  import opened Wrappers
  import opened Text
  import opened Files
  import opened Store
  import opened Archive
  import opened EnvLines
  import opened Drilling
  import opened Catalog

  /** The tree a sequence of calls leaves behind and whether it raised. `known` is false when
      drilling stopped at a name clash (the entries below the install path are then in an
      order-dependent arrangement, and `tree` is the state before the failing drilling step), and
      when an extraction command fails in a way its effect on the tree is not modelled (then
      `tree` is the state before the command); either way the call has raised. */
  datatype Effect = Effect(tree: Tree, outcome: Outcome<Error>, known: bool)

  function Done(t: Tree, o: Outcome<Error>): Effect
  {
    Effect(t, o, true)
  }

  /** What the outside world answers: the downloaded bytes (`None`: the download raises), the
      entries unzip or tar lays down relative to the destination (`None`: the command exits
      non-zero), the decompressed Restic binary (`None`: bzip2 exits non-zero), and the entries
      a failing unzip or tar has laid down before it exits (empty when it fails at once). */
  datatype World = World(fetched: Option<string>, unpacked: Option<Tree>, decompressed: Option<string>,
    partial: Tree)

  // ------------------------------------------------------------------ _init_env

  /** `_init_env`: on a Linux host, create the env file if it is missing and, in that case only,
      make the profile source it unless it already does. */
  function InitEnvSpec(t: Tree, h: Host): Effect
  {
    if !h.isPosix then Done(t, Fail(NotImplemented))
    else if EnvFile(h) in t then Done(t, Pass)
    else match TouchFile(t, EnvFile(h))
      case Failure(e) => Done(t, Fail(Io(e)))
      case Success(t1) => ProfileSpec(t1, h)
  }

  /** The text `_init_env` appends to the profile. */
  function ProfileAddition(h: Host): string
  {
    "\n" + SourcingLine(h) + "\n"
  }

  /** The profile step of `_init_env`. */
  function ProfileSpec(t: Tree, h: Host): Effect
  {
    var read := ReadFile(t, Profile(h));
    if Profile(h) in t && read.Failure? then Done(t, Fail(Io(read.error)))
    else if Profile(h) in t && Contains(read.value, SourcingLine(h)) then Done(t, Pass)
    else match WriteFile(t, Profile(h), ProfileAddition(h), true)
      case Failure(e) => Done(t, Fail(Io(e)))
      case Success(t2) => Done(t2, Pass)
  }

  method InitEnv(fs: FileSystem, h: Host) returns (r: Outcome<Error>)
    requires fs.Valid()
    modifies fs
    ensures fs.Valid()
    ensures Done(fs.entries, r) == InitEnvSpec(old(fs.entries), h)
  {
    if !h.isPosix {
      return Fail(NotImplemented);
    }
    if fs.Exists(EnvFile(h)) {
      return Pass;
    }
    var touched := fs.Touch(EnvFile(h));
    if touched.Fail? {
      return Fail(Io(touched.error));
    }
    r := AddSourcingLine(fs, h);
  }

  method AddSourcingLine(fs: FileSystem, h: Host) returns (r: Outcome<Error>)
    requires fs.Valid()
    modifies fs
    ensures fs.Valid()
    ensures Done(fs.entries, r) == ProfileSpec(old(fs.entries), h)
  {
    if fs.Exists(Profile(h)) {
      var text := fs.Read(Profile(h));
      if text.Failure? {
        return Fail(Io(text.error));
      }
      if Contains(text.value, SourcingLine(h)) {
        return Pass;
      }
    }
    var written := fs.Write(Profile(h), ProfileAddition(h), true);
    if written.Fail? {
      return Fail(Io(written.error));
    }
    r := Pass;
  }

  // ------------------------------------------------------------------ _add_path

  /** The env file's text as `_add_path` finds it after `_init_env`. */
  function EnvText(t: Tree, h: Host): Result<string, FsError>
  {
    ReadFile(t, EnvFile(h))
  }

  /** `_add_path`: nothing for a package without a PATH entry; otherwise `_init_env`, read the env
      file's lines, drop the first tagged one, replace the link, append the export line and
      write the lines back. */
  function AddPathSpec(t: Tree, p: Package): Effect
  {
    if !RegistersPath(p) then Done(t, Pass)
    else
      var e1 := InitEnvSpec(t, p.host);
      if e1.outcome.Fail? then e1
      else match EnvText(e1.tree, p.host)
        case Failure(e) => Done(e1.tree, Fail(Io(e)))
        case Success(text) =>
          match UnlinkAt(e1.tree, LinkPath(p), true)
          case Failure(e) => Done(e1.tree, Fail(Io(e)))
          case Success(t2) =>
            var t3 := SymlinkAt(t2, LinkPath(p), InstallPath(p));
            match WriteFile(t3, EnvFile(p.host), EnvAfter(text, Tag(p), ExportLine(p)), false)
            case Failure(e) => Done(t3, Fail(Io(e)))
            case Success(t4) => Done(t4, Pass)
  }

  method AddPath(fs: FileSystem, p: Package) returns (r: Outcome<Error>)
    requires fs.Valid()
    modifies fs
    ensures fs.Valid()
    ensures Done(fs.entries, r) == AddPathSpec(old(fs.entries), p)
  {
    if !RegistersPath(p) {
      return Pass;
    }
    r := InitEnv(fs, p.host);
    if r.Fail? {
      return;
    }
    var text := fs.Read(EnvFile(p.host));
    if text.Failure? {
      return Fail(Io(text.error));
    }
    var env := RemoveFirstTagged(ReadLines(text.value), Tag(p));
    var unlinked := fs.Unlink(LinkPath(p), true);
    if unlinked.Fail? {
      return Fail(Io(unlinked.error));
    }
    fs.Symlink(LinkPath(p), InstallPath(p));
    env := env + [ExportLine(p)];
    var written := fs.Write(EnvFile(p.host), JoinLines(env), false);
    if written.Fail? {
      return Fail(Io(written.error));
    }
    r := Pass;
  }

  // ----------------------------------------------------- after the tool has run

  /** The part of `extract`'s `try` after the command: drill into the install path when the
      package asks for it, then register PATH. */
  ghost function SettleSpec(t: Tree, p: Package): Effect
    requires WellFormed(t)
  {
    if p.drill then
      var d := DrillSpec(t, InstallPath(p));
      var t1 := Rebase(t, InstallPath(p), d.chain);
      if d.error.Some? then Effect(t1, Fail(Io(d.error.value)), !IsClash(d))
      else AddPathSpec(t1, p)
    else AddPathSpec(t, p)
  }

  method Settle(fs: FileSystem, p: Package) returns (r: Outcome<Error>)
    requires fs.Valid()
    modifies fs
    ensures fs.Valid()
    ensures r == SettleSpec(old(fs.entries), p).outcome
    ensures SettleSpec(old(fs.entries), p).known ==> fs.entries == SettleSpec(old(fs.entries), p).tree
  {
    if p.drill {
      var drilled := DrillSingletonDirs(fs, InstallPath(p));
      if drilled.Fail? {
        return Fail(Io(drilled.error));
      }
    }
    r := AddPath(fs, p);
  }

  /** The `finally`: with `delete_src` the source is unlinked, and an error from that replaces
      whatever the `try` gave. */
  function Finally(e: Effect, src: Path, deleteSrc: bool): Effect
  {
    if !deleteSrc then e
    else match UnlinkAt(e.tree, src, false)
      case Failure(err) => Effect(e.tree, Fail(Io(err)), e.known)
      case Success(t) => Effect(t, e.outcome, e.known)
  }

  method Cleanup(fs: FileSystem, r0: Outcome<Error>, src: Path, deleteSrc: bool) returns (r: Outcome<Error>)
    requires fs.Valid()
    modifies fs
    ensures fs.Valid()
    ensures Done(fs.entries, r) == Finally(Done(old(fs.entries), r0), src, deleteSrc)
  {
    r := r0;
    if deleteSrc {
      var unlinked := fs.Unlink(src, false);
      if unlinked.Fail? {
        r := Fail(Io(unlinked.error));
      }
    }
  }

  // -------------------------------------------------------------------- extract

  /** The generic `try` body: a successful command lays its tree under `dst` and the package
      settles; an unsuccessful one leaves what it laid down before exiting and raises. Output
      that cannot be laid under `dst` as a tree (a file where a directory is, say) makes the
      command fail with its effect unknown. */
  ghost function UnpackSpec(t: Tree, p: Package, dst: Path, cmd: string, w: World): Effect
    requires WellFormed(t)
  {
    if w.unpacked.Some? then
      if FitsUnder(t, dst, w.unpacked.value) then
        OverlayWellFormed(t, dst, w.unpacked.value);
        SettleSpec(Overlay(t, dst, w.unpacked.value), p)
      else Effect(t, Fail(CommandFailed(cmd)), false)
    else if FitsUnder(t, dst, w.partial) then Done(Overlay(t, dst, w.partial), Fail(CommandFailed(cmd)))
    else Effect(t, Fail(CommandFailed(cmd)), false)
  }

  /** `extract`: choose the template (raising on an unsupported archive or a host other than
      Linux) and fill it in, then the rest. */
  ghost function ExtractSpec(t: Tree, p: Package, src: Path, dst: Path, deleteSrc: bool, w: World): Effect
    requires WellFormed(t)
  {
    match ExtractionMethod(p.host, Render(p.host, src))
    case Failure(e) => Done(t, Fail(e))
    case Success(m) =>
      ExtractFrom(t, p, src, dst, Format(m, Render(p.host, src), Render(p.host, dst)), deleteSrc, w)
  }

  /** Create the destination, then the command and what follows it in the `try`, then the
      `finally`. */
  ghost function ExtractFrom(t: Tree, p: Package, src: Path, dst: Path, cmd: string, deleteSrc: bool,
    w: World): Effect
    requires WellFormed(t)
  {
    match MkDirsAt(t, dst)
    case Failure(e) => Done(t, Fail(Io(e)))
    case Success(t1) =>
      MkDirsAtWellFormed(t, dst);
      Finally(UnpackSpec(t1, p, dst, cmd, w), src, deleteSrc)
  }

  method Unpack(fs: FileSystem, p: Package, dst: Path, cmd: string, w: World) returns (r: Outcome<Error>)
    requires fs.Valid()
    modifies fs
    ensures fs.Valid()
    ensures r == UnpackSpec(old(fs.entries), p, dst, cmd, w).outcome
    ensures UnpackSpec(old(fs.entries), p, dst, cmd, w).known ==>
      fs.entries == UnpackSpec(old(fs.entries), p, dst, cmd, w).tree
  {
    if w.unpacked.Some? && FitsUnder(fs.entries, dst, w.unpacked.value) {
      fs.Unpack(dst, w.unpacked.value);
      r := Settle(fs, p);
    } else {
      if w.unpacked.None? && FitsUnder(fs.entries, dst, w.partial) {
        fs.Unpack(dst, w.partial);
      }
      r := Fail(CommandFailed(cmd));
    }
  }

  /** The `finally` never turns a failure into a success. */
  lemma {:induction false} FinallyKeepsFailure(e: Effect, src: Path, deleteSrc: bool)
    ensures e.outcome.Fail? ==> Finally(e, src, deleteSrc).outcome.Fail?
  {
  }

  /** Only a failure can leave the tree unknown. */
  lemma {:induction false} SettleUnknownFails(t: Tree, p: Package)
    requires WellFormed(t)
    ensures !SettleSpec(t, p).known ==> SettleSpec(t, p).outcome.Fail?
  {
    AddPathKnown(t, p);
    if p.drill {
      AddPathKnown(Rebase(t, InstallPath(p), DrillSpec(t, InstallPath(p)).chain), p);
    }
  }

  /** `_init_env` and `_add_path` always leave a known tree. */
  lemma {:induction false} AddPathKnown(t: Tree, p: Package)
    ensures AddPathSpec(t, p).known
  {
    if RegistersPath(p) {
      InitEnvKnown(t, p.host);
    }
  }

  lemma {:induction false} InitEnvKnown(t: Tree, h: Host)
    ensures InitEnvSpec(t, h).known
  {
    if h.isPosix && EnvFile(h) !in t && TouchFile(t, EnvFile(h)).Success? {
      ProfileKnown(TouchFile(t, EnvFile(h)).value, h);
    }
  }

  lemma {:induction false} ProfileKnown(t: Tree, h: Host)
    ensures ProfileSpec(t, h).known
  {
  }

  lemma {:induction false} UnpackUnknownFails(t: Tree, p: Package, dst: Path, cmd: string, w: World)
    requires WellFormed(t)
    ensures !UnpackSpec(t, p, dst, cmd, w).known ==> UnpackSpec(t, p, dst, cmd, w).outcome.Fail?
  {
    if w.unpacked.Some? && FitsUnder(t, dst, w.unpacked.value) {
      OverlayWellFormed(t, dst, w.unpacked.value);
      SettleUnknownFails(Overlay(t, dst, w.unpacked.value), p);
    }
  }

  /** Running the `finally` on the state the `try` body actually reached gives what the
      specification's `finally` gives, whenever the body's state is known, and passes exactly
      when it does. */
  lemma {:induction false} FinallyTracks(body: Effect, t2: Tree, tried: Outcome<Error>, t: Tree, r: Outcome<Error>, src: Path,
    deleteSrc: bool)
    requires body.known ==> Done(t2, tried) == body
    requires tried.Pass? <==> body.outcome.Pass?
    requires !body.known ==> body.outcome.Fail?
    requires Done(t, r) == Finally(Done(t2, tried), src, deleteSrc)
    ensures Finally(body, src, deleteSrc).known ==> Done(t, r) == Finally(body, src, deleteSrc)
    ensures r.Pass? <==> Finally(body, src, deleteSrc).outcome.Pass?
  {
    FinallyKeepsFailure(Done(t2, tried), src, deleteSrc);
    FinallyKeepsFailure(body, src, deleteSrc);
  }

  method Extract(fs: FileSystem, p: Package, src: Path, dst: Path, deleteSrc: bool, w: World)
    returns (r: Outcome<Error>)
    requires fs.Valid()
    modifies fs
    ensures fs.Valid()
    ensures ExtractSpec(old(fs.entries), p, src, dst, deleteSrc, w).known ==>
      Done(fs.entries, r) == ExtractSpec(old(fs.entries), p, src, dst, deleteSrc, w)
    ensures r.Pass? <==> ExtractSpec(old(fs.entries), p, src, dst, deleteSrc, w).outcome.Pass?
  {
    var template := ExtractionMethod(p.host, Render(p.host, src));
    if template.Failure? {
      return Fail(template.error);
    }
    var cmd := Format(template.value, Render(p.host, src), Render(p.host, dst));
    r := RunExtract(fs, p, src, dst, cmd, deleteSrc, w);
  }

  method RunExtract(fs: FileSystem, p: Package, src: Path, dst: Path, cmd: string, deleteSrc: bool,
    w: World) returns (r: Outcome<Error>)
    requires fs.Valid()
    modifies fs
    ensures fs.Valid()
    ensures ExtractFrom(old(fs.entries), p, src, dst, cmd, deleteSrc, w).known ==>
      Done(fs.entries, r) == ExtractFrom(old(fs.entries), p, src, dst, cmd, deleteSrc, w)
    ensures r.Pass? <==> ExtractFrom(old(fs.entries), p, src, dst, cmd, deleteSrc, w).outcome.Pass?
  {
    var made := fs.MkDirs(dst);
    if made.Fail? {
      return Fail(Io(made.error));
    }
    MkDirsAtWellFormed(old(fs.entries), dst);
    ghost var body := UnpackSpec(fs.entries, p, dst, cmd, w);
    UnpackUnknownFails(fs.entries, p, dst, cmd, w);
    var tried := Unpack(fs, p, dst, cmd, w);
    ghost var t2 := fs.entries;
    r := Cleanup(fs, tried, src, deleteSrc);
    FinallyTracks(body, t2, tried, fs.entries, r, src, deleteSrc);
    assert ExtractFrom(old(fs.entries), p, src, dst, cmd, deleteSrc, w) == Finally(body, src, deleteSrc);
  }

  // -------------------------------------------------------------- Restic.extract

  /** Where `Restic.extract` puts the binary, and the `.bz2` name it moves the download to. */
  function ResticTarget(dstDir: Path): Path
  {
    dstDir + ["restic"]
  }

  function ResticCompressed(dstDir: Path): Path
  {
    dstDir + ["restic.bz2"]
  }

  /** The command `Restic.extract` runs. */
  function ResticCommand(h: Host, src: Path, dstDir: Path): string
  {
    var dst := Render(h, ResticTarget(dstDir));
    "mv " + Render(h, src) + " " + dst + ".bz2 && bzip2 -fd " + dst + ".bz2 && chmod +x " + dst
  }

  /** `mv` raises and changes nothing: the download is missing or already has the `.bz2` name,
      or the destination directory is missing or a file. */
  predicate MoveRefused(t: Tree, src: Path, dstDir: Path)
  {
    src !in t || src == ResticCompressed(dstDir) || dstDir !in t || t[dstDir].File?
  }

  /** The cases whose effect is not modelled: a download that is a directory or a link, a
      destination that is a link, a directory or link at the `.bz2` name, or a directory at
      the binary's name. */
  predicate MoveUnmodelled(t: Tree, src: Path, dstDir: Path)
  {
    || !CanRelocate(t, src, ResticCompressed(dstDir))
    || (ResticCompressed(dstDir) in t && t[ResticCompressed(dstDir)].Link?)
    || Lookup(t, ResticTarget(dstDir)) == Some(Dir)
  }

  /** The tree once `mv` has moved the download to the `.bz2` name. */
  function Moved(t: Tree, src: Path, dstDir: Path): Tree
    requires src in t
  {
    Relocated(t, src, ResticCompressed(dstDir), t[src])
  }

  lemma {:induction false} MovedWellFormed(t: Tree, src: Path, dstDir: Path, binary: string)
    requires WellFormed(t) && !MoveRefused(t, src, dstDir) && !MoveUnmodelled(t, src, dstDir)
    ensures WellFormed(Moved(t, src, dstDir))
    ensures CanRelocate(Moved(t, src, dstDir), ResticCompressed(dstDir), ResticTarget(dstDir))
    ensures WellFormed(Relocated(Moved(t, src, dstDir), ResticCompressed(dstDir), ResticTarget(dstDir), File(binary)))
    ensures Lookup(Moved(t, src, dstDir), ResticTarget(dstDir)) != Some(Dir)
  {
    var z := ResticCompressed(dstDir);
    var target := ResticTarget(dstDir);
    RelocatedWellFormed(t, src, z, t[src]);
    assert Parent(target) == dstDir && Parent(z) == dstDir;
    assert target != z by { assert target[|dstDir|] != z[|dstDir|]; }
    RelocatedWellFormed(Moved(t, src, dstDir), z, target, File(binary));
  }

  /** Restic's `try` body, the command's three steps in turn. `mv` moves the download to
      `restic.bz2` (see `MoveRefused` for when it raises instead). `bzip2 -fd` then either turns
      `restic.bz2` into the binary `restic`, after which the package settles, or raises having
      removed any `restic` it began, leaving the moved download in place. `chmod +x` on the
      file just written does not fail. */
  ghost function DecompressSpec(t: Tree, p: Package, src: Path, dstDir: Path, cmd: string, w: World): Effect
    requires WellFormed(t)
  {
    if MoveRefused(t, src, dstDir) then Done(t, Fail(CommandFailed(cmd)))
    else if MoveUnmodelled(t, src, dstDir) then Effect(t, Fail(CommandFailed(cmd)), false)
    else
      var moved := Moved(t, src, dstDir);
      if w.decompressed.None? then Done(moved - {ResticTarget(dstDir)}, Fail(CommandFailed(cmd)))
      else
        MovedWellFormed(t, src, dstDir, w.decompressed.value);
        SettleSpec(Relocated(moved, ResticCompressed(dstDir), ResticTarget(dstDir), File(w.decompressed.value)), p)
  }

  /** `Restic.extract`: no template and no host check; create the destination directory, then
      the `try` body and the `finally`. */
  ghost function ResticExtractSpec(t: Tree, p: Package, src: Path, dstDir: Path, deleteSrc: bool, w: World)
    : Effect
    requires WellFormed(t)
  {
    match MkDirsAt(t, dstDir)
    case Failure(e) => Done(t, Fail(Io(e)))
    case Success(t1) =>
      MkDirsAtWellFormed(t, dstDir);
      Finally(DecompressSpec(t1, p, src, dstDir, ResticCommand(p.host, src, dstDir), w), src, deleteSrc)
  }

  method Decompress(fs: FileSystem, p: Package, src: Path, dstDir: Path, cmd: string, w: World)
    returns (r: Outcome<Error>)
    requires fs.Valid()
    modifies fs
    ensures fs.Valid()
    ensures r == DecompressSpec(old(fs.entries), p, src, dstDir, cmd, w).outcome
    ensures DecompressSpec(old(fs.entries), p, src, dstDir, cmd, w).known ==>
      fs.entries == DecompressSpec(old(fs.entries), p, src, dstDir, cmd, w).tree
  {
    if MoveRefused(fs.entries, src, dstDir) || MoveUnmodelled(fs.entries, src, dstDir) {
      return Fail(CommandFailed(cmd));
    }
    MovedWellFormed(fs.entries, src, dstDir, if w.decompressed.Some? then w.decompressed.value else "");
    fs.MoveFile(src, ResticCompressed(dstDir));
    if w.decompressed.None? {
      ghost var moved := fs.entries;
      var removed := fs.Unlink(ResticTarget(dstDir), true);
      assert ResticTarget(dstDir) !in moved ==> moved - {ResticTarget(dstDir)} == moved;
      r := Fail(CommandFailed(cmd));
    } else {
      fs.Convert(ResticCompressed(dstDir), ResticTarget(dstDir), w.decompressed.value);
      r := Settle(fs, p);
    }
  }

  method ResticExtract(fs: FileSystem, p: Package, src: Path, dstDir: Path, deleteSrc: bool, w: World)
    returns (r: Outcome<Error>)
    requires fs.Valid()
    modifies fs
    ensures fs.Valid()
    ensures ResticExtractSpec(old(fs.entries), p, src, dstDir, deleteSrc, w).known ==>
      Done(fs.entries, r) == ResticExtractSpec(old(fs.entries), p, src, dstDir, deleteSrc, w)
    ensures r.Pass? <==> ResticExtractSpec(old(fs.entries), p, src, dstDir, deleteSrc, w).outcome.Pass?
  {
    var cmd := ResticCommand(p.host, src, dstDir);
    var made := fs.MkDirs(dstDir);
    if made.Fail? {
      return Fail(Io(made.error));
    }
    MkDirsAtWellFormed(old(fs.entries), dstDir);
    ghost var body := DecompressSpec(fs.entries, p, src, dstDir, cmd, w);
    DecompressUnknownFails(fs.entries, p, src, dstDir, cmd, w);
    var tried := Decompress(fs, p, src, dstDir, cmd, w);
    ghost var t2 := fs.entries;
    r := Cleanup(fs, tried, src, deleteSrc);
    FinallyTracks(body, t2, tried, fs.entries, r, src, deleteSrc);
    assert ResticExtractSpec(old(fs.entries), p, src, dstDir, deleteSrc, w) == Finally(body, src, deleteSrc);
  }

  lemma {:induction false} DecompressUnknownFails(t: Tree, p: Package, src: Path, dstDir: Path, cmd: string, w: World)
    requires WellFormed(t)
    ensures !DecompressSpec(t, p, src, dstDir, cmd, w).known ==> DecompressSpec(t, p, src, dstDir, cmd, w).outcome.Fail?
  {
    if !MoveRefused(t, src, dstDir) && !MoveUnmodelled(t, src, dstDir) && w.decompressed.Some? {
      MovedWellFormed(t, src, dstDir, w.decompressed.value);
      SettleUnknownFails(Relocated(Moved(t, src, dstDir), ResticCompressed(dstDir), ResticTarget(dstDir),
        File(w.decompressed.value)), p);
    }
  }

  // ------------------------------------------------------- download and install

  /** `download_extract` without an `extract_dir`: make the scratch directory, download
      `<name>.<type>` into it, and extract into the install path with the package's own
      `extract`. */
  ghost function DownloadExtractSpec(t: Tree, p: Package, archiveType: string, deleteSrc: bool, w: World)
    : Effect
    requires WellFormed(t)
  {
    match MkDirsAt(t, TmpDir(p.host))
    case Failure(e) => Done(t, Fail(Io(e)))
    case Success(t1) =>
      MkDirsAtWellFormed(t, TmpDir(p.host));
      var ark := ArchiveFile(p, archiveType);
      if w.fetched.None? then Done(t1, Fail(DownloadFailed))
      else match WriteFile(t1, ark, w.fetched.value, false)
        case Failure(e) => Done(t1, Fail(Io(e)))
        case Success(t2) =>
          WriteFileWellFormed(t1, ark, w.fetched.value, false);
          ExtractBy(t2, p, ark, deleteSrc, w)
  }

  /** Restic's `extract` override, or the generic one. */
  ghost function ExtractBy(t: Tree, p: Package, ark: Path, deleteSrc: bool, w: World): Effect
    requires WellFormed(t)
  {
    if p.kind == Restic then ResticExtractSpec(t, p, ark, InstallPath(p), deleteSrc, w)
    else ExtractSpec(t, p, ark, InstallPath(p), deleteSrc, w)
  }

  method DownloadExtract(fs: FileSystem, p: Package, archiveType: string, deleteSrc: bool, w: World)
    returns (r: Outcome<Error>)
    requires fs.Valid()
    modifies fs
    ensures fs.Valid()
    ensures DownloadExtractSpec(old(fs.entries), p, archiveType, deleteSrc, w).known ==>
      Done(fs.entries, r) == DownloadExtractSpec(old(fs.entries), p, archiveType, deleteSrc, w)
    ensures r.Pass? <==> DownloadExtractSpec(old(fs.entries), p, archiveType, deleteSrc, w).outcome.Pass?
  {
    var made := fs.MkDirs(TmpDir(p.host));
    if made.Fail? {
      return Fail(Io(made.error));
    }
    MkDirsAtWellFormed(old(fs.entries), TmpDir(p.host));
    var ark := ArchiveFile(p, archiveType);
    if w.fetched.None? {
      return Fail(DownloadFailed);
    }
    ghost var t1 := fs.entries;
    var written := fs.Write(ark, w.fetched.value, false);
    if written.Fail? {
      return Fail(Io(written.error));
    }
    WriteFileWellFormed(t1, ark, w.fetched.value, false);
    if p.kind == Restic {
      r := ResticExtract(fs, p, ark, InstallPath(p), deleteSrc, w);
    } else {
      r := Extract(fs, p, ark, InstallPath(p), deleteSrc, w);
    }
  }

  /** `install`: every descriptor downloads its archive type and extracts it, deleting the
      download unless it is Restic's. */
  ghost function InstallSpec(t: Tree, p: Package, w: World): Effect
    requires WellFormed(t)
  {
    DownloadExtractSpec(t, p, ArchiveType(p.host, p.kind), DeletesSource(p.kind), w)
  }

  method Install(fs: FileSystem, p: Package, w: World) returns (r: Outcome<Error>)
    requires fs.Valid()
    modifies fs
    ensures fs.Valid()
    ensures InstallSpec(old(fs.entries), p, w).known ==> Done(fs.entries, r) == InstallSpec(old(fs.entries), p, w)
    ensures r.Pass? <==> InstallSpec(old(fs.entries), p, w).outcome.Pass?
  {
    r := DownloadExtract(fs, p, ArchiveType(p.host, p.kind), DeletesSource(p.kind), w);
  }

  // ------------------------------------------------- installed, ensured, removed

  /** `is_installed`: the artifact exists. */
  predicate Installed(t: Tree, p: Package)
  {
    p.artifact in t
  }

  function IsInstalled(fs: FileSystem, p: Package): (r: bool)
    reads fs
    ensures r <==> Installed(fs.entries, p)
  {
    fs.Exists(p.artifact)
  }

  /** `ensure_installed`: install only when the artifact is missing. */
  ghost function EnsureSpec(t: Tree, p: Package, w: World): Effect
    requires WellFormed(t)
  {
    if Installed(t, p) then Done(t, Pass) else InstallSpec(t, p, w)
  }

  method EnsureInstalled(fs: FileSystem, p: Package, w: World) returns (artifact: Path, r: Outcome<Error>)
    requires fs.Valid()
    modifies fs
    ensures fs.Valid()
    ensures artifact == p.artifact
    ensures EnsureSpec(old(fs.entries), p, w).known ==> Done(fs.entries, r) == EnsureSpec(old(fs.entries), p, w)
    ensures r.Pass? <==> EnsureSpec(old(fs.entries), p, w).outcome.Pass?
  {
    if !IsInstalled(fs, p) {
      r := Install(fs, p, w);
    } else {
      r := Pass;
    }
    artifact := p.artifact;
  }

  /** `remove`: `rm -rf` on the install path. */
  method Remove(fs: FileSystem, p: Package)
    requires fs.Valid()
    modifies fs
    ensures fs.Valid()
    ensures fs.entries == RemoveTree(old(fs.entries), InstallPath(p))
  {
    fs.RemoveAll(InstallPath(p));
  }
}
