/** The store every package lives in, the paths derived from it, and the package value the
    descriptors build (`Package.__init__`, `path`, the link and tag names, the PATH line). */
module Store {
  import opened Wrappers
  import opened Text
  import opened Files

  /** The host: whether it is a Linux host (platform detection, made a parameter) and the
      user's home directory. */
  datatype Host = Host(isPosix: bool, home: Path)

  /** The store root, `~/.config/subpack` or `~/AppData/Roaming/subpack`. */
  function Root(h: Host): Path
  {
    h.home + (if h.isPosix then [".config", "subpack"] else ["AppData", "Roaming", "subpack"])
  }

  /** The executable suffix. */
  function Exe(h: Host): string
  {
    if h.isPosix then "" else ".exe"
  }

  function EnvFile(h: Host): Path
  {
    Root(h) + ["env"]
  }

  function TmpDir(h: Host): Path
  {
    Root(h) + ["tmp"]
  }

  function Profile(h: Host): Path
  {
    h.home + [".profile"]
  }

  /** `str(path)`: an absolute path as the host writes it. */
  function Render(h: Host, p: Path): string
  {
    if h.isPosix then "/" + JoinWith(p, "/") else JoinWith(p, "\\")
  }

  /** Rendering a path with one more component adds a separator and the component. */
  lemma {:induction false} RenderSnoc(h: Host, q: Path, x: string)
    requires q != []
    ensures Render(h, q + [x]) == Render(h, q) + (if h.isPosix then "/" else "\\") + x
  {
    JoinWithSnoc(q, x, if h.isPosix then "/" else "\\");
  }

  /** The descriptor classes; a package's class decides its tag and its link name. */
  datatype Kind =
    | Electron | Zig | GccArmNone | GccArmLinux | TiPruNone | StLink | Bun | Node | EsBuild | Restic

  /** `self.__class__.__name__`. */
  function ClassName(k: Kind): string
  {
    match k
    case Electron => "Electron"
    case Zig => "Zig"
    case GccArmNone => "GccArmNone"
    case GccArmLinux => "GccArmLinux"
    case TiPruNone => "TiPruNone"
    case StLink => "StLink"
    case Bun => "Bun"
    case Node => "Node"
    case EsBuild => "EsBuild"
    case Restic => "Restic"
  }

  /** A package: where it lives (`name` under the root), its primary file, the directory it adds
      to PATH (relative to the install path, `None` when it adds none) and whether extraction
      drills through singleton directories. */
  datatype Package = Package(
    host: Host, kind: Kind, name: string, artifact: Path, addPath: Option<string>, drill: bool)

  /** `Package.__init__`: the artifact is given relative to the install path; drilling is off. */
  function NewPackage(host: Host, kind: Kind, name: string, artifact: Path, addPath: Option<string>)
    : (p: Package)
    ensures p.host == host && p.kind == kind && p.name == name && p.addPath == addPath && !p.drill
    ensures InstallPath(p) <= p.artifact && p.artifact[|InstallPath(p)|..] == artifact
    ensures artifact != [] ==> InstallPath(p) < p.artifact
  {
    Package(host, kind, name, Root(host) + [name] + artifact, addPath, false)
  }

  /** `Package.path`. */
  function InstallPath(p: Package): Path
  {
    Root(p.host) + [p.name]
  }

  /** The link in the root, named after the lower-cased class name, that PATH goes through. */
  function LinkPath(p: Package): Path
  {
    Root(p.host) + [Lower(ClassName(p.kind))]
  }

  /** The comment that marks a package's line in the env file. */
  function Tag(p: Package): string
  {
    "# " + ClassName(p.kind)
  }

  /** `add_path` is truthy: present and not the empty string. */
  predicate RegistersPath(p: Package)
  {
    p.addPath.Some? && p.addPath.value != []
  }

  /** The components pathlib keeps from a relative path text: empty parts and `.` vanish, and
      every other part is kept. */
  function Components(parts: seq<string>): (r: seq<string>)
    ensures forall i :: 0 <= i < |r| ==> r[i] != [] && r[i] != "."
    ensures forall x :: x in r <==> x in parts && x != [] && x != "."
  {
    if parts == [] then []
    else
      assert forall x :: x in parts <==> x == parts[0] || x in parts[1..];
      if parts[0] == [] || parts[0] == "." then Components(parts[1..])
      else [parts[0]] + Components(parts[1..])
  }

  /** Keeping the components of two runs of parts one after the other keeps them in order: the
      kept parts of `a` come first, then those of `b`. */
  lemma {:induction false} ComponentsConcat(a: seq<string>, b: seq<string>)
    ensures Components(a + b) == Components(a) + Components(b)
  {
    if a == [] {
      assert a + b == b;
    } else {
      assert (a + b)[0] == a[0] && (a + b)[1..] == a[1..] + b;
      ComponentsConcat(a[1..], b);
    }
  }

  /** `base.joinpath(rel)`: a text starting with `/` replaces the base altogether. */
  function JoinPath(base: Path, rel: string): Path
  {
    var parts := Components(Split(rel, '/'));
    if rel != [] && rel[0] == '/' then parts else base + parts
  }

  /** Where `download_extract` puts the download: `<name>.<type>` in the scratch directory. */
  function ArchiveFile(p: Package, archiveType: string): Path
  {
    TmpDir(p.host) + [p.name + "." + archiveType]
  }

  /** The line `_add_path` appends to the env file. */
  function ExportLine(p: Package): string
    requires p.addPath.Some?
  {
    "export PATH=$PATH:\"" + Render(p.host, JoinPath(LinkPath(p), p.addPath.value)) + "\"  " + Tag(p)
  }

  /** The line `_init_env` puts in the profile so that shells read the env file. */
  function SourcingLine(h: Host): string
  {
    ". \"" + Render(h, Root(h)) + "/env\""
  }

  /** What a lifecycle operation raises. */
  datatype Error =
    | NotImplemented
    | UnsupportedArchive(archive: string)
    | CommandFailed(command: string)
    | DownloadFailed
    | Io(cause: FsError)

  /** The export line carries its package's tag, so a later registration finds it. */
  lemma {:induction false} ExportLineTagged(p: Package)
    requires p.addPath.Some?
    ensures Contains(ExportLine(p), Tag(p))
  {
    var pre := "export PATH=$PATH:\"" + Render(p.host, JoinPath(LinkPath(p), p.addPath.value)) + "\"  ";
    assert ExportLine(p) == pre + Tag(p);
    ContainsSelf(Tag(p));
    ContainsRight(pre, Tag(p), Tag(p));
  }

  /** The link, the env file and the scratch directory are not inside any install path whose
      name differs from theirs. */
  lemma {:induction false} StoreEntriesOutsideInstall(p: Package)
    requires p.name != Lower(ClassName(p.kind)) && p.name != "env" && p.name != "tmp"
    ensures !(InstallPath(p) <= LinkPath(p))
    ensures !(InstallPath(p) <= EnvFile(p.host))
    ensures !(InstallPath(p) <= TmpDir(p.host))
  {
    var n := |Root(p.host)|;
    assert InstallPath(p)[n] == p.name;
    assert LinkPath(p)[n] == Lower(ClassName(p.kind));
    assert EnvFile(p.host)[n] == "env";
    assert TmpDir(p.host)[n] == "tmp";
  }
}
