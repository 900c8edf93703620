/** The package descriptors: the name, artifact, PATH entry and drilling flag each class's
    constructor gives its package, the archive type its installer downloads, and whether that
    download is deleted once extracted. */
module Catalog {
  import opened Wrappers
  import opened Text
  import opened Files
  import opened Store
  import opened Archive

  const ElectronDefault := "32.1.0"
  const ZigDefault := "0.14.1"
  /** Zig's 2023-11-11 development build; the part after `+` is build metadata. */
  const Zig20231111 := "0.12.0-dev.1297+a9e66ed73"
  const GccArmVersion := "13.2"
  const TiPruVersion := "2.3.3"
  const StLinkVersion := "v1.1.0"
  const BunDefault := "v1.2.2"
  const NodeDefault := "22.12.0"
  const EsBuildDefault := "0.23.1"
  const ResticDefault := "0.16.4"

  // ------------------------------------------------------------ version texts

  /** `version.lower().strip("v")`, the version text of Node, EsBuild and Restic. */
  function WithoutV(version: string): string
  {
    Strip(Lower(version), 'v')
  }

  /** `"v" + version.lower().strip("v")`, the version text of Electron and Bun. */
  function WithV(version: string): string
  {
    "v" + WithoutV(version)
  }

  /** No upper-case letter anywhere. */
  predicate AllLower(s: string)
  {
    forall i :: 0 <= i < |s| ==> !IsUpper(s[i])
  }

  /** A normalised version has no `v` at either end and no capital letter, and normalising it
      again changes nothing. */
  lemma {:induction false} WithoutVShape(version: string)
    ensures NoEdge(WithoutV(version), 'v') && AllLower(WithoutV(version))
    ensures WithoutV(WithoutV(version)) == WithoutV(version)
  {
    var s := WithoutV(version);
    StripSpec(Lower(version), 'v');
    LowerHasNoUpper(version);
    StripKeepsLower(Lower(version), 'v');
    LowerOfLower(s);
    StripNoEdge(s, 'v');
  }

  /** A `v`-prefixed version starts with exactly one `v`, does not end in one (unless it is just
      `v`), has no capital letter, and is a fixed point of both normalisations. */
  lemma {:induction false} WithVShape(version: string)
    ensures var r := WithV(version);
      r[0] == 'v' && NoEdge(r[1..], 'v') && AllLower(r)
    ensures WithV(WithV(version)) == WithV(version)
    ensures WithoutV(WithV(version)) == WithoutV(version)
    ensures WithV(WithoutV(version)) == WithV(version)
  {
    var s := WithoutV(version);
    WithoutVShape(version);
    LowerOfLower(s);
    NormalAfterV(s);
    assert WithV(version) == "v" + s;
    assert WithV(version)[1..] == s;
    assert AllLower("v" + s) by {
      forall i | 0 <= i < |"v" + s| ensures !IsUpper(("v" + s)[i]) {
        if i > 0 { assert ("v" + s)[i] == s[i - 1]; }
      }
    }
  }

  /** A version already in normal form: lower-case, no `v` at an end. */
  lemma {:induction false} AlreadyNormal(version: string)
    requires Lower(version) == version && NoEdge(version, 'v')
    ensures WithoutV(version) == version && WithV(version) == "v" + version
  {
    StripNoEdge(version, 'v');
  }

  /** A normal version with a `v` in front: the `v` goes, and comes back once. */
  lemma {:induction false} NormalAfterV(version: string)
    requires Lower(version) == version && NoEdge(version, 'v')
    ensures WithoutV("v" + version) == version && WithV("v" + version) == "v" + version
  {
    LowerConcat("v", version);
    StripAddedEdge(version, 'v');
  }

  // -------------------------------------------------------------- descriptors

  /** Drilling switched on, as every constructor but Electron's does after `Package.__init__`. */
  function Drilling(p: Package): Package
  {
    p.(drill := true)
  }

  function ElectronPackage(h: Host, version: string): Package
  {
    NewPackage(h, Electron, "electron-" + WithV(version), ["electron" + Exe(h)], None)
  }

  /** The package name keeps the version up to its first `+`. */
  function ZigPackage(h: Host, version: string, addPath: Option<string>): Package
  {
    Drilling(NewPackage(h, Zig, "zig-" + BeforeFirst(version, '+'), ["zig" + Exe(h)], addPath))
  }

  function GccArmNonePackage(h: Host): Package
  {
    Drilling(NewPackage(h, GccArmNone, "gcc-arm-none-eabi_" + GccArmVersion,
      ["bin", "arm-none-eabi-" + "gcc"], Some("bin")))
  }

  function GccArmLinuxPackage(h: Host): Package
  {
    Drilling(NewPackage(h, GccArmLinux, "gcc-arm-linux-gnueabihf_" + GccArmVersion,
      ["bin", "arm-none-linux-" + "gcc"], Some("bin")))
  }

  function TiPruNonePackage(h: Host): Package
  {
    Drilling(NewPackage(h, TiPruNone, "ti-pru-none_" + TiPruVersion, ["bin", "clpru"], None))
  }

  function StLinkPackage(h: Host): Package
  {
    Drilling(NewPackage(h, StLink, "stlink_" + StLinkVersion,
      ["STM32CubeProgrammer", "bin", "STM32_Programmer_CLI"], None))
  }

  function BunPackage(h: Host, version: string): Package
  {
    Drilling(NewPackage(h, Bun, "bun_" + WithV(version), ["bun"], Some(".")))
  }

  function NodePackage(h: Host, version: string): Package
  {
    Drilling(NewPackage(h, Node, "node_" + WithoutV(version), ["bin", "node"], Some("bin")))
  }

  function EsBuildPackage(h: Host, version: string): Package
  {
    Drilling(NewPackage(h, EsBuild, "esbuild_" + WithoutV(version), ["package", "bin", "esbuild"], None))
  }

  function ResticPackage(h: Host, version: string): Package
  {
    Drilling(NewPackage(h, Restic, "restic_" + WithoutV(version), ["restic"], Some(".")))
  }

  /** Each class built with its default arguments. */
  function Default(h: Host, k: Kind): (p: Package)
    ensures p.kind == k && p.host == h
  {
    match k
    case Electron => ElectronPackage(h, ElectronDefault)
    case Zig => ZigPackage(h, ZigDefault, Some("."))
    case GccArmNone => GccArmNonePackage(h)
    case GccArmLinux => GccArmLinuxPackage(h)
    case TiPruNone => TiPruNonePackage(h)
    case StLink => StLinkPackage(h)
    case Bun => BunPackage(h, BunDefault)
    case Node => NodePackage(h, NodeDefault)
    case EsBuild => EsBuildPackage(h, EsBuildDefault)
    case Restic => ResticPackage(h, ResticDefault)
  }

  /** The archive type each installer asks `download_extract` for. */
  function ArchiveType(h: Host, k: Kind): string
  {
    match k
    case Electron => "zip"
    case Zig => if h.isPosix then "tar.xz" else "zip"
    case GccArmNone => "tar.xz"
    case GccArmLinux => "tar.xz"
    case TiPruNone => "tar.bz2"
    case StLink => "tar.bz2"
    case Bun => "zip"
    case Node => "tar.xz"
    case EsBuild => "tgz"
    case Restic => "bz2"
  }

  /** Every installer keeps `download_extract`'s `delete_src=True` except Restic's. */
  function DeletesSource(k: Kind): bool
  {
    k != Restic
  }

  // ---------------------------------------------------------------- the names

  lemma {:induction false} ZigDefaultName(h: Host)
    ensures Default(h, Zig).name == "zig-0.14.1"
  {
    BeforeFirstNone(ZigDefault, '+');
  }

  /** Zig's package name drops build metadata: everything from the first `+` on. */
  lemma {:induction false} ZigDropsBuildMetadata(h: Host, version: string, metadata: string, addPath: Option<string>)
    requires '+' !in version
    ensures ZigPackage(h, version + "+" + metadata, addPath).name == "zig-" + version
    ensures ZigPackage(h, version, addPath).name == "zig-" + version
  {
    BeforeFirstSplit(version, '+', metadata);
    BeforeFirstNone(version, '+');
  }

  lemma {:induction false} Zig20231111Name(h: Host, addPath: Option<string>)
    ensures ZigPackage(h, Zig20231111, addPath).name == "zig-" + "0.12.0-dev.1297"
  {
    Zig20231111Cut();
  }

  lemma {:induction false} Zig20231111Cut()
    ensures BeforeFirst(Zig20231111, '+') == "0.12.0-dev.1297"
  {
    Zig20231111Parts();
    BeforeFirstSplit("0.12.0-dev.1297", '+', "a9e66ed73");
  }

  lemma {:induction false} Zig20231111Parts()
    ensures Zig20231111 == "0.12.0-dev.1297" + "+" + "a9e66ed73"
    ensures '+' !in "0.12.0-dev.1297"
  {
  }

  /** A package whose install path cannot hold the store's own entries: its name is none of the
      link name, `env` and `tmp`. */
  predicate ClearOfStore(p: Package)
  {
    p.name != Lower(ClassName(p.kind)) && p.name != "env" && p.name != "tmp"
  }

  /** Every descriptor, whatever its version, is clear of the store's entries: each name is
      longer than the lower-cased class name, `env` and `tmp`. */
  lemma {:induction false} DescriptorsClearOfStore(h: Host, version: string, addPath: Option<string>)
    ensures ClearOfStore(ElectronPackage(h, version))
    ensures ClearOfStore(ZigPackage(h, version, addPath))
    ensures ClearOfStore(GccArmNonePackage(h)) && ClearOfStore(GccArmLinuxPackage(h))
    ensures ClearOfStore(TiPruNonePackage(h)) && ClearOfStore(StLinkPackage(h))
    ensures ClearOfStore(BunPackage(h, version)) && ClearOfStore(NodePackage(h, version))
    ensures ClearOfStore(EsBuildPackage(h, version)) && ClearOfStore(ResticPackage(h, version))
  {
    ClearByLength(ElectronPackage(h, version));
    ClearByLength(ZigPackage(h, version, addPath));
    ClearByLength(GccArmNonePackage(h));
    ClearByLength(GccArmLinuxPackage(h));
    ClearByLength(TiPruNonePackage(h));
    ClearByLength(StLinkPackage(h));
    ClearByLength(BunPackage(h, version));
    ClearByLength(NodePackage(h, version));
    ClearByLength(EsBuildPackage(h, version));
    ClearByLength(ResticPackage(h, version));
  }

  lemma {:induction false} ClearByLength(p: Package)
    requires |p.name| > |ClassName(p.kind)| && |p.name| > 3
    ensures ClearOfStore(p)
  {
  }

  // ------------------------------------------------------ flags and PATH entries

  /** Only Electron leaves drilling off; every descriptor's artifact lies inside its install
      path, Restic's directly under it. */
  lemma {:induction false} DescriptorLayout(h: Host, k: Kind)
    ensures Default(h, k).drill <==> k != Electron
    ensures InstallPath(Default(h, k)) < Default(h, k).artifact
    ensures k == Restic ==> Default(h, k).artifact == InstallPath(Default(h, k)) + ["restic"]
  {
  }

  /** Six classes add a directory to PATH: the link itself for Zig, Bun and Restic, its `bin`
      for the two toolchains and Node; the other four add nothing. */
  lemma {:induction false} PathEntries(h: Host, k: Kind)
    ensures RegistersPath(Default(h, k)) <==> k in {Zig, GccArmNone, GccArmLinux, Bun, Node, Restic}
    ensures k in {Zig, Bun, Restic} ==>
      JoinPath(LinkPath(Default(h, k)), Default(h, k).addPath.value) == LinkPath(Default(h, k))
    ensures k in {GccArmNone, GccArmLinux, Node} ==>
      JoinPath(LinkPath(Default(h, k)), Default(h, k).addPath.value) == LinkPath(Default(h, k)) + ["bin"]
  {
    DefaultAddPath(h, k);
    JoinDot(LinkPath(Default(h, k)));
    JoinBin(LinkPath(Default(h, k)));
  }

  /** The `add_path` argument each class passes to `Package.__init__`. */
  lemma {:induction false} DefaultAddPath(h: Host, k: Kind)
    ensures k in {Zig, Bun, Restic} ==> Default(h, k).addPath == Some(".")
    ensures k in {GccArmNone, GccArmLinux, Node} ==> Default(h, k).addPath == Some("bin")
    ensures k in {Electron, TiPruNone, StLink, EsBuild} ==> Default(h, k).addPath == None
  {
    match k
    case Electron => assert Default(h, k) == ElectronPackage(h, ElectronDefault);
    case Zig => assert Default(h, k) == ZigPackage(h, ZigDefault, Some("."));
    case GccArmNone => assert Default(h, k) == GccArmNonePackage(h);
    case GccArmLinux => assert Default(h, k) == GccArmLinuxPackage(h);
    case TiPruNone => assert Default(h, k) == TiPruNonePackage(h);
    case StLink => assert Default(h, k) == StLinkPackage(h);
    case Bun => assert Default(h, k) == BunPackage(h, BunDefault);
    case Node => assert Default(h, k) == NodePackage(h, NodeDefault);
    case EsBuild => assert Default(h, k) == EsBuildPackage(h, EsBuildDefault);
    case Restic => assert Default(h, k) == ResticPackage(h, ResticDefault);
  }

  /** `"."` names the base itself. */
  lemma {:induction false} JoinDot(base: Path)
    ensures JoinPath(base, ".") == base
  {
    BeforeFirstNone(".", '/');
    assert Split(".", '/') == ["."];
    assert Components(["."]) == [];
  }

  /** `"bin"` names one directory below the base. */
  lemma {:induction false} JoinBin(base: Path)
    ensures JoinPath(base, "bin") == base + ["bin"]
  {
    BeforeFirstNone("bin", '/');
    assert Split("bin", '/') == ["bin"];
    assert Components(["bin"]) == ["bin"];
  }

  // -------------------------------------------------------------- the archives

  /** Each of the five archive types in use, after the dot that `download_extract` adds. */
  lemma {:induction false} ZipType(stem: string, ty: string)
    requires ty == "zip"
    ensures ExtractionMethodLinux(stem + ("." + ty)) == Success(UnzipTemplate)
  {
    assert "." + ty == ".zip";
    LowerOfLower(".zip");
    ZipInAnyCase(stem, ".zip");
  }

  lemma {:induction false} TarXzType(stem: string, ty: string)
    requires ty == "tar.xz"
    ensures ExtractionMethodLinux(stem + ("." + ty)) == Success(TarTemplate)
  {
    assert "." + ty == ".tar.xz";
    LowerOfLower(".tar.xz");
    TarInAnyCase(stem, ".tar.xz");
  }

  lemma {:induction false} TarBz2Type(stem: string, ty: string)
    requires ty == "tar.bz2"
    ensures ExtractionMethodLinux(stem + ("." + ty)) == Failure(UnsupportedArchive(stem + ("." + ty)))
  {
    assert "." + ty == ".tar.bz2";
    TarBz2Raises(stem);
  }

  /** The two four-character types, `tgz` and `bz2`. */
  lemma {:induction false} ShortTypeRaises(stem: string, ty: string)
    requires ty == "tgz" || ty == "bz2"
    ensures ExtractionMethodLinux(stem + ("." + ty)) == Failure(UnsupportedArchive(stem + ("." + ty)))
  {
    if ty == "tgz" {
      assert "." + ty == ".tgz";
      ShortExtensionRaises(stem, ".tgz");
    } else {
      assert "." + ty == ".bz2";
      ShortExtensionRaises(stem, ".bz2");
    }
  }

  /** The downloaded archive's rendered path is the scratch directory, a separator, the package
      name, a dot and the type. */
  lemma {:induction false} ArchiveFileRendered(p: Package, ty: string)
    requires p.host.isPosix
    ensures Render(p.host, ArchiveFile(p, ty)) == (Render(p.host, TmpDir(p.host)) + "/" + p.name) + ("." + ty)
  {
    RenderSnoc(p.host, TmpDir(p.host), p.name + "." + ty);
  }

  /** On a Linux host the download of six classes has an extraction template and that of
      TiPruNone, StLink, EsBuild and Restic has none: `.tar.bz2`, `.tgz` and `.bz2` are not among
      the recognised suffixes. */
  lemma {:induction false} ArchiveDispatch(p: Package)
    requires p.host.isPosix
    ensures var ark := Render(p.host, ArchiveFile(p, ArchiveType(p.host, p.kind)));
      ExtractionMethod(p.host, ark).Success? <==>
        p.kind in {Electron, Zig, GccArmNone, GccArmLinux, Bun, Node}
  {
    var ty := ArchiveType(p.host, p.kind);
    ArchiveFileRendered(p, ty);
    TypesOfKinds(p.host, p.kind);
    TypeDispatch(p.host, Render(p.host, TmpDir(p.host)) + "/" + p.name, ty);
  }

  /** On a Linux host the two archive types with a template are `zip` and `tar.xz`. */
  lemma {:induction false} TypeDispatch(h: Host, stem: string, ty: string)
    requires h.isPosix
    requires ty == "zip" || ty == "tar.xz" || ty == "tar.bz2" || ty == "tgz" || ty == "bz2"
    ensures ExtractionMethod(h, stem + ("." + ty)).Success? <==> (ty == "zip" || ty == "tar.xz")
  {
    if ty == "zip" {
      ZipType(stem, ty);
    } else if ty == "tar.xz" {
      TarXzType(stem, ty);
    } else if ty == "tar.bz2" {
      TarBz2Type(stem, ty);
    } else {
      ShortTypeRaises(stem, ty);
    }
  }

  /** On a POSIX host the Electron, Zig, GCC, Bun and Node installers ask for `zip` or
      `tar.xz` and the rest for `tar.bz2`, `tgz` or `bz2`. */
  lemma {:induction false} TypesOfKinds(h: Host, k: Kind)
    requires h.isPosix
    ensures var ty := ArchiveType(h, k);
      ty == "zip" || ty == "tar.xz" || ty == "tar.bz2" || ty == "tgz" || ty == "bz2"
    ensures var ty := ArchiveType(h, k);
      (ty == "zip" || ty == "tar.xz") <==> k in {Electron, Zig, GccArmNone, GccArmLinux, Bun, Node}
  {
    match k
    case Electron =>
    case Zig =>
    case GccArmNone =>
    case GccArmLinux =>
    case TiPruNone => assert "tar.bz2" != "zip" && "tar.bz2" != "tar.xz";
    case StLink => assert "tar.bz2" != "zip" && "tar.bz2" != "tar.xz";
    case Bun =>
    case Node =>
    case EsBuild => assert "tgz" != "zip" && "tgz" != "tar.xz";
    case Restic => assert "bz2" != "zip" && "bz2" != "tar.xz";
  }
}
