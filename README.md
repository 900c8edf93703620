# subpack: a verified model of the package lifecycle

subpack installs prebuilt toolchains (Electron, Zig, two GCC ARM toolchains, TI PRU, ST-Link,
Bun, Node, esbuild, Restic) into a per-user store. On Linux the store is `~/.config/subpack`.
Each toolchain is a `Package` subclass that gives:

- a name, which is also the install directory under the store;
- an artifact, the file whose existence means "installed";
- an optional directory to add to `PATH`;
- whether extraction drills through singleton directories;
- an installer that downloads the archive and extracts it.

The base class does the rest:

- it creates the env file and makes `~/.profile` source it;
- it registers the PATH entry as a tagged `export` line, through a link named after the class;
- it picks the extraction command from the archive suffix;
- it runs the command, drills, registers, and deletes the download in a `finally`;
- it answers `is_installed`, and installs only when needed;
- it removes the install directory.

This project models that lifecycle in Dafny, with the host filesystem as a map from paths to
files, directories and links:

- `wrappers.dfy`: `Option`, `Result` and `Outcome`.
- `text.dfy`: the string operations the source relies on. These are `lower`, `strip`, `endswith`,
  `in`, `split`, and `readlines`/`writelines`.
- `files.dfy`: the tree, its well-formedness, and the library calls as functions from tree to
  tree-or-error. The class `FileSystem` holds the tree and makes each call a method that
  changes it.
- `store.dfy`: the store paths, the `Package` value built by `Package.__init__`, the tag, the
  link name and the export line.
- `archive.dfy`: `_extraction_method_linux`, `_extraction_method_windows` and the
  `str.format` of the command template.
- `catalog.dfy`: the ten descriptors in `packages.py`, with their version normalisation, archive
  types and flags.
- `envlines.dfy`: the env-file edit of `_add_path`. The removal loop is a method proved against
  its specification function.
- `drilling.dfy`: `_drill_singleton_dirs` as a method with nested loops, proved against a
  specification over the tree before drilling.
- `drilling_facts.dfy`: what drilling does to the tree, and the concrete nestings.
- `lifecycle.dfy`: `_init_env`, `_add_path`, `extract` with Restic's override,
  `download_extract`, `install`, `is_installed`, `ensure_installed` and `remove`. Each is a
  method over `FileSystem`, proved against a specification function that returns the tree left
  behind, the outcome, and whether that tree is determined.
- `lifecycle_facts.dfy`: end-to-end consequences, such as fresh installs of each kind of
  package, re-registration, and removal.

The network, the shell commands and the archive tools are not executed. `World` supplies what
they would produce:

- the downloaded bytes, or a download failure;
- the relative tree unzip/tar lays down, or a non-zero exit together with the entries laid
  down before it;
- the binary `bzip2` decompresses for Restic, or a non-zero exit of `bzip2`. The `mv` before
  it is modelled on the tree: it raises when the download is missing.

Platform detection becomes the `isPosix` field of `Host`.

Below, a *fresh store* means a Linux host on which the scratch directory `tmp` already exists,
the package's install path does not, the download location can be written, and the download
succeeds. The end-to-end install facts are proved for fresh stores only, so they do not cover
the very first run, in which `download_extract` itself creates `tmp`. Those that register PATH
(`LifecycleFacts.DrilledFreshInstall`, `LifecycleFacts.NodeFreshInstall`) also need the env file
to exist already, so none of them has `_init_env` create the env file or edit the profile; that
step is covered on its own by `LifecycleFacts.InitEnvEffect`.

Properties the model proves about the code as written:

- **Env file loses its newline.** The export line `_add_path` appends carries no newline
  (`subpack/package.py:70`), and `writelines` adds none. The next registration of another
  package therefore continues the same physical line. Registering the first package again then
  removes both entries, and registering the second again is not idempotent: it drops the
  first one's entry (`EnvLines.EntriesJoinOnOneLine`). Re-registering the same package is
  idempotent when the env file was empty or ended in a newline before the first registration
  (`EnvLines.EnvAfterIdempotent`, `LifecycleFacts.AddPathTwice`), even though the file no longer
  ends in one afterwards; it is not when the file ended in an untagged partial line, which the
  export line then joins.
- **Drilling into a single file raises.** Drilling stops with `NotADirectoryError` when the only
  entry left is a file, because `os.listdir` is called on it. So `a/b/c/file.txt` is lifted
  until `file.txt` is the only entry at the top, and then drilling raises
  (`DrillingFacts.NestedSingleFile`). Restic's install on a fresh store therefore raises after the binary
  is in place, before PATH registration. From then on, `ensure_installed` is a no-op
  (`LifecycleFacts.ResticFreshInstall`).
- **A failed Restic decompression strands the download.** When `bzip2` fails on a fresh store, `mv` has already
  moved the download to `restic.bz2` in the install path. Restic's install keeps its download,
  so that file stays there and the scratch directory no longer holds it
  (`LifecycleFacts.ResticBzip2Fails`).
- **Three installers always fail on Linux.** TiPruNone and StLink download `tar.bz2` and EsBuild
  downloads `tgz`, which no template accepts. On every Linux store their installs fail: with an I/O
  error or a failed download, or with "unsupported archive type"
  (`LifecycleFacts.UnopenableArchivesNeverInstall`). On a fresh store it is the latter, and the
  download is left behind (`LifecycleFacts.UnopenableArchiveFails`).
- **`remove` leaves registrations behind.** It keeps the link and the env-file line
  (`LifecycleFacts.RemoveUninstalls`).

## Model

| member | source | states |
|---|---|---|
| Text.Lower | subpack/package.py:109 | the result has the input's length and each character is the ASCII lower-case of the input's character at that place |
| Text.LowerConcat | subpack/package.py:109 | lower-casing distributes over concatenation |
| Text.LowerHasNoUpper | subpack/package.py:109 | a lower-cased text contains no upper-case letter |
| Text.LowerIdempotent | subpack/package.py:109 | lower-casing twice is lower-casing once |
| Text.LowerOfLower | subpack/package.py:109 | a text without upper-case letters is its own lower-case |
| Text.EndsWithConcat | subpack/package.py:110-114 | a suffix no longer than the right part ends the concatenation exactly when it ends the right part |
| Text.EndsWithBoth | subpack/package.py:110-114 | if a text ends with two suffixes, the shorter one ends the longer one |
| Text.ContainsLeft | subpack/package.py:41 | a substring of the left part is a substring of the concatenation |
| Text.ContainsRight | subpack/package.py:62 | a substring of the right part is a substring of the concatenation |
| Text.ContainsWitness | subpack/package.py:62 | a contained substring occurs at some index that the lemma returns |
| Text.TrimStart | subpack/packages.py:17 | the result is a suffix of the input, everything dropped is the stripped character, and the result does not start with it |
| Text.TrimEnd | subpack/packages.py:17 | the result is a prefix of the input, everything dropped is the stripped character, and the result does not end with it |
| Text.StripSpec | subpack/packages.py:17 | `strip(c)` is the slice left after removing the maximal runs of `c` at both ends, and it has `c` at neither end |
| Text.StripEdges | subpack/packages.py:17 | the result of `strip(c)` has `c` at neither end |
| Text.StripSlice | subpack/packages.py:17 | the result of `strip(c)` is a slice of the input followed only by `c`s |
| Text.StripNoEdge | subpack/packages.py:17 | stripping a text with `c` at neither end changes nothing |
| Text.StripIdempotent | subpack/packages.py:17 | stripping twice is stripping once |
| Text.StripAddedEdge | subpack/packages.py:17 | stripping `c` + s gives back s when s has `c` at neither end |
| Text.StripKeepsLower | subpack/packages.py:17 | stripping keeps a text free of upper-case letters |
| Text.BeforeFirst | subpack/packages.py:31 | `split("+")[0]` is a prefix without `+`, followed in the input by `+` whenever it is shorter |
| Text.BeforeFirstSplit | subpack/packages.py:31 | the part before the first `+` of a + "+" + b is a, when a has no `+` |
| Text.BeforeFirstNone | subpack/packages.py:31 | a text without `+` is its own first part |
| Text.Split | subpack/package.py:70 | `split("/")` gives at least one part, and no part holds a `/` |
| Text.JoinSplit | subpack/package.py:70 | joining the parts of `split("/")` with `/` gives the text back |
| Text.SplitJoin | subpack/package.py:70 | parts without a `/`, joined with `/`, split back into the same parts |
| Text.JoinReadLines | subpack/package.py:56-57 | `readlines` then `writelines` reproduces the text exactly |
| Text.ReadLinesShape | subpack/package.py:56-57 | every line `readlines` returns but the last ends with a newline, and the last is non-empty |
| Text.ReadJoinLines | subpack/package.py:72-73 | reading back lines that each end with a newline, plus a last line without one, returns those lines |
| Text.JoinLinesConcat | subpack/package.py:72-73 | writing two lists of lines writes the two texts one after the other |
| Text.ReadFullLineFirst | subpack/package.py:56-57 | a text starting with a full line reads as that line followed by the lines of the rest |
| Text.NoNewlineIsOneLine | subpack/package.py:56-57 | a non-empty text without a newline reads as one line |
| Store.NewPackage | subpack/package.py:79-87 | the package keeps the given host, class, name and PATH entry, has drilling off, and its artifact is the given relative path under the install path |
| Store.Components | subpack/package.py:70 | pathlib keeps a part of a relative path exactly when it is neither empty nor `.` |
| Store.ComponentsConcat | subpack/package.py:70 | the kept parts of two runs of parts are those of the first followed by those of the second, so order is kept |
| Store.RenderSnoc | subpack/package.py:128 | rendering a path with one more component appends the host's separator and that component |
| Store.ExportLineTagged | subpack/package.py:59-70 | the appended export line contains the package's tag, so a later registration finds it |
| Store.StoreEntriesOutsideInstall | subpack/package.py:66-77 | the link, the env file and the scratch directory lie outside any install path whose name differs from theirs |
| Archive.ZipInAnyCase | subpack/package.py:108-111 | any archive whose extension lower-cases to `.zip` gets the unzip template |
| Archive.TarInAnyCase | subpack/package.py:108-115 | any archive whose extension lower-cases to `.tar.xz` or `.tar.gz` gets the tar template |
| Archive.TarXzSuffix | subpack/package.py:110-112 | a name ending with `.tar.xz` does not end with `.zip`, so the second branch is reached |
| Archive.TarGzSuffix | subpack/package.py:110-114 | a name ending with `.tar.gz` ends with neither earlier suffix, so the third branch is reached |
| Archive.MismatchNotSuffix | subpack/package.py:110-114 | one mismatching character rules out a suffix |
| Archive.TarBz2Raises | subpack/package.py:108-117 | a `.tar.bz2` archive raises "unsupported archive type" carrying the archive's name |
| Archive.TarBz2Suffix | subpack/package.py:110-114 | a name ending with `.tar.bz2` ends with none of the three accepted suffixes |
| Archive.ShortExtensionRaises | subpack/package.py:108-117 | a four-character lower-case ending other than `.zip`, `r.xz` and `r.gz` raises |
| Archive.UnsupportedIff | subpack/package.py:108-117 | the method raises exactly when the lower-cased name ends with none of the three suffixes, and the error names the archive; it gives the unzip template exactly for a `.zip` name, and the tar template exactly for a `.tar.xz` or `.tar.gz` name that is not a `.zip` name |
| Archive.DependsOnLowerOnly | subpack/package.py:109 | two names with the same lower-case get the same template |
| Archive.UpperTarGzExample | subpack/package.py:108-115 | `foo.TAR.GZ` gets the tar template |
| Archive.RarExample | subpack/package.py:108-117 | `foo.rar` raises "unsupported archive type" naming `foo.rar` |
| Archive.NonPosixHasNoMethod | subpack/package.py:119-126 | off Linux, choosing the extraction method raises `NotImplementedError` whatever the archive |
| Archive.FormatLiteral | subpack/package.py:128 | a template part without a brace is copied unchanged |
| Archive.FormatField | subpack/package.py:128 | `{0}` is replaced by the source and `{1}` by the destination |
| Archive.FormatTwoFields | subpack/package.py:128 | a template of two brace-free literals and the two fields formats to the literals around the source and the destination |
| Archive.FormatTemplate | subpack/package.py:128 | the same for any template given in that shape |
| Archive.FormatUnzip | subpack/package.py:111 | the unzip command is `unzip <src> -d <dst>` |
| Archive.FormatTar | subpack/package.py:113 | the tar command is `tar -xf <src> -C <dst>` |
| Catalog.WithoutVShape | subpack/packages.py:116 | `version.lower().strip("v")` has no `v` at either end and no capital, and normalising it again changes nothing |
| Catalog.WithVShape | subpack/packages.py:17 | `"v" + version.lower().strip("v")` starts with one `v`, has no capital, is stable under renormalisation, and corresponds one-to-one with the form without `v` |
| Catalog.AlreadyNormal | subpack/packages.py:130 | a lower-case version without an edge `v` is its own normal form |
| Catalog.NormalAfterV | subpack/packages.py:145 | a leading `v` typed by the user is dropped |
| Catalog.Default | subpack/packages.py:13-147 | each class built with its default arguments is a package of that class on that host |
| Catalog.ZigDropsBuildMetadata | subpack/packages.py:29-31 | Zig's package name keeps the version up to its first `+`, dropping the build metadata |
| Catalog.Zig20231111Name | subpack/packages.py:28-31 | the 2023-11-11 build installs as `zig-0.12.0-dev.1297` |
| Catalog.Zig20231111Cut | subpack/packages.py:28-31 | the 2023-11-11 version text is cut at its `+` to `0.12.0-dev.1297` |
| Catalog.ZigDefaultName | subpack/packages.py:29-31 | the default Zig installs as `zig-0.14.1` |
| Catalog.DescriptorsClearOfStore | subpack/packages.py:13-147 | no descriptor's install path, whatever the version, coincides with the link, the env file or the scratch directory |
| Catalog.ClearByLength | subpack/packages.py:13-147 | a name longer than the class name and than `env` and `tmp` is clear of the store's entries |
| Catalog.DescriptorLayout | subpack/packages.py:13-147 | every class but Electron drills, every artifact lies strictly inside its install path, and Restic's artifact is `restic` directly inside it |
| Catalog.PathEntries | subpack/packages.py:29-146 | exactly Zig, both GCCs, Bun, Node and Restic register PATH, and the registered directory is the link itself or its `bin` |
| Catalog.DefaultAddPath | subpack/packages.py:29-146 | Zig, Bun and Restic add `.`, both GCCs and Node add `bin`, and the other four add nothing |
| Catalog.JoinDot | subpack/package.py:70 | joining `.` onto a path leaves it unchanged |
| Catalog.JoinBin | subpack/package.py:70 | joining `bin` onto a path adds one component |
| Catalog.ZipType | subpack/package.py:145 | a download named `<name>.zip` gets the unzip template |
| Catalog.TarXzType | subpack/package.py:145 | a download named `<name>.tar.xz` gets the tar template |
| Catalog.TarBz2Type | subpack/package.py:145 | a download named `<name>.tar.bz2` raises |
| Catalog.ShortTypeRaises | subpack/package.py:145 | a download named `<name>.tgz` or `<name>.bz2` raises "unsupported archive type" naming the archive |
| Catalog.ArchiveFileRendered | subpack/package.py:145 | the download's rendered path is the scratch directory, `/`, the name, `.` and the type |
| Catalog.TypeDispatch | subpack/package.py:145 | among the five archive types the installers use, exactly `zip` and `tar.xz` have a template on Linux |
| Catalog.TypesOfKinds | subpack/packages.py:20-154 | every installer uses one of the five types, and it is `zip` or `tar.xz` exactly for Electron, Zig, both GCCs, Bun and Node |
| Catalog.ArchiveDispatch | subpack/packages.py:20-154 | on Linux, the generic extractor has a template for a package's download exactly when its class is Electron, Zig, a GCC, Bun or Node |
| EnvLines.FirstTagged | subpack/package.py:61-64 | the index found holds a tagged line and no earlier line is tagged; none is found only when no line is tagged |
| EnvLines.RemoveFirst | subpack/package.py:63 | `list.remove` removes exactly one element |
| EnvLines.RemoveFirstAt | subpack/package.py:63 | `list.remove(x)` cuts out the first occurrence of `x` |
| EnvLines.WithoutFirstTaggedShape | subpack/package.py:61-64 | the loop's result is the lines without the first tagged one, or all lines when none is tagged |
| EnvLines.RemoveFirstTagged | subpack/package.py:61-64 | the loop returns the lines with the first line containing the tag removed and every other line kept in order |
| EnvLines.CountAfterRemoval | subpack/package.py:61-64 | after the loop there is one tagged line fewer, or none when there was none |
| EnvLines.CountConcat | subpack/package.py:70 | tagged lines of a concatenation are counted part by part |
| EnvLines.NoTaggedCountZero | subpack/package.py:61-64 | no line is tagged exactly when the count of tagged lines is zero |
| EnvLines.RegisterKeepsOneEntry | subpack/package.py:59-70 | on a list with at most one tagged line, registering leaves exactly one tagged line, the new export line, last |
| EnvLines.WithoutFirstTaggedSkips | subpack/package.py:61-64 | untagged leading lines survive the loop and the search continues after them |
| EnvLines.RegisterIdempotent | subpack/package.py:59-70 | on such a list, registering the same line twice gives the list of one registration |
| EnvLines.EntriesJoinOnOneLine | subpack/package.py:70-73 | two packages registered in turn into an empty env file leave one physical line with both entries, registering the first again leaves only the first's entry, and registering the second again leaves only the second's entry, which is not the text it was registered into |
| EnvLines.EnvAfterIdempotent | subpack/package.py:56-73 | on an env file that is empty or ends in a newline and has at most one tagged line, rewriting it for the same package twice gives the text of one rewrite |
| EnvLines.AllFullLines | subpack/package.py:56-57 | the lines read from a text that ends in a newline all end in a newline |
| Files.ChildIff | subpack/package.py:153 | a name is listed in a directory exactly when the directory's path plus the name is an entry |
| Files.AncestorIsDir | subpack/package.py:94 | in a well-formed tree, every ancestor of an entry is a directory |
| Files.NothingBelowNonDir | subpack/package.py:157 | nothing lies below a file, a link or a missing path |
| Files.OverlayLookup | subpack/package.py:132 | after the tool runs, a path under the destination holds the tool's entry when the tool wrote one, and every other path is unchanged |
| Files.SubtreeLookup | subpack/package.py:159 | the subtree at p holds at r what the tree holds at p + r |
| Files.RenameTreeLookup | subpack/package.py:159 | after a move to a free place, the destination holds what the source held and the source is gone |
| Files.RemoveTreeLookup | subpack/package.py:164 | `rm -rf p` empties p and everything below it and keeps everything else |
| Files.Extensionality | subpack/package.py:152-161 | two trees agreeing at every path are equal |
| Files.WriteFileWellFormed | subpack/package.py:44-45 | writing a file keeps the tree well formed |
| Files.TouchFileWellFormed | subpack/package.py:33 | touching a file keeps the tree well formed |
| Files.MkDirsAtWellFormed | subpack/package.py:129 | `mkdir(parents=True, exist_ok=True)` keeps the tree well formed, leaves a directory at the path, keeps every earlier entry, and changes only the path and its ancestors |
| Files.MkDirsAtKeepsLeaves | subpack/package.py:94 | creating directories leaves every file and link as it was |
| Files.MkDirsNewChild | subpack/package.py:129 | creating a missing child of a directory adds just that directory |
| Files.UnlinkAtWellFormed | subpack/package.py:67 | unlinking keeps the tree well formed |
| Files.SymlinkAtWellFormed | subpack/package.py:68 | `ln -sf` keeps the tree well formed |
| Files.RemoveTreeWellFormed | subpack/package.py:164 | `rm -rf` keeps the tree well formed |
| Files.RmDirAtWellFormed | subpack/package.py:160 | `os.rmdir` keeps the tree well formed |
| Files.RenamedParent | subpack/package.py:159 | every path a move creates sits in a directory |
| Files.MoveIntoWellFormed | subpack/package.py:159 | `shutil.move` into a directory keeps the tree well formed |
| Files.OverlayParent | subpack/package.py:132 | every entry of the tree after extraction sits in a directory |
| Files.OverlayWellFormed | subpack/package.py:132 | laying a relative tree that fits under an existing directory keeps the tree well formed |
| Files.RelocatedWellFormed | subpack/packages.py:159 | moving a file to a name inside a directory, or turning it into another file there, keeps the tree well formed |
| Files.FileSystem.ListDir | subpack/package.py:153 | `os.listdir` lists exactly when the path is a directory, and then a name is listed exactly when the path plus the name is an entry; it raises `FileNotFoundError` on a missing path, `NotADirectoryError` on a file, and the link error on a link |
| Files.FileSystem.Read | subpack/package.py:39-40 | reading succeeds exactly when the path is a file, and then returns its text; it raises `FileNotFoundError` on a missing path, `IsADirectoryError` on a directory, and the link error on a link |
| Files.FileSystem.Write | subpack/package.py:44-45 | appending or truncating writes change the file, or raise and change nothing |
| Files.FileSystem.Touch | subpack/package.py:33 | touching creates an empty file when nothing is there, or raises and changes nothing |
| Files.FileSystem.MkDirs | subpack/package.py:94 | creating directories with parents changes the tree as specified, or raises and changes nothing |
| Files.FileSystem.Unlink | subpack/package.py:67 | unlinking removes a file or link, tolerates a missing path when asked, or raises and changes nothing |
| Files.FileSystem.Symlink | subpack/package.py:68 | `ln -sf` puts the link in place when it can and otherwise changes nothing |
| Files.FileSystem.RemoveAll | subpack/package.py:164 | `rm -rf` removes the path and everything below it |
| Files.FileSystem.Move | subpack/package.py:159 | `shutil.move` into a directory moves the subtree, or raises and changes nothing |
| Files.FileSystem.RmDir | subpack/package.py:160 | `os.rmdir` removes an empty directory, or raises and changes nothing |
| Files.FileSystem.Unpack | subpack/package.py:132 | the archive tool lays its tree under the destination |
| Files.FileSystem.MoveFile | subpack/packages.py:159 | `mv` of a file removes it and puts the same node at the new name |
| Files.FileSystem.Convert | subpack/packages.py:159 | `bzip2 -fd` removes the `.bz2` file and puts a file holding the decompressed text at the new name |
| Drilling.KeysBelowShrink | subpack/package.py:154 | descending into a child strictly shrinks the set of entries below, so drilling terminates |
| Drilling.TheOnly | subpack/package.py:155 | the single entry of a one-element listing |
| Drilling.AbsentWithin | subpack/package.py:157 | nothing lies below a name a directory does not list |
| Drilling.RebaseLookup | subpack/package.py:157-160 | the tree after lifting a chain holds, below the directory, what the end of the chain held, and elsewhere what it held before |
| Drilling.RebaseWellFormed | subpack/package.py:157-160 | lifting a chain keeps the tree well formed |
| Drilling.RebaseOutside | subpack/package.py:157-160 | lifting a chain changes nothing outside the directory |
| Drilling.RebaseNothing | subpack/package.py:154 | lifting an empty chain is no change |
| Drilling.ChildrenRebase | subpack/package.py:161 | listing after a lift lists the end of the chain |
| Drilling.MovingOutside | subpack/package.py:159 | moves inside the directory change nothing outside it |
| Drilling.ClashAt | subpack/package.py:159 | moving up an entry named like its directory raises "already exists" |
| Drilling.MoveStep | subpack/package.py:159 | each move of an entry with a different name succeeds and moves exactly that entry's subtree up one level |
| Drilling.MoveStepAt | subpack/package.py:159 | the same, path by path |
| Drilling.StepDone | subpack/package.py:160 | once every entry is moved, `os.rmdir` succeeds and the tree is the lift of one more name |
| Drilling.StepDoneEmpty | subpack/package.py:160 | once every entry is moved, the emptied entry is an empty directory |
| Drilling.MoveUp | subpack/package.py:157-159 | the inner loop moves every entry up, or raises "already exists" exactly when an entry has the directory's name, leaving everything outside the directory as it was |
| Drilling.DrillFromStep | subpack/package.py:154-161 | without an error, lifting the single entry continues drilling from one level further down, below fewer entries |
| Drilling.DrillSpecStart | subpack/package.py:153 | drilling begins with listing the directory, which may raise |
| Drilling.DrillFromDone | subpack/package.py:154 | a listing of other than one entry ends drilling without error |
| Drilling.DrillFromStop | subpack/package.py:154-161 | an error while lifting the single entry ends drilling with that error |
| Drilling.ListAfter | subpack/package.py:161 | the listing after a lift is the end of the chain's listing |
| Drilling.ListedStep | subpack/package.py:157 | listing the single entry raises exactly the error the specification expects, and otherwise lists its entries |
| Drilling.LiftSingleton | subpack/package.py:155-160 | one outer iteration lifts the single entry and passes exactly when the specification has no error for it; on other errors than a clash the tree is unchanged |
| Drilling.DrillSingletonDirs | subpack/package.py:152-161 | drilling passes exactly when the specification reaches a listing of other than one entry, raises the specification's error otherwise, leaves the lifted chain's tree unless it stopped at a clash, and never changes anything outside the directory |
| DrillingFacts.DrillFromFacts | subpack/package.py:152-161 | drilling ends at a directory reached through a chain of singleton directories, and without error exactly when that directory holds other than one entry |
| DrillingFacts.DrillSpecFacts | subpack/package.py:152-161 | the same, from the directory drilled |
| DrillingFacts.DrillNoOp | subpack/package.py:154 | a directory with other than one entry is left unchanged |
| DrillingFacts.DrillExitCount | subpack/package.py:154 | after drilling without error, the directory holds other than one entry |
| DrillingFacts.ChainCovers | subpack/package.py:152-161 | every file or link below the directory lies below the end of the chain |
| DrillingFacts.ChainRest | subpack/package.py:152-161 | entries not below the end of the chain are the chain's directories |
| DrillingFacts.DrillKeepsEntries | subpack/package.py:152-161 | drilling keeps every file and link, lifted by the chain's length, adds nothing, removes only the chain's directories, and changes nothing outside |
| DrillingFacts.SingleFileRaises | subpack/package.py:153-157 | a directory holding one file raises `NotADirectoryError` for it and is unchanged |
| DrillingFacts.SameNameClashes | subpack/package.py:159 | a single directory holding an entry of its own name raises "already exists" |
| DrillingFacts.DrillThroughABC | subpack/package.py:152-161 | `a/b/c` with `a` and `b` singletons is drilled through to `c` |
| DrillingFacts.NestedSingleFile | subpack/package.py:152-161 | `a/b/c/file.txt` is lifted to `file.txt` and then raises `NotADirectoryError` for it |
| DrillingFacts.NestedTwoEntries | subpack/package.py:152-161 | `a/b/c` holding two entries is lifted to the top without error |
| DrillingFacts.DrillOneLevel | subpack/package.py:152-161 | a single top directory holding other than one entry is drilled exactly one level |
| Lifecycle.InitEnv | subpack/package.py:27-48 | `_init_env` leaves the tree and raises exactly as its specification says |
| Lifecycle.AddSourcingLine | subpack/package.py:35-47 | the profile step leaves the tree and raises exactly as its specification says |
| Lifecycle.AddPath | subpack/package.py:50-73 | `_add_path` leaves the tree and raises exactly as its specification says |
| Lifecycle.Settle | subpack/package.py:133-135 | drilling then registration raise as specified, and leave the specified tree unless drilling stopped at a clash |
| Lifecycle.Cleanup | subpack/package.py:136-138 | the `finally` unlinks the download when asked, and its error replaces the body's outcome |
| Lifecycle.Unpack | subpack/package.py:132-135 | the command, drilling and registration raise as specified; a command that succeeds with fitting output leaves its tree under the destination and then what drilling and registration specify; a failing command leaves what it laid down before exiting |
| Lifecycle.FinallyKeepsFailure | subpack/package.py:136-138 | the `finally` never turns a failure into success |
| Lifecycle.SettleUnknownFails | subpack/package.py:133-135 | an undetermined tree comes only with a failure |
| Lifecycle.AddPathKnown | subpack/package.py:50-73 | registration always leaves a determined tree |
| Lifecycle.InitEnvKnown | subpack/package.py:27-48 | `_init_env` always leaves a determined tree |
| Lifecycle.ProfileKnown | subpack/package.py:38-45 | the profile step always leaves a determined tree |
| Lifecycle.UnpackUnknownFails | subpack/package.py:132-135 | an undetermined tree after the command comes only with a failure |
| Lifecycle.FinallyTracks | subpack/package.py:131-138 | running the `finally` on the state the body reached agrees with the specification's `finally` |
| Lifecycle.Extract | subpack/package.py:122-138 | `extract` passes exactly when its specification does, and otherwise leaves the specified tree whenever it is determined |
| Lifecycle.RunExtract | subpack/package.py:129-138 | creating the destination, the `try` and the `finally` match their specification |
| Lifecycle.Decompress | subpack/packages.py:159-166 | `mv` raises and changes nothing when the download is missing, already has the `.bz2` name, or the destination is missing or a file; otherwise the download moves to `restic.bz2`, and a failing `bzip2` raises with it left there, while a succeeding one turns it into `restic` and drilling and registration follow |
| Lifecycle.MovedWellFormed | subpack/packages.py:159 | after `mv` the tree is well formed and `bzip2` can turn `restic.bz2` into `restic`, keeping it well formed |
| Lifecycle.ResticExtract | subpack/packages.py:156-169 | Restic's `extract` passes exactly when its specification does, and leaves the specified tree whenever it is determined |
| Lifecycle.DecompressUnknownFails | subpack/packages.py:162-166 | an undetermined tree after the Restic command comes only with a failure |
| Lifecycle.DownloadExtract | subpack/package.py:144-150 | `download_extract` passes exactly when its specification does, and leaves the specified tree whenever it is determined |
| Lifecycle.Install | subpack/packages.py:20-154 | each class's `install` downloads its archive type and extracts it, deleting the download unless it is Restic's, as specified |
| Lifecycle.IsInstalled | subpack/package.py:100-101 | a package is installed exactly when its artifact exists |
| Lifecycle.EnsureInstalled | subpack/package.py:103-106 | `ensure_installed` returns the artifact, does nothing when it exists and installs otherwise |
| Lifecycle.Remove | subpack/package.py:163-164 | `remove` deletes the install path and everything below it, and nothing else |
| LifecycleFacts.LinkNameIsNotEnvOrTmp | subpack/package.py:66 | no class's link name is `env` or `tmp` |
| LifecycleFacts.StoreEntriesDistinct | subpack/package.py:31-35 | the link, the env file, the scratch directory and the profile are four different paths |
| LifecycleFacts.ProfileSourcesEnv | subpack/package.py:44-45 | after the profile step the profile contains the sourcing line |
| LifecycleFacts.InitEnvEffect | subpack/package.py:27-48 | an existing env file means no change; otherwise success creates an empty env file, makes the profile source it, and changes nothing else |
| LifecycleFacts.InitEnvIdempotent | subpack/package.py:27-48 | after a successful `_init_env`, a second one changes nothing |
| LifecycleFacts.InitEnvOffLinux | subpack/package.py:28-29 | off Linux, `_init_env` raises `NotImplementedError` and changes nothing |
| LifecycleFacts.AddPathEffect | subpack/package.py:50-73 | after successful registration the link points at the install path and the env file holds the edited lines, and nothing else but the profile changes |
| LifecycleFacts.AddPathTwice | subpack/package.py:50-73 | registering again after a successful registration changes nothing, when the env file ended in a newline, had at most one tagged line, and the export line has no newline |
| LifecycleFacts.AddPathWithoutEntry | subpack/package.py:51-52 | a package without a PATH entry registers nothing |
| LifecycleFacts.AddPathPasses | subpack/package.py:50-73 | registration cannot raise when the env file exists and no directory sits at the link's place |
| LifecycleFacts.ExtractOffLinux | subpack/package.py:123-126 | off Linux, `extract` raises `NotImplementedError` and changes nothing |
| LifecycleFacts.ExtractDeletesSource | subpack/package.py:136-138 | once the destination exists, with `delete_src` the download is gone afterwards unless unlinking it raised |
| LifecycleFacts.FailedCommandStillDeletes | subpack/package.py:131-138 | a failing command raises its failure, registers nothing, and the download is still deleted: the tree is what the command laid down, without the download |
| LifecycleFacts.FailedCommandKeepsSource | subpack/package.py:131-138 | a failing command without `delete_src` raises its failure and leaves what it laid down on top of the tree with the created destination |
| LifecycleFacts.DownloadStep | subpack/package.py:144-147 | on a fresh store (scratch directory present, download succeeding) the download is written to `tmp/<name>.<type>` and extraction starts from there |
| LifecycleFacts.InstallDirStep | subpack/package.py:129 | the install path is created as an empty directory beside the download |
| LifecycleFacts.UnopenableArchivesNeverInstall | subpack/package.py:103-128 | on every Linux store, fresh or not, TiPruNone, StLink and EsBuild fail to install, and the tree is determined: the error is an I/O error or the download's failure, or else "unsupported archive type" naming the download |
| LifecycleFacts.UnopenableArchiveFails | subpack/package.py:122-128 | on a fresh store, TiPruNone, StLink and EsBuild raise "unsupported archive type" after the download, leave the download in place, and are not installed |
| LifecycleFacts.GenericExtractStep | subpack/package.py:122-138 | with a template, the generic extractor creates the install path and runs the `try` body and the `finally` there |
| LifecycleFacts.FreshUnpack | subpack/package.py:132 | the tool's tree fits under the empty install path and lies there as laid down, with nothing else changed |
| LifecycleFacts.PlainInstallEffect | subpack/package.py:144-150 | on a fresh store (scratch directory present, download succeeding), an install that neither drills nor registers ends with the tool's tree under the install path and the download gone |
| LifecycleFacts.ToolInstallSettles | subpack/package.py:144-150 | on a fresh store (scratch directory present, download succeeding), an install whose tool succeeds reduces to the `finally` after settling the unpacked tree |
| LifecycleFacts.UnpackedLookup | subpack/package.py:132 | after unpacking, the install path holds the tool's tree, the download is in place, and nothing else changed |
| LifecycleFacts.PlainInstalledLookup | subpack/package.py:136-138 | after such an install and the `finally`, the download is gone and the rest is as unpacked |
| LifecycleFacts.PlainFreshInstall | subpack/package.py:103-150 | such an install passes, the package is installed, the download is gone, the env file and the link are untouched, and a later `ensure_installed` is a no-op |
| LifecycleFacts.PlainInstalledTree | subpack/package.py:100-101 | the tree such an install leaves holds the artifact and not the download |
| LifecycleFacts.ElectronFreshInstall | subpack/packages.py:13-23 | Electron's install on a fresh store (scratch directory present, download succeeding) passes whenever the zip holds `electron`, and `ensure_installed` afterwards is a no-op |
| LifecycleFacts.PathsAroundInstall | subpack/package.py:145 | the download, the env file and the link lie outside the install path and are different paths |
| LifecycleFacts.ResticMoveClear | subpack/packages.py:159 | with an empty install path and the download a file outside it, `mv` neither raises nor meets an unmodelled case |
| LifecycleFacts.ResticDecompressStep | subpack/packages.py:159-165 | the Restic command leaves the binary as the only entry of the install path, and drilling then raises `NotADirectoryError` for it |
| LifecycleFacts.ResticBzip2FailStep | subpack/packages.py:159-162 | when `bzip2` fails in an empty install path, the command raises and the tree is the one `mv` left, the download at `restic.bz2` |
| LifecycleFacts.ResticInstallEffect | subpack/packages.py:149-169 | Restic's install on a fresh store (scratch directory present, download succeeding) raises `NotADirectoryError` for its own artifact, leaving a determined tree |
| LifecycleFacts.ResticLeftLookup | subpack/packages.py:156-169 | that tree holds the binary at the artifact, no download, and nothing else changed outside the install path |
| LifecycleFacts.ResticFreshInstall | subpack/packages.py:149-169 | Restic's install on a fresh store (scratch directory present, download succeeding) raises after the binary is in place, registers nothing, and leaves the package installed, so `ensure_installed` is a no-op afterwards |
| LifecycleFacts.ResticBzip2Effect | subpack/packages.py:149-169 | a Restic install on a fresh store (scratch directory present, download succeeding) whose `bzip2` fails raises the command's failure and leaves the tree `mv` made from the fresh install path, which is determined |
| LifecycleFacts.ResticStrandedLookup | subpack/packages.py:159 | that tree holds the download at `restic.bz2`, nothing at `restic` or in the scratch directory's download entry, and is unchanged outside the install path |
| LifecycleFacts.ResticBzip2Fails | subpack/packages.py:149-169 | a Restic install on a fresh store (scratch directory present, download succeeding) whose `bzip2` fails raises the command's failure, writes no binary, and leaves the download at `restic.bz2` in the install path and not in the scratch directory, with nothing else changed outside the install path |
| LifecycleFacts.ResticDescriptorInstall | subpack/packages.py:142-169 | Restic's own descriptor, whatever its version, fails its install on a fresh store (scratch directory present, download succeeding) with `NotADirectoryError` for its `restic` binary |
| LifecycleFacts.ResticShape | subpack/packages.py:144-154 | Restic's descriptor drills, its artifact is `restic` in the install path, and it downloads `bz2` |
| LifecycleFacts.DrillingShape | subpack/packages.py:32 | switching drilling on changes nothing else in a package |
| LifecycleFacts.UnpackedChildren | subpack/package.py:157 | under the fresh install path the tool's tree lists as it does on its own |
| LifecycleFacts.DrillSingleTop | subpack/package.py:152-161 | a tool's tree with one top directory is drilled exactly one level |
| LifecycleFacts.DrilledLookup | subpack/package.py:152-161 | after that drilling, the artifact holds the tool's entry below the top directory and nothing outside the install path changed but the download |
| LifecycleFacts.DrilledReady | subpack/package.py:152-161 | drilling leaves the env file and the link's place as they were, so registration cannot raise |
| LifecycleFacts.DrilledInstallEffect | subpack/package.py:131-138 | such an install reduces to registration on the drilled tree followed by the `finally` |
| LifecycleFacts.DrilledFreshInstall | subpack/package.py:122-150 | an install on a fresh store (scratch directory present, download succeeding), with the env file already present, that drills one level and registers passes: the package is installed, the download is gone, the link points at the install path, the env file holds the edited lines, and `ensure_installed` is then a no-op |
| LifecycleFacts.RegisteredThenCleaned | subpack/package.py:135-138 | registration on a ready tree followed by deleting the download passes and keeps the artifact |
| LifecycleFacts.NodeFreshInstall | subpack/packages.py:113-123 | Node's install on a fresh store (scratch directory present, download succeeding), with the env file already present, from a tarball with one top directory holding `bin/node`, passes, installs, links the package and registers `bin` on PATH |
| LifecycleFacts.NodeShape | subpack/packages.py:115-118 | Node's descriptor drills, registers PATH, and its artifact is `bin/node` |
| LifecycleFacts.RemoveUninstalls | subpack/package.py:163-164 | after `remove` the package is not installed, `ensure_installed` installs again, nothing outside the install path changed, and the link and env file stay behind |
| LifecycleFacts.PlainInstallThenRemove | subpack/package.py:163-164 | removing a plain install made on a fresh store (scratch directory present, download succeeding) gives back the tree before it, except for the download entry |

## Left out

- The download itself (`subpack/package.py:140-142`) and each installer's URL are left out: the network is outside the model. `World.fetched` gives the bytes or a download failure. A partial download is not modelled.
- The shell (`sh`, `subpack/package.py:14-16`) and the archive tools are not run. `World` gives the tree unzip/tar lays down, what a failing unzip/tar leaves, and the binary `bzip2` decompresses.
- Every path pasted into a shell command (`ln -sf`, `rm -rf`, `mv`, `unzip`, `tar`, `bzip2`) is taken to be one shell word, and the host's `sh` is taken to provide `rm`, `mv`, `ln`, `unzip`, `tar` and `bzip2`. The source does not quote the paths, so a home directory with a space or a shell metacharacter in it makes the commands act on other paths; a non-Linux host is one bit in the model and is given the same POSIX shell.
- Lifecycle.Remove: the contract's "the install path and everything below it go, and nothing else" assumes the rendered install path is one shell word and the host's `sh` has `rm`. With a space in the path `rm -rf` removes other paths; on a host without `rm` the command fails silently (`sh` does not check the status) and nothing changes.
- Lifecycle.AddPath: the `ln -sf` step assumes both rendered paths are single shell words and the host's `sh` has `ln`; otherwise the link may be made elsewhere or not at all, silently.
- Lifecycle.Decompress: `mv` and `bzip2` are run with no host test, as in the source, and the model assumes a POSIX shell on every host and that the paths are single shell words. On a host whose `sh` lacks `mv` the real command raises and leaves the tree unchanged, where the model moves the download.
- `CalledProcessError`'s exit status is not represented: a failed command raises `CommandFailed` carrying the command.
- A failing `bzip2` is taken to remove any half-written `restic` and keep `restic.bz2`, as `bzip2 -f` does.
- `chmod +x` is not modelled: the model has no file modes.
- The installers' side effects after `download_extract` are left out: the apt commands (`subpack/packages.py:54`, `subpack/packages.py:69`), StLink's `install.sh` (`subpack/packages.py:96`) and Bun's `bunx` link (`subpack/packages.py:110`). They run programs outside the model.
- Logging and `Package.print` are left out: they produce output only.
- The `extract_dir` argument of `download_extract` is left out, because every installer leaves it at `None`.
- Platform detection (`subpack/package.py:20-24`) is the `isPosix` field of `Host`, and the home directory is its `home` field.
- Symbolic links are recorded but never followed. Listing, reading or writing through a link raises in the model where the source would follow it, and `Path.exists()` tests the entry itself.
- Lifecycle.IsInstalled: `exists()` follows links in the source, so a dangling link at the artifact counts as installed in the model but not in the source, and an artifact reached through a linked directory counts as missing.
- Lifecycle.InitEnv: the env file's `exists()` tests the entry itself, so a dangling link there counts as present in the model, but the source would touch a new file.
- Lifecycle.AddSourcingLine: the profile's `exists()` tests the entry itself, so a dangling link there is read, raising in the model where the source would append instead.
- `str.lower` is modelled for ASCII letters only.
- Universal-newline translation of `open` is not modelled: only `\n` ends a line.
- A `/` inside a package name or archive name is not modelled: names are single path components.
- `subpack/cmdline.py`, `subpack/shortcut.py` and `setup.py` are not part of this model.
- Drilling.DrillSingletonDirs: after a move raises "already exists", the tree is not pinned down. `shutil.move` has already moved an order-dependent part of the siblings. The contract then states only the error and that nothing outside the directory changed.
- Lifecycle.Settle: when drilling stops at such a clash, the contract states only the outcome.
- Lifecycle.Unpack: when drilling stops at such a clash, or the tool's output (complete or partial) does not fit under the destination as a tree, the contract states only the outcome. What the tool would do to the tree then is not modelled.
- Lifecycle.Decompress: when drilling stops at such a clash, the contract states only the outcome. The same holds when the download is a directory or a link, the destination is a link, or a directory or link sits at `restic.bz2`, or a directory at `restic`: `mv` and `bzip2` are not modelled there.
- Lifecycle.RunExtract: when drilling stops at such a clash, or the command's effect is not modelled (as for Lifecycle.Unpack), the contract states only that the call fails, not which error it raises: the `finally`'s unlink runs on an undetermined tree, which decides that.
- Lifecycle.Extract: when drilling stops at such a clash, or the command's effect is not modelled, the contract states only that the call fails, not which error it raises: the `finally`'s unlink runs on an undetermined tree, which decides that.
- Lifecycle.ResticExtract: when drilling stops at such a clash, or the command's effect is not modelled (as for Lifecycle.Decompress), the contract states only that the call fails, not which error it raises: the `finally`'s unlink runs on an undetermined tree, which decides that.
- Lifecycle.DownloadExtract: when drilling stops at such a clash, or the command's effect is not modelled, the contract states only that the call fails, not which error it raises: the `finally`'s unlink runs on an undetermined tree, which decides that.
- Lifecycle.Install: when drilling stops at such a clash, or the command's effect is not modelled, the contract states only that the call fails, not which error it raises: the `finally`'s unlink runs on an undetermined tree, which decides that.
- Lifecycle.EnsureInstalled: when drilling stops at such a clash, or the command's effect is not modelled, the contract states only that the call fails, not which error it raises, and the returned artifact.
- LifecycleFacts.FailedCommandStillDeletes: the tree is stated only when the command's partial output fits under the destination and does not cover the download. When it does not fit, only the outcome is stated: the tree is then undetermined, and the lemma's clause that the download is absent speaks of a placeholder tree, not of the real one.
- LifecycleFacts.FailedCommandKeepsSource: when the command's partial output does not fit under the destination, only the outcome is stated.
