/** How an archive is unpacked: the command template chosen from the archive's name, and the
    filling-in of that template (`_extraction_method_linux`, `_extraction_method_windows`, and
    `str.format` on the result). */
module Archive {
  import opened Wrappers
  import opened Text
  import opened Store

  const UnzipTemplate := "unzip {0} -d {1}"
  const TarTemplate := "tar -xf {0} -C {1}"

  /** The template for an archive on a Linux host, chosen by a case-insensitive suffix test. */
  function ExtractionMethodLinux(archive: string): Result<string, Error>
  {
    var l := Lower(archive);
    if EndsWith(l, ".zip") then Success(UnzipTemplate)
    else if EndsWith(l, ".tar.xz") then Success(TarTemplate)
    else if EndsWith(l, ".tar.gz") then Success(TarTemplate)
    else Failure(UnsupportedArchive(archive))
  }

  /** The template on any host: other hosts have no extraction method. */
  function ExtractionMethod(h: Host, archive: string): Result<string, Error>
  {
    if h.isPosix then ExtractionMethodLinux(archive) else Failure(NotImplemented)
  }

  /** `template.format(a, b)` for templates whose only replacement fields are `{0}` and `{1}`. */
  function Format(template: string, a: string, b: string): string
    decreases |template|
  {
    if template == [] then []
    else if |template| >= 3 && template[..3] == "{0}" then a + Format(template[3..], a, b)
    else if |template| >= 3 && template[..3] == "{1}" then b + Format(template[3..], a, b)
    else [template[0]] + Format(template[1..], a, b)
  }

  // ------------------------------------------------------------------ dispatch

  /** A name whose extension lower-cases to `.zip` is unzipped, whatever the letter case. */
  lemma {:induction false} ZipInAnyCase(stem: string, ext: string)
    requires Lower(ext) == ".zip"
    ensures ExtractionMethodLinux(stem + ext) == Success(UnzipTemplate)
  {
    LowerConcat(stem, ext);
    EndsWithConcat(Lower(stem), Lower(ext), ".zip");
  }

  /** A name whose extension lower-cases to `.tar.xz` or `.tar.gz` goes to tar. */
  lemma {:induction false} TarInAnyCase(stem: string, ext: string)
    requires Lower(ext) == ".tar.xz" || Lower(ext) == ".tar.gz"
    ensures ExtractionMethodLinux(stem + ext) == Success(TarTemplate)
  {
    LowerConcat(stem, ext);
    var l := Lower(stem + ext);
    EndsWithConcat(Lower(stem), Lower(ext), Lower(ext));
    if Lower(ext) == ".tar.xz" {
      TarXzSuffix(l);
    } else {
      TarGzSuffix(l);
    }
  }

  /** A lower-cased name ending in `.tar.xz` does not end in `.zip`. */
  lemma {:induction false} TarXzSuffix(l: string)
    requires EndsWith(l, ".tar.xz")
    ensures !EndsWith(l, ".zip")
  {
    var x := ".tar.xz";
    EndsWithBoth(l, ".zip", x);
    assert x[3] == 'r';
    MismatchNotSuffix(x, ".zip", 0);
  }

  /** A lower-cased name ending in `.tar.gz` ends in neither `.zip` nor `.tar.xz`. */
  lemma {:induction false} TarGzSuffix(l: string)
    requires EndsWith(l, ".tar.gz")
    ensures !EndsWith(l, ".zip") && !EndsWith(l, ".tar.xz")
  {
    var x := ".tar.gz";
    EndsWithBoth(l, ".zip", x);
    assert x[3] == 'r';
    MismatchNotSuffix(x, ".zip", 0);
    EndsWithBoth(l, ".tar.xz", x);
    assert x[5] == 'g';
    MismatchNotSuffix(x, ".tar.xz", 5);
  }

  /** A suffix that differs from the end of `s` at one place is not a suffix of it. */
  lemma {:induction false} MismatchNotSuffix(s: string, x: string, i: int)
    requires |x| <= |s| && 0 <= i < |x| && s[|s| - |x| + i] != x[i]
    ensures !EndsWith(s, x)
  {
    assert s[|s| - |x|..][i] == s[|s| - |x| + i];
  }

  /** The other extensions in use, `.tar.bz2`, `.tgz` and `.bz2`, have no template. */
  lemma {:induction false} TarBz2Raises(stem: string)
    ensures ExtractionMethodLinux(stem + ".tar.bz2") == Failure(UnsupportedArchive(stem + ".tar.bz2"))
  {
    var ext := ".tar.bz2";
    LowerConcat(stem, ext);
    LowerOfLower(ext);
    EndsWithConcat(Lower(stem), ext, ext);
    TarBz2Suffix(Lower(stem + ext));
  }

  /** A lower-cased name ending in `.tar.bz2` ends in none of the three recognised suffixes. */
  lemma {:induction false} TarBz2Suffix(l: string)
    requires EndsWith(l, ".tar.bz2")
    ensures !EndsWith(l, ".zip") && !EndsWith(l, ".tar.xz") && !EndsWith(l, ".tar.gz")
  {
    var x := ".tar.bz2";
    assert x[5] == 'b' && x[1] == 't';
    EndsWithBoth(l, ".zip", x);
    MismatchNotSuffix(x, ".zip", 1);
    EndsWithBoth(l, ".tar.xz", x);
    MismatchNotSuffix(x, ".tar.xz", 0);
    EndsWithBoth(l, ".tar.gz", x);
    MismatchNotSuffix(x, ".tar.gz", 0);
  }

  /** A four-character lower-case extension other than `.zip` that neither tar suffix ends in. */
  lemma {:induction false} ShortExtensionRaises(stem: string, ext: string)
    requires |ext| == 4 && ext != ".zip" && ext != "r.xz" && ext != "r.gz"
    requires forall i :: 0 <= i < |ext| ==> !IsUpper(ext[i])
    ensures ExtractionMethodLinux(stem + ext) == Failure(UnsupportedArchive(stem + ext))
  {
    LowerConcat(stem, ext);
    LowerOfLower(ext);
    var l := Lower(stem) + ext;
    EndsWithConcat(Lower(stem), ext, ext);
    EndsWithConcat(Lower(stem), ext, ".zip");
    EndsWithBoth(l, ext, ".tar.xz");
    EndsWithBoth(l, ext, ".tar.gz");
    assert ".tar.xz"[3..] == "r.xz" && ".tar.gz"[3..] == "r.gz";
  }

  /** A `.zip` name gets the unzip template, a `.tar.xz` or `.tar.gz` name that is not also a
      `.zip` name gets the tar template, and anything else raises, naming the archive. */
  lemma {:induction false} UnsupportedIff(archive: string)
    ensures ExtractionMethodLinux(archive).Failure? <==>
      !EndsWith(Lower(archive), ".zip") && !EndsWith(Lower(archive), ".tar.xz")
        && !EndsWith(Lower(archive), ".tar.gz")
    ensures ExtractionMethodLinux(archive).Failure? ==>
      ExtractionMethodLinux(archive).error == UnsupportedArchive(archive)
    ensures ExtractionMethodLinux(archive) == Success(UnzipTemplate) <==> EndsWith(Lower(archive), ".zip")
    ensures ExtractionMethodLinux(archive) == Success(TarTemplate) <==>
      !EndsWith(Lower(archive), ".zip") &&
        (EndsWith(Lower(archive), ".tar.xz") || EndsWith(Lower(archive), ".tar.gz"))
  {
    assert UnzipTemplate[0] != TarTemplate[0];
  }

  /** The choice depends only on the lower-cased name. */
  lemma {:induction false} DependsOnLowerOnly(a: string, b: string)
    requires Lower(a) == Lower(b)
    ensures ExtractionMethodLinux(a).Success? == ExtractionMethodLinux(b).Success?
    ensures ExtractionMethodLinux(a).Success? ==> ExtractionMethodLinux(a) == ExtractionMethodLinux(b)
  {
  }

  lemma {:induction false} UpperTarGzExample()
    ensures ExtractionMethodLinux("foo.TAR.GZ") == Success(TarTemplate)
  {
    var ext := ".TAR.GZ";
    LowerUpperTarGz();
    assert "foo" + ext == "foo.TAR.GZ";
    TarInAnyCase("foo", ext);
  }

  lemma {:induction false} LowerUpperTarGz()
    ensures Lower(".TAR.GZ") == ".tar.gz"
  {
    var ext := ".TAR.GZ";
    assert forall i :: 0 <= i < |ext| ==> Lower(ext)[i] == LowerChar(ext[i]);
  }

  lemma {:induction false} RarExample()
    ensures ExtractionMethodLinux("foo.rar") == Failure(UnsupportedArchive("foo.rar"))
  {
    var ext := ".rar";
    assert "foo" + ext == "foo.rar";
    ShortExtensionRaises("foo", ext);
  }

  /** A host without Linux gets no template at all. */
  lemma {:induction false} NonPosixHasNoMethod(h: Host, archive: string)
    requires !h.isPosix
    ensures ExtractionMethod(h, archive) == Failure(NotImplemented)
  {
  }

  // ------------------------------------------------------------------- format

  /** Text without `{` is copied as it is. */
  lemma {:induction false} FormatLiteral(lit: string, rest: string, a: string, b: string)
    requires '{' !in lit
    ensures Format(lit + rest, a, b) == lit + Format(rest, a, b)
    decreases |lit|
  {
    if lit != [] {
      var t := lit + rest;
      assert t[0] == lit[0] && t[1..] == lit[1..] + rest;
      FormatLiteral(lit[1..], rest, a, b);
    } else {
      assert lit + rest == rest;
    }
  }

  lemma {:induction false} FormatField(field: string, rest: string, a: string, b: string)
    requires field == "{0}" || field == "{1}"
    ensures Format(field + rest, a, b) == (if field == "{0}" then a else b) + Format(rest, a, b)
  {
    var t := field + rest;
    assert t[..3] == field && t[3..] == rest;
  }

  /** A template with one `{0}` and then one `{1}`, and no other `{`, puts `a` and `b` there. */
  lemma {:induction false} FormatTwoFields(l1: string, l2: string, a: string, b: string)
    requires '{' !in l1 && '{' !in l2
    ensures Format(l1 + "{0}" + l2 + "{1}", a, b) == l1 + a + l2 + b
  {
    var f0, f1 := "{0}", "{1}";
    var t2 := l2 + f1;
    var t1 := f0 + t2;
    assert l1 + f0 + l2 + f1 == l1 + t1;
    FormatLiteral(l1, t1, a, b);
    FormatField(f0, t2, a, b);
    FormatLiteral(l2, f1, a, b);
    assert f1 == f1 + [];
    FormatField(f1, [], a, b);
  }

  lemma {:induction false} FormatTemplate(template: string, l1: string, l2: string, a: string, b: string)
    requires template == l1 + "{0}" + l2 + "{1}" && '{' !in l1 && '{' !in l2
    ensures Format(template, a, b) == l1 + a + l2 + b
  {
    FormatTwoFields(l1, l2, a, b);
  }

  /** The unzip command: `unzip <src> -d <dst>`. */
  lemma {:induction false} FormatUnzip(a: string, b: string)
    ensures Format(UnzipTemplate, a, b) == "unzip " + a + " -d " + b
  {
    FormatTemplate(UnzipTemplate, "unzip ", " -d ", a, b);
  }

  /** The tar command: `tar -xf <src> -C <dst>`. */
  lemma {:induction false} FormatTar(a: string, b: string)
    ensures Format(TarTemplate, a, b) == "tar -xf " + a + " -C " + b
  {
    FormatTemplate(TarTemplate, "tar -xf ", " -C ", a, b);
  }
}
