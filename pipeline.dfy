/** What each step of the convertor does to the disk and returns, as
    functions of the disk before the step and of the outcomes of the calls
    the convertor cannot see (the PDF engine, image saves, renames, moves
    and the clock). */
module Pipeline {
  import opened Wrappers
  import opened Paths
  import opened TemplateFormat
  import opened Naming
  import opened Sanitizer
  import opened Validation
  import opened Storage

  /** The settings `__init__` reads from the `convertor_pdf_2_png` section
      of the configuration. */
  datatype Config = Config(
    maxPages: int,           // max_nr_pdf_pages_to_process
    formats: seq<string>,    // supported_formats, as configured
    imageFormat: string,     // output_image_format
    failedToConvert: string, // failed_to_convert
    pdfFiles: string,        // pdf_files
    pngFiles: string)        // output_png_files_path

  /** One page the engine produced: an opaque image, and whether
      `Image.save` succeeds on it. */
  datatype Page<Image> = Page(image: Image, saves: bool)

  /** One try of `shutil.move`: whether it succeeds, and the reading of
      `int(time.time() * 1000)` taken if it does not. */
  datatype Attempt = Attempt(ok: bool, millis: nat)

  /** The convertor as the source writes it, or with the two corrections
      of its file-name handling: a path without a directory part keeps its
      place when it is cleaned (`Sanitizer.CleanedPath`), and the page-name
      template doubles the braces of the stem and of the image format
      (`Naming.OutputTemplate`). */
  datatype Variant = AsWritten | Corrected

  /** The path the PDF is renamed to. */
  function RenameTarget(v: Variant, path: string): string
  {
    match v
    case AsWritten => CleanedPathAsWritten(path)
    case Corrected => CleanedPath(path)
  }

  /** The template the pages of `pdf` are named with. */
  function PageTemplate(v: Variant, pdf: string, imageFormat: string): string
  {
    match v
    case AsWritten => OutputTemplateAsWritten(pdf, imageFormat)
    case Corrected => OutputTemplate(pdf, imageFormat)
  }

  /** Both variants keep the directory part and clean the file name; they
      differ only on a path without a directory part, which as written gets
      a leading `/`. */
  lemma RenameTargetParts(v: Variant, path: string)
    ensures Directory(RenameTarget(v, path)) == Directory(path)
    ensures FileName(RenameTarget(v, path)) == Sanitized(FileName(path))
    ensures '/' in Normalize(path) ==> RenameTarget(AsWritten, path) == RenameTarget(Corrected, path)
    ensures '/' !in Normalize(path) ==> RenameTarget(AsWritten, path) == "/" + RenameTarget(Corrected, path)
  {
    if v == AsWritten {
      AsWrittenTargetParts(path);
    } else {
      CleanedPathStaysInDirectory(path);
    }
    RenameTargetsCompared(path);
  }

  lemma AsWrittenTargetParts(path: string)
    ensures Directory(CleanedPathAsWritten(path)) == Directory(path)
    ensures FileName(CleanedPathAsWritten(path)) == Sanitized(FileName(path))
  {
    SanitizedFileNameHasNoSeparator(path);
    DirectoryHasNoBackslash(path);
    SplitAtLastSlash(Directory(path), Sanitized(FileName(path)));
  }

  lemma RenameTargetsCompared(path: string)
    ensures '/' in Normalize(path) ==> CleanedPathAsWritten(path) == CleanedPath(path)
    ensures '/' !in Normalize(path) ==> CleanedPathAsWritten(path) == "/" + CleanedPath(path)
  {
    DirectoryAndFileName(path);
    if '/' !in Normalize(path) {
      assert "" + "/" + Sanitized(FileName(path)) == "/" + Sanitized(FileName(path));
    }
  }

  /** Without braces in the stem and in the image format, both variants
      name the pages alike. */
  lemma PageTemplatesAgree(pdf: string, imageFormat: string)
    requires NoBraces(Stem(FileName(pdf))) && NoBraces(imageFormat)
    ensures PageTemplate(AsWritten, pdf, imageFormat) == PageTemplate(Corrected, pdf, imageFormat)
  {
    AsWrittenAgreesWithoutBraces(pdf, imageFormat);
  }

  // ---------------------------------------------------------------------
  // create_directory

  /** `create_directory`: nothing to do when the directory exists, otherwise
      `os.makedirs`. */
  function CreateDirectory(d: Disk, path: string): (r: Effect<()>)
    ensures r.disk.files == d.files && d.dirs <= r.disk.dirs
    ensures r.outcome.Ok? ==> path in r.disk.dirs
    ensures r.outcome.Err? ==> r.disk == d
  {
    if path in d.dirs then Effect(d, Ok(())) else MakeDirs(d, path)
  }

  /** Creating a directory twice is creating it once, whether the first
      call succeeded or raised. */
  lemma CreateDirectoryIdempotent(d: Disk, path: string)
    ensures CreateDirectory(CreateDirectory(d, path).disk, path) == CreateDirectory(d, path)
  {
  }

  /** The existing directories are left alone; a missing one is created
      exactly when `os.makedirs` can create it. */
  lemma CreateDirectoryOutcome(d: Disk, path: string)
    ensures path in d.dirs ==> CreateDirectory(d, path) == Effect(d, Ok(()))
    ensures path !in d.dirs ==>
      (CreateDirectory(d, path).outcome.Ok? <==> path != "" && path !in d.files && Ancestors(path) !! d.files)
  {
  }

  // ---------------------------------------------------------------------
  // remove_special_characters_from_filename

  /** `remove_special_characters_from_filename`. A missing file is returned
      as it is; otherwise the file is renamed to `RenameTarget(v, path)`, and
      the new path is returned if a file exists there afterwards. */
  function SanitizeFile(v: Variant, d: Disk, path: string, renameOk: bool): Effect<string>
  {
    if path !in d.files then Effect(d, Ok(path))
    else
      var target := RenameTarget(v, path);
      var renamed := Rename(d, path, target, renameOk);
      if renamed.outcome.Err? then Effect(renamed.disk, Err(renamed.outcome.error))
      else Effect(renamed.disk, Ok(if target in renamed.disk.files then target else path))
  }

  /** A missing file is left as it is. */
  lemma SanitizeMissingFile(v: Variant, d: Disk, path: string, renameOk: bool)
    requires path !in d.files
    ensures SanitizeFile(v, d, path, renameOk) == Effect(d, Ok(path))
  {
  }

  /** An existing file is renamed to its target, whose directory part is
      that of the path and whose file name is the sanitised one, or the
      rename raises and nothing changes. The check after the rename never
      falls back to the old path. */
  lemma SanitizeExistingFile(v: Variant, d: Disk, path: string, renameOk: bool)
    requires path in d.files
    ensures var r := SanitizeFile(v, d, path, renameOk);
      && (r.outcome.Ok? <==> renameOk && RenameTarget(v, path) !in d.dirs)
      && (r.outcome.Ok? ==>
            && r.outcome.value == RenameTarget(v, path)
            && r.disk.files == d.files - {path} + {RenameTarget(v, path)}
            && r.disk.dirs == d.dirs
            && Directory(r.outcome.value) == Directory(path)
            && FileName(r.outcome.value) == Sanitized(FileName(path)))
      && (r.outcome.Err? ==> r.disk == d)
  {
    RenameTargetParts(v, path);
  }

  /** As written, an existing file without a directory part is renamed to
      the root of the filesystem: `name` becomes `/` plus the sanitised
      name. */
  lemma SanitizeSendsToRoot(d: Disk, path: string, renameOk: bool)
    requires path in d.files && '/' !in path && '\\' !in path
    ensures var r := SanitizeFile(AsWritten, d, path, renameOk);
      && (r.outcome.Ok? <==> renameOk && "/" + Sanitized(path) !in d.dirs)
      && (r.outcome.Ok? ==>
            && r.outcome.value == "/" + Sanitized(path)
            && r.disk.files == d.files - {path} + {"/" + Sanitized(path)})
  {
    AsWrittenMovesToRoot(path);
    SanitizeExistingFile(AsWritten, d, path, renameOk);
  }

  /** With a directory part, both variants rename alike. */
  lemma SanitizeVariantsAgree(d: Disk, path: string, renameOk: bool)
    requires '/' in Normalize(path)
    ensures SanitizeFile(AsWritten, d, path, renameOk) == SanitizeFile(Corrected, d, path, renameOk)
  {
    RenameTargetParts(AsWritten, path);
  }

  // ---------------------------------------------------------------------
  // process_poppeller_output

  /** Index of the first page whose save fails, or the number of pages. */
  function FirstFailure<I>(pages: seq<Page<I>>): (k: nat)
    ensures k <= |pages|
    ensures forall j :: 0 <= j < k ==> pages[j].saves
    ensures k < |pages| ==> !pages[k].saves
  {
    if pages == [] then 0
    else if !pages[0].saves then 0
    else 1 + FirstFailure(pages[1..])
  }

  function Min(a: int, b: int): int { if a <= b then a else b }
  function Max(a: int, b: int): int { if a <= b then b else a }

  /** The path the loop builds for the page with 0-based index `j` of `n`. */
  function PagePath(dir: string, template: string, j: nat, n: nat): string
  {
    dir + "/" + Formatted(template, Decimal(j + 1), Decimal(n))
  }

  function Elements(s: seq<string>): set<string>
  {
    set x | x in s
  }

  /** The loop of `process_poppeller_output` from page index `i` on, with
      `written` the paths appended so far: format the name (an error here
      escapes), save the page (a failure ends the loop), append, and stop
      once the number written reaches the cap. */
  function WritePages<I>(d: Disk, pages: seq<Page<I>>, i: nat, written: seq<string>,
                         dir: string, template: string, cap: int): Effect<seq<string>>
    requires i <= |pages|
    decreases |pages| - i
  {
    if i == |pages| then Effect(d, Ok(written))
    else match Format(template, Decimal(i + 1), Decimal(|pages|))
      case None => Effect(d, Err(TemplateRejected(template)))
      case Some(name) =>
        var path := dir + "/" + name;
        if !pages[i].saves then Effect(d, Ok(written))
        else if |written| + 1 >= cap then Effect(Save(d, path), Ok(written + [path]))
        else WritePages(Save(d, path), pages, i + 1, written + [path], dir, template, cap)
  }

  /** `process_poppeller_output`: no pages, no output and no directory;
      otherwise the image directory `output_path/png_files` is created and
      the pages are written into it. */
  function ProcessOutput<I>(d: Disk, pages: seq<Page<I>>, template: string, outputPath: string, c: Config): Effect<seq<string>>
  {
    if pages == [] then Effect(d, Ok([]))
    else
      var dir := outputPath + "/" + c.pngFiles;
      var made := CreateDirectory(d, dir);
      if made.outcome.Err? then Effect(made.disk, Err(made.outcome.error))
      else WritePages(made.disk, pages, 0, [], dir, template, c.maxPages)
  }

  /** The loop raises exactly when the template does not format, whatever
      the page numbers. */
  lemma {:induction false} WritePagesRaises<I>(d: Disk, pages: seq<Page<I>>, i: nat, written: seq<string>,
                                               dir: string, template: string, cap: int)
    requires i < |pages|
    ensures WritePages(d, pages, i, written, dir, template, cap).outcome.Err? <==>
      Format(template, "1", "1").None?
    decreases |pages| - i
  {
    FailureIndependentOfArguments(template, Decimal(i + 1), Decimal(|pages|), "1", "1");
    if Format(template, Decimal(i + 1), Decimal(|pages|)).Some?
       && pages[i].saves && |written| + 1 < cap && i + 1 < |pages| {
      var path := dir + "/" + Formatted(template, Decimal(i + 1), Decimal(|pages|));
      WritePagesRaises(Save(d, path), pages, i + 1, written + [path], dir, template, cap);
    }
  }

  /** How many paths the loop has written once it returns:
      `min(N, k, max(cap, 1))`. */
  lemma {:induction false} WritePagesCount<I>(d: Disk, pages: seq<Page<I>>, i: nat, written: seq<string>,
                                              dir: string, template: string, cap: int)
    requires i <= |pages| && |written| == i
    requires forall j :: 0 <= j < i ==> pages[j].saves
    requires i == 0 || i < cap
    ensures var r := WritePages(d, pages, i, written, dir, template, cap);
      r.outcome.Ok? ==> |r.outcome.value| == Min(|pages|, Min(FirstFailure(pages), Max(cap, 1)))
    decreases |pages| - i
  {
    var k := FirstFailure(pages);
    if i < |pages| && Format(template, Decimal(i + 1), Decimal(|pages|)).Some? {
      if !pages[i].saves {
        assert k == i;
      } else if |written| + 1 >= cap {
        assert k >= i + 1;
      } else {
        var path := PagePath(dir, template, i, |pages|);
        WritePagesCount(Save(d, path), pages, i + 1, written + [path], dir, template, cap);
      }
    }
  }

  /** What the loop has returned: the paths appended so far, then one path
      per page written, in page order. */
  lemma {:induction false} WritePagesNames<I>(d: Disk, pages: seq<Page<I>>, i: nat, written: seq<string>,
                                              dir: string, template: string, cap: int)
    requires i <= |pages| && |written| == i
    ensures var r := WritePages(d, pages, i, written, dir, template, cap);
      r.outcome.Ok? ==>
        var w := r.outcome.value;
        && i <= |w|
        && w[..i] == written
        && (forall j :: i <= j < |w| ==> w[j] == PagePath(dir, template, j, |pages|))
    decreases |pages| - i
  {
    var r := WritePages(d, pages, i, written, dir, template, cap);
    if i < |pages| && Format(template, Decimal(i + 1), Decimal(|pages|)).Some?
       && pages[i].saves && |written| + 1 < cap {
      var path := PagePath(dir, template, i, |pages|);
      var w1 := written + [path];
      WritePagesNames(Save(d, path), pages, i + 1, w1, dir, template, cap);
      assert r == WritePages(Save(d, path), pages, i + 1, w1, dir, template, cap);
      if r.outcome.Ok? {
        PrefixStep(r.outcome.value, written, path, i);
      }
    }
  }

  /** What the loop has done to the disk: each path it returns from index
      `i` on is saved, and nothing else changes. */
  lemma {:induction false} WritePagesDisk<I>(d: Disk, pages: seq<Page<I>>, i: nat, written: seq<string>,
                                             dir: string, template: string, cap: int)
    requires i <= |pages| && |written| == i
    ensures var r := WritePages(d, pages, i, written, dir, template, cap);
      r.outcome.Ok? ==>
        && i <= |r.outcome.value|
        && r.disk.files == d.files + Elements(r.outcome.value[i..])
        && r.disk.dirs == d.dirs
    decreases |pages| - i
  {
    WritePagesNames(d, pages, i, written, dir, template, cap);
    var r := WritePages(d, pages, i, written, dir, template, cap);
    if i == |pages| || Format(template, Decimal(i + 1), Decimal(|pages|)).None? || !pages[i].saves {
      assert written[i..] == [];
    } else {
      var path := PagePath(dir, template, i, |pages|);
      var w1 := written + [path];
      if |written| + 1 >= cap {
        assert w1[i..] == [path];
      } else {
        WritePagesDisk(Save(d, path), pages, i + 1, w1, dir, template, cap);
        WritePagesNames(Save(d, path), pages, i + 1, w1, dir, template, cap);
        assert r == WritePages(Save(d, path), pages, i + 1, w1, dir, template, cap);
        if r.outcome.Ok? {
          PrefixStep(r.outcome.value, written, path, i);
        }
      }
    }
  }

  /** A sequence that starts with `written + [path]` starts with `written`,
      and its part from `|written|` on is `path` followed by the rest. */
  lemma PrefixStep(w: seq<string>, written: seq<string>, path: string, i: nat)
    requires |written| == i && i + 1 <= |w| && w[..i + 1] == written + [path]
    ensures w[..i] == written && w[i] == path
    ensures Elements(w[i..]) == {path} + Elements(w[i + 1..])
  {
    assert w[..i] == w[..i + 1][..i];
    assert w[i..] == [path] + w[i + 1..];
  }

  /** The result of `process_poppeller_output` when it returns: the number
      of paths is `min(N, k, max(cap, 1))` for `N` pages, the first failing
      save at index `k` and the page cap `cap`; entry `j` names page `j + 1`
      of `N`; exactly those files are added to the disk. */
  lemma ProcessOutputResult<I>(d: Disk, pages: seq<Page<I>>, template: string, outputPath: string, c: Config)
    ensures var r := ProcessOutput(d, pages, template, outputPath, c);
      r.outcome.Ok? ==>
        var w := r.outcome.value;
        var dir := outputPath + "/" + c.pngFiles;
        && |w| == Min(|pages|, Min(FirstFailure(pages), Max(c.maxPages, 1)))
        && (forall j :: 0 <= j < |w| ==> w[j] == PagePath(dir, template, j, |pages|))
        && r.disk.files == d.files + Elements(w)
        && (pages != [] ==> r.disk.dirs == CreateDirectory(d, dir).disk.dirs)
        && (pages == [] ==> w == [] && r.disk == d)
  {
    if pages != [] {
      var dir := outputPath + "/" + c.pngFiles;
      var made := CreateDirectory(d, dir);
      if made.outcome.Ok? {
        WritePagesCount(made.disk, pages, 0, [], dir, template, c.maxPages);
        WritePagesNames(made.disk, pages, 0, [], dir, template, c.maxPages);
        WritePagesDisk(made.disk, pages, 0, [], dir, template, c.maxPages);
        var w := ProcessOutput(d, pages, template, outputPath, c).outcome;
        if w.Ok? {
          assert w.value[0..] == w.value;
        }
      }
    }
  }

  /** With pages to write, `process_poppeller_output` raises exactly when
      the image directory cannot be created or the template does not
      format. */
  lemma ProcessOutputRaises<I>(d: Disk, pages: seq<Page<I>>, template: string, outputPath: string, c: Config)
    requires pages != []
    ensures ProcessOutput(d, pages, template, outputPath, c).outcome.Err? <==>
      CreateDirectory(d, outputPath + "/" + c.pngFiles).outcome.Err? || Format(template, "1", "1").None?
  {
    var made := CreateDirectory(d, outputPath + "/" + c.pngFiles);
    WritePagesRaises(made.disk, pages, 0, [], outputPath + "/" + c.pngFiles, template, c.maxPages);
  }

  /** The cap is checked after each write, so a cap of zero or less still
      writes the first page when its save succeeds. */
  lemma CapBelowOneWritesOnePage<I>(d: Disk, pages: seq<Page<I>>, template: string, outputPath: string, c: Config)
    requires pages != [] && pages[0].saves && c.maxPages <= 0
    ensures var r := ProcessOutput(d, pages, template, outputPath, c);
      r.outcome.Ok? ==> |r.outcome.value| == 1
  {
    ProcessOutputResult(d, pages, template, outputPath, c);
  }

  /** With the template of `get_output_pdf_image_names`, entry `j` of the
      output is `output_path/png_files/<base>-pdf-page<j+1>_from_<N>.<format>`,
      and no two entries coincide. */
  lemma ProcessOutputNames<I>(d: Disk, pages: seq<Page<I>>, pdf: string, outputPath: string, c: Config)
    ensures var r := ProcessOutput(d, pages, OutputTemplate(pdf, c.imageFormat), outputPath, c);
      r.outcome.Ok? ==>
        var w := r.outcome.value;
        && (forall j :: 0 <= j < |w| ==>
              w[j] == outputPath + "/" + c.pngFiles + "/" + PageFileName(pdf, c.imageFormat, j + 1, |pages|))
        && (forall j, k :: 0 <= j < k < |w| ==> w[j] != w[k])
  {
    var template := OutputTemplate(pdf, c.imageFormat);
    ProcessOutputResult(d, pages, template, outputPath, c);
    var r := ProcessOutput(d, pages, template, outputPath, c);
    if r.outcome.Ok? {
      NamedPages(r.outcome.value, outputPath + "/" + c.pngFiles, pdf, c.imageFormat, |pages|);
    }
  }

  /** Paths built by the loop from the escaped template are the intended
      page file names, and distinct. */
  lemma NamedPages(w: seq<string>, dir: string, pdf: string, imageFormat: string, n: nat)
    requires forall j :: 0 <= j < |w| ==> w[j] == PagePath(dir, OutputTemplate(pdf, imageFormat), j, n)
    ensures forall j :: 0 <= j < |w| ==> w[j] == dir + "/" + PageFileName(pdf, imageFormat, j + 1, n)
    ensures forall j, k :: 0 <= j < k < |w| ==> w[j] != w[k]
  {
    forall j | 0 <= j < |w|
      ensures w[j] == dir + "/" + PageFileName(pdf, imageFormat, j + 1, n)
    {
      OutputTemplateFormats(pdf, imageFormat, j + 1, n);
    }
    forall j, k | 0 <= j < k < |w| ensures w[j] != w[k] {
      PageFileNamesDistinct(pdf, imageFormat, j + 1, k + 1, n);
      var x := PageFileName(pdf, imageFormat, j + 1, n);
      var y := PageFileName(pdf, imageFormat, k + 1, n);
      if w[j] == w[k] {
        CancelPrefix(dir + "/", x, y);
      }
    }
  }

  /** The escaped template always formats, so with it
      `process_poppeller_output` raises only when the image directory
      cannot be created. */
  lemma ProcessOutputTemplateNeverRaises<I>(d: Disk, pages: seq<Page<I>>, pdf: string, outputPath: string, c: Config)
    requires pages != []
    ensures ProcessOutput(d, pages, OutputTemplate(pdf, c.imageFormat), outputPath, c).outcome.Err? <==>
      CreateDirectory(d, outputPath + "/" + c.pngFiles).outcome.Err?
  {
    OutputTemplateFormats(pdf, c.imageFormat, 1, 1);
    assert Decimal(1) == "1";
    ProcessOutputRaises(d, pages, OutputTemplate(pdf, c.imageFormat), outputPath, c);
  }

  // ---------------------------------------------------------------------
  // move_processed_pdf

  /** The directory a failed move retries into. */
  function RetryDirectory(dest: string, millis: nat): string
  {
    dest + "/fail_to_move/" + Decimal(millis)
  }

  /** `move_processed_pdf`: nothing to do for a missing source; otherwise
      create the destination directory (an error here escapes) and move the
      file into it; when the move raises, start again with the directory
      `dest/fail_to_move/<millis>`. Each try consumes one attempt; when none
      is left the retries have run out. */
  function Relocate(d: Disk, source: string, dest: string, attempts: seq<Attempt>): Effect<()>
    decreases |attempts|
  {
    if source !in d.files then Effect(d, Ok(()))
    else
      var made := CreateDirectory(d, dest);
      if made.outcome.Err? then Effect(made.disk, Err(made.outcome.error))
      else if attempts == [] then Effect(made.disk, Err(RetriesExhausted(source)))
      else
        var moved := MoveInto(made.disk, source, dest, attempts[0].ok);
        if moved.outcome.Ok? then moved
        else Relocate(made.disk, source, RetryDirectory(dest, attempts[0].millis), attempts[1..])
  }

  /** `t` lies in the directory `dir` or below it. */
  predicate Inside(dir: string, t: string)
  {
    dir + "/" <= t
  }

  /** Where a relocation of `source` into `dest` may have put the file: it
      keeps its base name, and it is either the target `shutil.move` gives in
      `dest` or lies under the retry directory of the first failed try; in
      either case it lies inside `dest` when `dest` does not end with `/`. */
  predicate Landed(source: string, dest: string, attempts: seq<Attempt>, t: string)
  {
    && BaseName(t) == BaseName(source)
    && (t == MoveTarget(source, dest) || (attempts != [] && Inside(RetryDirectory(dest, attempts[0].millis), t)))
    && (dest != "" && dest[|dest| - 1] != '/' ==> Inside(dest, t))
  }

  /** Two buckets of one output path whose names differ and hold no `/`
      share no path: nothing lies inside both. */
  lemma BucketsApart(outputPath: string, a: string, b: string, t: string)
    requires '/' !in a && '/' !in b && a != b
    ensures !(Inside(outputPath + "/" + a, t) && Inside(outputPath + "/" + b, t))
  {
    if Inside(outputPath + "/" + a, t) && Inside(outputPath + "/" + b, t) {
      if |a| <= |b| {
        BucketPrefix(outputPath, a, b, t);
      } else {
        BucketPrefix(outputPath, b, a, t);
      }
    }
  }

  /** Of two buckets holding one path, the shorter name is a prefix of the
      longer one, followed there by `/`. */
  lemma BucketPrefix(outputPath: string, a: string, b: string, t: string)
    requires |a| <= |b|
    requires Inside(outputPath + "/" + a, t) && Inside(outputPath + "/" + b, t)
    ensures a == b[..|a|]
    ensures |a| < |b| ==> b[|a|] == '/'
  {
    var n := |outputPath| + 1;
    forall i | 0 <= i < |a| ensures a[i] == b[i] {
      assert a[i] == (outputPath + "/" + a + "/")[n + i] == t[n + i] == (outputPath + "/" + b + "/")[n + i];
    }
    if |a| < |b| {
      assert (outputPath + "/" + a + "/")[n + |a|] == t[n + |a|] == (outputPath + "/" + b + "/")[n + |a|];
    }
  }

  /** Relocating a missing source changes nothing. */
  lemma RelocateMissingSource(d: Disk, source: string, dest: string, attempts: seq<Attempt>)
    requires source !in d.files
    ensures Relocate(d, source, dest, attempts) == Effect(d, Ok(()))
  {
  }

  /** Relocation never loses or overwrites a file. When it raises, the
      files are as they were. When it returns, an existing source has gone
      to a path that was free, under its own base name: directly into
      `dest`, or under `dest/fail_to_move/<millis>` of the first failed try. */
  lemma {:induction false} RelocateMovesOneFile(d: Disk, source: string, dest: string, attempts: seq<Attempt>)
    ensures var r := Relocate(d, source, dest, attempts);
      && d.dirs <= r.disk.dirs
      && (r.outcome.Err? ==> r.disk.files == d.files)
      && (r.outcome.Ok? && source in d.files ==>
            exists t :: t in r.disk.files
              && t !in d.files
              && r.disk.files == d.files - {source} + {t}
              && Landed(source, dest, attempts, t))
    decreases |attempts|
  {
    var r := Relocate(d, source, dest, attempts);
    if source in d.files {
      var made := CreateDirectory(d, dest);
      if made.outcome.Ok? && attempts != [] {
        var moved := MoveInto(made.disk, source, dest, attempts[0].ok);
        if moved.outcome.Ok? {
          var t := MoveTarget(source, dest);
          PathJoinKeepsName(dest, BaseName(source));
          assert t in r.disk.files && Landed(source, dest, attempts, t);
        } else {
          var retry := RetryDirectory(dest, attempts[0].millis);
          RelocateMovesOneFile(made.disk, source, retry, attempts[1..]);
          if r.outcome.Ok? {
            var t :| t in r.disk.files && t !in made.disk.files
              && r.disk.files == made.disk.files - {source} + {t}
              && Landed(source, retry, attempts[1..], t);
            RetryLanding(source, dest, attempts, t);
          }
        }
      }
    }
  }

  /** A file that landed from a retry directory landed from `dest`. */
  lemma RetryLanding(source: string, dest: string, attempts: seq<Attempt>, t: string)
    requires attempts != []
    requires Landed(source, RetryDirectory(dest, attempts[0].millis), attempts[1..], t)
    ensures Landed(source, dest, attempts, t)
  {
    var retry := RetryDirectory(dest, attempts[0].millis);
    RetryDirectoryShape(dest, attempts[0].millis);
    assert Inside(retry, t);
    PrefixTransitive(dest + "/", retry, t);
  }

  lemma PrefixTransitive(a: string, b: string, c: string)
    requires a <= b && b <= c
    ensures a <= c
  {
    assert c[..|a|] == c[..|b|][..|a|];
  }

  /** A retry directory lies inside its destination and does not end
      with `/`. */
  lemma RetryDirectoryShape(dest: string, millis: nat)
    ensures var retry := RetryDirectory(dest, millis);
      retry != "" && retry[|retry| - 1] != '/' && Inside(dest, retry)
  {
    var m := Decimal(millis);
    assert RetryDirectory(dest, millis)[|RetryDirectory(dest, millis)| - 1] == m[|m| - 1];
  }

  /** Which of the two places the file lands in is decided by the first
      try: it is the `shutil.move` target in `dest` exactly when the first
      try succeeds, and otherwise it lies under the retry directory. */
  lemma RelocateFirstTry(d: Disk, source: string, dest: string, attempts: seq<Attempt>)
    requires source in d.files && attempts != []
    requires Relocate(d, source, dest, attempts).outcome.Ok?
    ensures var first := MoveInto(CreateDirectory(d, dest).disk, source, dest, attempts[0].ok);
      first.outcome.Ok? <==>
        Relocate(d, source, dest, attempts).disk.files == d.files - {source} + {MoveTarget(source, dest)}
  {
    var r := Relocate(d, source, dest, attempts);
    var made := CreateDirectory(d, dest);
    var first := MoveInto(made.disk, source, dest, attempts[0].ok);
    if !first.outcome.Ok? {
      var retry := RetryDirectory(dest, attempts[0].millis);
      assert r == Relocate(made.disk, source, retry, attempts[1..]);
      RelocateMovesOneFile(made.disk, source, retry, attempts[1..]);
      var t :| t in r.disk.files && t !in made.disk.files
        && r.disk.files == made.disk.files - {source} + {t}
        && Landed(source, retry, attempts[1..], t);
      RetryDirectoryShape(dest, attempts[0].millis);
      RetryNotTarget(dest, BaseName(source), attempts[0].millis, t);
      OtherNewFile(d.files, source, t, MoveTarget(source, dest));
    }
  }

  lemma OtherNewFile(files: set<string>, source: string, t: string, target: string)
    requires t !in files && t != target
    ensures files - {source} + {t} != files - {source} + {target}
  {
    assert t in files - {source} + {t};
  }

  /** Nothing under a retry directory of `dest` is a path `os.path.join`
      builds from `dest` and a name without `/`. */
  lemma RetryNotTarget(dest: string, b: string, millis: nat, t: string)
    requires '/' !in b
    requires Inside(RetryDirectory(dest, millis), t)
    ensures t != PathJoin(dest, b)
  {
    var retry := RetryDirectory(dest, millis);
    var n := |dest|;
    assert t[..|retry| + 1] == retry + "/";
    assert |t| >= n + 15;
    assert t[n] == retry[n] == '/';
    assert t[n + 13] == retry[n + 13] == '/';
    if dest == "" {
      assert t[0] == '/';
      assert '/' !in PathJoin(dest, b);
    } else if dest[n - 1] == '/' {
      assert |b| == 0 ==> |PathJoin(dest, b)| == n;
      assert |b| > 0 ==> PathJoin(dest, b)[n] == b[0] != '/';
    } else {
      assert |b| > 12 ==> PathJoin(dest, b)[n + 13] == b[12] != '/';
      assert |b| <= 12 ==> |PathJoin(dest, b)| <= n + 13;
    }
  }

  /** The number of files is what it was: a move takes one away and adds
      one. */
  lemma RelocateKeepsFileCount(d: Disk, source: string, dest: string, attempts: seq<Attempt>)
    ensures |Relocate(d, source, dest, attempts).disk.files| == |d.files|
  {
    RelocateMovesOneFile(d, source, dest, attempts);
    var r := Relocate(d, source, dest, attempts);
    if r.outcome.Ok? && source in d.files {
      var t :| t in r.disk.files && t !in d.files && r.disk.files == d.files - {source} + {t};
      assert |d.files - {source}| == |d.files| - 1;
    } else if r.outcome.Ok? {
      RelocateMissingSource(d, source, dest, attempts);
    }
  }

  // ---------------------------------------------------------------------
  // convert_pdf_file_to_png_files

  /** What the call returns: `('', '')` for a rejected input, otherwise the
      path of the (renamed) PDF and the paths of the images written. */
  datatype Returned = Rejected | Converted(pdf: string, outputs: seq<string>)

  /** The outcomes of the calls the convertor cannot see during one
      conversion: whether `os.rename` succeeds, the pages `convert_from_path`
      returns or `None` when it raises, and the tries of `shutil.move`. */
  datatype Environment<I> = Environment(renameOk: bool, engine: Option<seq<Page<I>>>, attempts: seq<Attempt>)

  /** `convert_pdf_from_path`: an engine error becomes an empty page list. */
  function EnginePages<I>(engine: Option<seq<Page<I>>>): (r: seq<Page<I>>)
    ensures engine.None? ==> r == []
    ensures engine.Some? ==> r == engine.value
  {
    match engine
    case None => []
    case Some(pages) => pages
  }

  /** The directory under the output path a processed PDF goes to. */
  function Bucket(c: Config, outputs: seq<string>): string
  {
    if outputs == [] then c.failedToConvert else c.pdfFiles
  }

  /** `convert_pdf_file_to_png_files`: validate, rename, then the rest of
      the conversion. */
  function Convert<I>(v: Variant, d: Disk, c: Config, path: string, outputPath: string, env: Environment<I>): Effect<Returned>
  {
    if !IsValidInput(d.files, SupportedFormats(c.formats), path) then Effect(d, Ok(Rejected))
    else
      var cleaned := SanitizeFile(v, d, path, env.renameOk);
      if cleaned.outcome.Err? then Effect(cleaned.disk, Err(cleaned.outcome.error))
      else
        var pdf := cleaned.outcome.value;
        Finish(cleaned.disk, c, pdf, PageTemplate(v, pdf, c.imageFormat), outputPath, env)
  }

  /** The conversion after the rename: create the output directory, write
      the pages of `pdf` named by `template`, and move `pdf` to its bucket. */
  function Finish<I>(d: Disk, c: Config, pdf: string, template: string, outputPath: string, env: Environment<I>): Effect<Returned>
  {
    var made := CreateDirectory(d, outputPath);
    if made.outcome.Err? then Effect(made.disk, Err(made.outcome.error))
    else
      var written := ProcessOutput(made.disk, EnginePages(env.engine), template, outputPath, c);
      if written.outcome.Err? then Effect(written.disk, Err(written.outcome.error))
      else
        var outputs := written.outcome.value;
        var moved := Relocate(written.disk, pdf, outputPath + "/" + Bucket(c, outputs), env.attempts);
        if moved.outcome.Err? then Effect(moved.disk, Err(moved.outcome.error))
        else Effect(moved.disk, Ok(Converted(pdf, outputs)))
  }

  /** An input is rejected exactly when it fails validation, and then the
      disk is untouched. */
  lemma ConvertRejectsExactlyInvalid<I>(v: Variant, d: Disk, c: Config, path: string, outputPath: string, env: Environment<I>)
    ensures Convert(v, d, c, path, outputPath, env).outcome == Ok(Rejected) <==>
      !IsValidInput(d.files, SupportedFormats(c.formats), path)
    ensures !IsValidInput(d.files, SupportedFormats(c.formats), path) ==>
      Convert(v, d, c, path, outputPath, env).disk == d
  {
    if IsValidInput(d.files, SupportedFormats(c.formats), path) {
      var cleaned := SanitizeFile(v, d, path, env.renameOk);
      if cleaned.outcome.Ok? {
        var pdf := cleaned.outcome.value;
        var made := CreateDirectory(cleaned.disk, outputPath);
        if made.outcome.Ok? {
          var written := ProcessOutput(made.disk, EnginePages(env.engine), PageTemplate(v, pdf, c.imageFormat), outputPath, c);
          if written.outcome.Ok? {
            var moved := Relocate(written.disk, pdf, outputPath + "/" + Bucket(c, written.outcome.value), env.attempts);
            assert moved.outcome.Ok? ==>
              Convert(v, d, c, path, outputPath, env).outcome == Ok(Converted(pdf, written.outcome.value));
          }
        }
      }
    }
  }

  /** An engine failure cannot be told apart from a document without
      pages. */
  lemma EngineFailureIsNoPages<I>(v: Variant, d: Disk, c: Config, path: string, outputPath: string, env: Environment<I>)
    requires env.engine.None?
    ensures Convert(v, d, c, path, outputPath, env) == Convert(v, d, c, path, outputPath, env.(engine := Some([])))
  {
    assert EnginePages(env.engine) == EnginePages(env.(engine := Some([])).engine);
  }

  /** How a conversion that returns got there: the rename, the output
      directory and the page writing all succeeded. */
  lemma ConvertedSteps<I>(v: Variant, d: Disk, c: Config, path: string, outputPath: string, env: Environment<I>)
    requires Convert(v, d, c, path, outputPath, env).outcome.Ok?
    requires Convert(v, d, c, path, outputPath, env).outcome.value.Converted?
    ensures var p := RenameTarget(v, path);
      var cleaned := SanitizeFile(v, d, path, env.renameOk);
      && cleaned.outcome == Ok(p)
      && cleaned.disk.files == d.files - {path} + {p}
      && CreateDirectory(cleaned.disk, outputPath).outcome.Ok?
      && var written := ProcessOutput(CreateDirectory(cleaned.disk, outputPath).disk, EnginePages(env.engine),
                                      PageTemplate(v, p, c.imageFormat), outputPath, c);
         && written.outcome.Ok?
         && Convert(v, d, c, path, outputPath, env).outcome.value == Converted(p, written.outcome.value)
  {
    SanitizeExistingFile(v, d, path, env.renameOk);
  }

  /** No image is written exactly when there are no pages or the first
      save fails. */
  lemma NothingWritten<I>(pages: seq<Page<I>>, cap: int)
    ensures Min(|pages|, Min(FirstFailure(pages), Max(cap, 1))) == 0 <==> pages == [] || !pages[0].saves
  {
  }

  /** A conversion that returns has renamed the PDF to its target and
      written the images `process_poppeller_output` promises: their number,
      one per page in page order named by the template, and none at all
      exactly when the engine gave no pages or the first save failed. */
  lemma ConvertedOutputs<I>(v: Variant, d: Disk, c: Config, path: string, outputPath: string, env: Environment<I>)
    requires Convert(v, d, c, path, outputPath, env).outcome.Ok?
    requires Convert(v, d, c, path, outputPath, env).outcome.value.Converted?
    ensures var r := Convert(v, d, c, path, outputPath, env);
      var p, outs := r.outcome.value.pdf, r.outcome.value.outputs;
      var pages := EnginePages(env.engine);
      && p == RenameTarget(v, path)
      && |outs| == Min(|pages|, Min(FirstFailure(pages), Max(c.maxPages, 1)))
      && (outs == [] <==> pages == [] || !pages[0].saves)
      && (forall j :: 0 <= j < |outs| ==>
            outs[j] == PagePath(outputPath + "/" + c.pngFiles, PageTemplate(v, p, c.imageFormat), j, |pages|))
  {
    var pages := EnginePages(env.engine);
    ConvertedSteps(v, d, c, path, outputPath, env);
    var p := RenameTarget(v, path);
    var made := CreateDirectory(SanitizeFile(v, d, path, env.renameOk).disk, outputPath);
    ProcessOutputResult(made.disk, pages, PageTemplate(v, p, c.imageFormat), outputPath, c);
    NothingWritten(pages, c.maxPages);
  }

  /** The images of a conversion that returns carry the intended names
      `<stem>-pdf-page<j+1>_from_<N>.<format>`, pairwise distinct, when the
      braces are escaped, and as written whenever the cleaned stem and the
      image format hold no braces. */
  lemma ConvertedNames<I>(v: Variant, d: Disk, c: Config, path: string, outputPath: string, env: Environment<I>)
    requires Convert(v, d, c, path, outputPath, env).outcome.Ok?
    requires Convert(v, d, c, path, outputPath, env).outcome.value.Converted?
    requires v == AsWritten ==> NoBraces(Stem(Sanitized(FileName(path)))) && NoBraces(c.imageFormat)
    ensures var r := Convert(v, d, c, path, outputPath, env);
      var p, outs := r.outcome.value.pdf, r.outcome.value.outputs;
      && (forall j :: 0 <= j < |outs| ==>
            outs[j] == outputPath + "/" + c.pngFiles + "/" + PageFileName(p, c.imageFormat, j + 1, |EnginePages(env.engine)|))
      && (forall j, k :: 0 <= j < k < |outs| ==> outs[j] != outs[k])
  {
    ConvertedOutputs(v, d, c, path, outputPath, env);
    var r := Convert(v, d, c, path, outputPath, env);
    var p := RenameTarget(v, path);
    RenameTargetParts(v, path);
    if v == AsWritten {
      PageTemplatesAgree(p, c.imageFormat);
    }
    assert PageTemplate(v, p, c.imageFormat) == OutputTemplate(p, c.imageFormat);
    NamedPages(r.outcome.value.outputs, outputPath + "/" + c.pngFiles, p, c.imageFormat, |EnginePages(env.engine)|);
  }

  /** A conversion that returns has moved the PDF from its target to a path
      that was free, under its own base name, in `output_path/failed_to_convert`
      when no image was written and in `output_path/pdf_files` otherwise (or
      under that bucket's `fail_to_move` directory); apart from that one move,
      the files are those after the rename and the page writing. */
  lemma ConvertedPlacement<I>(v: Variant, d: Disk, c: Config, path: string, outputPath: string, env: Environment<I>)
    requires Convert(v, d, c, path, outputPath, env).outcome.Ok?
    requires Convert(v, d, c, path, outputPath, env).outcome.value.Converted?
    ensures var r := Convert(v, d, c, path, outputPath, env);
      var p, outs := r.outcome.value.pdf, r.outcome.value.outputs;
      var placed := d.files - {path} + {p} + Elements(outs);
      && p !in r.disk.files
      && exists t :: Landed(p, outputPath + "/" + Bucket(c, outs), env.attempts, t)
           && t !in placed && r.disk.files == placed - {p} + {t}
  {
    var pages := EnginePages(env.engine);
    ConvertedSteps(v, d, c, path, outputPath, env);
    var cleaned := SanitizeFile(v, d, path, env.renameOk);
    var p := cleaned.outcome.value;
    var made := CreateDirectory(cleaned.disk, outputPath);
    var written := ProcessOutput(made.disk, pages, PageTemplate(v, p, c.imageFormat), outputPath, c);
    ProcessOutputResult(made.disk, pages, PageTemplate(v, p, c.imageFormat), outputPath, c);
    var outs := written.outcome.value;
    assert written.disk.files == d.files - {path} + {p} + Elements(outs);
    PlacementAfterPages(written.disk, p, outputPath + "/" + Bucket(c, outs), env.attempts);
  }

  /** The move at the end of a conversion, on its own: the PDF goes to a
      free path in the bucket, or under its retry directory, keeping its base
      name, and nothing else changes. */
  lemma PlacementAfterPages(w: Disk, p: string, bucket: string, attempts: seq<Attempt>)
    requires p in w.files
    requires Relocate(w, p, bucket, attempts).outcome.Ok?
    ensures var moved := Relocate(w, p, bucket, attempts).disk;
      && p !in moved.files
      && exists t :: Landed(p, bucket, attempts, t) && t !in w.files && moved.files == w.files - {p} + {t}
  {
    RelocateMovesOneFile(w, p, bucket, attempts);
  }

  /** When the engine fails, no image is written and the PDF goes to a free
      path in `output_path/failed_to_convert` (or under its `fail_to_move`
      directory), keeping its base name. */
  lemma EngineFailureGoesToFailedBucket<I>(v: Variant, d: Disk, c: Config, path: string, outputPath: string, env: Environment<I>)
    requires env.engine.None?
    requires Convert(v, d, c, path, outputPath, env).outcome.Ok?
    requires Convert(v, d, c, path, outputPath, env).outcome.value.Converted?
    ensures var r := Convert(v, d, c, path, outputPath, env);
      var p := r.outcome.value.pdf;
      && r.outcome.value.outputs == []
      && exists t :: Landed(p, outputPath + "/" + c.failedToConvert, env.attempts, t)
           && t !in d.files - {path} + {p} && r.disk.files == (d.files - {path} - {p}) + {t}
  {
    ConvertedOutputs(v, d, c, path, outputPath, env);
    ConvertedPlacement(v, d, c, path, outputPath, env);
    assert Elements([]) == {};
  }

  /** With bucket names that are distinct, non-empty and free of `/`, a
      conversion that returns puts the PDF inside exactly one bucket:
      `failed_to_convert` when no image was written, `pdf_files` otherwise. */
  lemma PlacedInOneBucket<I>(v: Variant, d: Disk, c: Config, path: string, outputPath: string, env: Environment<I>)
    requires Convert(v, d, c, path, outputPath, env).outcome.Ok?
    requires Convert(v, d, c, path, outputPath, env).outcome.value.Converted?
    requires '/' !in c.failedToConvert && '/' !in c.pdfFiles
    requires c.failedToConvert != "" && c.pdfFiles != "" && c.failedToConvert != c.pdfFiles
    ensures var r := Convert(v, d, c, path, outputPath, env);
      var outs := r.outcome.value.outputs;
      var other := if outs == [] then c.pdfFiles else c.failedToConvert;
      exists t :: t in r.disk.files
        && t !in d.files - {path} + {r.outcome.value.pdf} + Elements(outs)
        && Inside(outputPath + "/" + Bucket(c, outs), t)
        && !Inside(outputPath + "/" + other, t)
  {
    ConvertedPlacement(v, d, c, path, outputPath, env);
    var r := Convert(v, d, c, path, outputPath, env);
    var p, outs := r.outcome.value.pdf, r.outcome.value.outputs;
    var bucket := outputPath + "/" + Bucket(c, outs);
    var other := if outs == [] then c.pdfFiles else c.failedToConvert;
    var placed := d.files - {path} + {p} + Elements(outs);
    var t :| Landed(p, bucket, env.attempts, t) && t !in placed && r.disk.files == placed - {p} + {t};
    LandedInOwnBucket(outputPath, Bucket(c, outs), other, p, env.attempts, t);
  }

  /** A file that landed in the bucket `name` lies inside it and not inside
      any other bucket. */
  lemma LandedInOwnBucket(outputPath: string, name: string, other: string, p: string, attempts: seq<Attempt>, t: string)
    requires '/' !in name && '/' !in other && name != "" && name != other
    requires Landed(p, outputPath + "/" + name, attempts, t)
    ensures Inside(outputPath + "/" + name, t) && !Inside(outputPath + "/" + other, t)
  {
    var bucket := outputPath + "/" + name;
    assert bucket[|bucket| - 1] == name[|name| - 1];
    assert name[|name| - 1] in name;
    BucketsApart(outputPath, name, other, t);
  }

  /** With the default empty output path, a valid input is renamed and then
      the call raises, because `os.makedirs('')` does: the renamed PDF stays
      where the rename put it. */
  lemma EmptyOutputPathRaises<I>(v: Variant, d: Disk, c: Config, path: string, env: Environment<I>)
    requires IsValidInput(d.files, SupportedFormats(c.formats), path)
    requires env.renameOk && RenameTarget(v, path) !in d.dirs && "" !in d.dirs
    ensures Convert(v, d, c, path, "", env).outcome == Err(DirectoryNotCreated(""))
    ensures Convert(v, d, c, path, "", env).disk.files == d.files - {path} + {RenameTarget(v, path)}
  {
    SanitizeExistingFile(v, d, path, env.renameOk);
  }

  /** As written, a template that does not format makes a conversion with
      pages raise: only a failed rename or a directory that cannot be created
      can come first, and when the template is what raises, the PDF has been
      renamed, no image is written and the PDF is never moved to a bucket. */
  lemma TemplateErrorEscapes<I>(d: Disk, c: Config, path: string, outputPath: string, env: Environment<I>)
    requires IsValidInput(d.files, SupportedFormats(c.formats), path)
    requires env.engine.Some? && env.engine.value != []
    requires Format(PageTemplate(AsWritten, RenameTarget(AsWritten, path), c.imageFormat), "1", "1").None?
    ensures var r := Convert(AsWritten, d, c, path, outputPath, env);
      var template := PageTemplate(AsWritten, RenameTarget(AsWritten, path), c.imageFormat);
      && r.outcome.Err?
      && (r.outcome.error.RenameFailed? || r.outcome.error.DirectoryNotCreated? || r.outcome.error == TemplateRejected(template))
      && (r.outcome.error.TemplateRejected? ==> r.disk.files == d.files - {path} + {RenameTarget(AsWritten, path)})
      && (env.renameOk && RenameTarget(AsWritten, path) !in d.dirs
          && outputPath in d.dirs && outputPath + "/" + c.pngFiles in d.dirs ==>
            r.outcome.error == TemplateRejected(template))
  {
    var p := RenameTarget(AsWritten, path);
    var template := PageTemplate(AsWritten, p, c.imageFormat);
    var cleaned := SanitizeFile(AsWritten, d, path, env.renameOk);
    SanitizeExistingFile(AsWritten, d, path, env.renameOk);
    if cleaned.outcome.Ok? {
      var made := CreateDirectory(cleaned.disk, outputPath);
      if made.outcome.Ok? {
        var pages := env.engine.value;
        var dir := outputPath + "/" + c.pngFiles;
        var images := CreateDirectory(made.disk, dir);
        if images.outcome.Ok? {
          FailureIndependentOfArguments(template, Decimal(0 + 1), Decimal(|pages|), "1", "1");
          assert WritePages(images.disk, pages, 0, [], dir, template, c.maxPages)
              == Effect(images.disk, Err(TemplateRejected(template)));
        }
      }
    }
  }

  /** As written, a PDF whose cleaned stem is `a{b}` (such as `a{b}.pdf`,
      see `BraceNameSurvivesCleaning`) is never converted when it has pages:
      the call raises, and once the rename and the directories succeed it is
      the `format` call that raises. */
  lemma BraceStemRaises<I>(d: Disk, c: Config, path: string, outputPath: string, env: Environment<I>)
    requires IsValidInput(d.files, SupportedFormats(c.formats), path)
    requires env.engine.Some? && env.engine.value != []
    requires Stem(Sanitized(FileName(path))) == "a{b}"
    ensures Convert(AsWritten, d, c, path, outputPath, env).outcome.Err?
    ensures (env.renameOk && RenameTarget(AsWritten, path) !in d.dirs
             && outputPath in d.dirs && outputPath + "/" + c.pngFiles in d.dirs) ==>
      Convert(AsWritten, d, c, path, outputPath, env).outcome.error.TemplateRejected?
  {
    var p := RenameTarget(AsWritten, path);
    RenameTargetParts(AsWritten, path);
    AsWrittenBraceRaises(p, c.imageFormat, "1", "1");
    TemplateErrorEscapes(d, c, path, outputPath, env);
  }

  /** Braces are kept by the sanitiser: the cleaned stem of `a{b}.pdf` is
      `a{b}`. */
  lemma BraceNameSurvivesCleaning()
    ensures Stem(Sanitized(FileName("a{b}.pdf"))) == "a{b}"
  {
    assert Normalize("a{b}.pdf") == "a{b}.pdf";
    SinglePiece("a{b}.pdf", '/');
    VisibleAsciiUnchanged("a{b}.pdf");
    BraceNameStem();
  }

  /** With a directory part and no braces in the cleaned stem or the image
      format, the conversion as written and the corrected one coincide. */
  lemma ConvertVariantsAgree<I>(d: Disk, c: Config, path: string, outputPath: string, env: Environment<I>)
    requires '/' in Normalize(path)
    requires NoBraces(Stem(Sanitized(FileName(path)))) && NoBraces(c.imageFormat)
    ensures Convert(AsWritten, d, c, path, outputPath, env) == Convert(Corrected, d, c, path, outputPath, env)
  {
    var p := RenameTarget(AsWritten, path);
    RenameTargetParts(AsWritten, path);
    PageTemplatesAgree(p, c.imageFormat);
    SanitizeVariantsAgree(d, path, env.renameOk);
    if path in d.files {
      SanitizeExistingFile(AsWritten, d, path, env.renameOk);
    }
  }
}
