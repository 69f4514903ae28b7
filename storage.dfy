/** The filesystem as the convertor sees it: a set of paths that are regular
    files and a set of paths that are directories. Paths are compared as
    strings, exactly as they are spelled. */
module Storage {
  import opened Wrappers
  import opened Paths

  datatype Disk = Disk(files: set<string>, dirs: set<string>)

  /** The errors that escape from the convertor (or, for `MoveFailed`, that
      `move_processed_pdf` catches and answers with a retry). */
  datatype Failure =
    | DirectoryNotCreated(path: string)   // os.makedirs raised
    | RenameFailed(source: string, target: string)   // os.rename raised
    | MoveFailed(source: string, directory: string)   // shutil.move raised
    | TemplateRejected(template: string)   // str.format raised
    | RetriesExhausted(source: string)   // the retries of a move ran out

  /** A disk after an operation, together with what the operation returned
      or the error it raised. */
  datatype Effect<T> = Effect(disk: Disk, outcome: Result<T, Failure>)

  /** The proper ancestors of `p` that `os.makedirs` creates on the way:
      every prefix of `p` that ends just before a `/`. */
  function Ancestors(p: string): set<string>
  {
    set i | 0 < i < |p| && p[i] == '/' :: p[..i]
  }

  /** `os.makedirs(p)`: creates `p` and its missing ancestors. It raises on
      the empty path, on a path that already exists, and when `p` or one of
      its ancestors is a regular file; it then creates nothing. */
  function MakeDirs(d: Disk, p: string): (r: Effect<()>)
    ensures r.disk.files == d.files && d.dirs <= r.disk.dirs
    ensures r.outcome.Ok? <==> p != "" && p !in d.dirs && p !in d.files && Ancestors(p) !! d.files
    ensures r.outcome.Ok? ==> r.disk.dirs == d.dirs + Ancestors(p) + {p}
    ensures r.outcome.Err? ==> r.disk == d
  {
    if p == "" || p in d.dirs || p in d.files || !(Ancestors(p) !! d.files) then
      Effect(d, Err(DirectoryNotCreated(p)))
    else
      Effect(Disk(d.files, d.dirs + Ancestors(p) + {p}), Ok(()))
  }

  /** `os.rename(source, target)`: `ok` stands for every cause of failure
      the disk does not show (permissions, a missing parent directory). On
      POSIX an existing regular file at `target` is replaced; a directory
      there makes the call raise. */
  function Rename(d: Disk, source: string, target: string, ok: bool): (r: Effect<()>)
    ensures r.disk.dirs == d.dirs
    ensures r.outcome.Ok? <==> ok && source in d.files && target !in d.dirs
    ensures r.outcome.Ok? ==> r.disk.files == d.files - {source} + {target}
    ensures r.outcome.Err? ==> r.disk == d
  {
    if !ok || source !in d.files || target in d.dirs then Effect(d, Err(RenameFailed(source, target)))
    else Effect(Disk(d.files - {source} + {target}, d.dirs), Ok(()))
  }

  /** `os.path.basename` on POSIX: the text after the last `/`, that is the
      longest suffix of `p` without a `/`. */
  function BaseName(p: string): (r: string)
    ensures '/' !in r
    ensures |r| <= |p| && p[|p| - |r|..] == r
    ensures |r| == |p| || p[|p| - |r| - 1] == '/'
  {
    LastPieceIsSuffix(p, '/');
    var r := LastPiece(p, '/');
    assert forall j :: 0 <= j < |r| ==> r[j] == p[LastIndex(p, '/') + 1 + j];
    r
  }

  /** `os.path.join(a, b)` for a `b` that holds no `/`: a `/` is put in
      between unless `a` is empty or already ends with one. */
  function PathJoin(a: string, b: string): (r: string)
    requires '/' !in b
    ensures a <= r
    ensures r == a + b || r == a + "/" + b
  {
    if a == "" then b
    else if a[|a| - 1] == '/' then a + b
    else a + "/" + b
  }

  /** The join ends in the name: its base name is `b`, and exactly one `/`
      is put in except after an empty directory or one that already ends
      with `/`. */
  lemma PathJoinKeepsName(a: string, b: string)
    requires '/' !in b
    ensures BaseName(PathJoin(a, b)) == b
    ensures |PathJoin(a, b)| == |a| + |b| + (if a == "" || a[|a| - 1] == '/' then 0 else 1)
  {
    if a == "" {
      SinglePiece(b, '/');
    } else if a[|a| - 1] == '/' {
      assert a + b == a[..|a| - 1] + ['/'] + b;
      PiecesAroundLast(a[..|a| - 1], b, '/');
    } else {
      assert a + "/" + b == a + ['/'] + b;
      PiecesAroundLast(a, b, '/');
    }
  }

  /** Where `shutil.move(source, directory)` puts the file. */
  function MoveTarget(source: string, directory: string): string
  {
    PathJoin(directory, BaseName(source))
  }

  /** `shutil.move(source, directory)` into an existing directory: the file
      keeps its base name. It raises when anything already exists at the
      target, when the source is missing, or when `ok` says the underlying
      rename or copy failed; nothing changes then. */
  function MoveInto(d: Disk, source: string, directory: string, ok: bool): (r: Effect<()>)
    requires directory in d.dirs
    ensures r.disk.dirs == d.dirs
    ensures r.outcome.Ok? <==>
      ok && source in d.files && MoveTarget(source, directory) !in d.files + d.dirs
    ensures r.outcome.Ok? ==> r.disk.files == d.files - {source} + {MoveTarget(source, directory)}
    ensures r.outcome.Err? ==> r.disk == d
  {
    var target := MoveTarget(source, directory);
    if !ok || source !in d.files || target in d.files || target in d.dirs then
      Effect(d, Err(MoveFailed(source, directory)))
    else Effect(Disk(d.files - {source} + {target}, d.dirs), Ok(()))
  }

  /** A successful `Image.save(path)`: a regular file appears at `path`. */
  function Save(d: Disk, path: string): (r: Disk)
    ensures r.files == d.files + {path} && r.dirs == d.dirs
  {
    Disk(d.files + {path}, d.dirs)
  }

  /** A save overwrites: onto an existing file it leaves the disk as it was,
      otherwise it adds exactly one file; saving twice is saving once. */
  lemma SaveOverwrites(d: Disk, path: string)
    ensures path in d.files ==> Save(d, path) == d
    ensures path !in d.files ==> |Save(d, path).files| == |d.files| + 1
    ensures Save(Save(d, path), path) == Save(d, path)
  {
    if path in d.files {
      assert d.files + {path} == d.files;
    }
  }

  /** `os.makedirs` is not idempotent: after it succeeds the path and all
      its ancestors are directories, and a second call raises. */
  lemma MakeDirsTwiceRaises(d: Disk, p: string)
    ensures var r := MakeDirs(d, p);
      r.outcome.Ok? ==> p in r.disk.dirs && forall i :: 0 < i < |p| && p[i] == '/' ==> p[..i] in r.disk.dirs
    ensures MakeDirs(MakeDirs(d, p).disk, p).outcome.Err?
  {
  }

  /** A rename keeps every file other than its source and target. After it
      succeeds the target exists and a distinct source is gone; a regular
      file already at the target is replaced, so one file is lost. */
  lemma RenameReplacesTarget(d: Disk, source: string, target: string, ok: bool)
    ensures var r := Rename(d, source, target, ok);
      && d.files - {source, target} <= r.disk.files
      && (r.outcome.Ok? ==> target in r.disk.files && (source != target ==> source !in r.disk.files))
      && (r.outcome.Ok? && source != target ==>
            |r.disk.files| == if target in d.files then |d.files| - 1 else |d.files|)
  {
    var r := Rename(d, source, target, ok);
    if r.outcome.Ok? && source != target {
      var rest := d.files - {source};
      assert |rest| == |d.files| - 1;
      if target in d.files {
        assert rest + {target} == rest;
      } else {
        assert target !in rest;
      }
    }
  }

  /** A move never overwrites: the file lands on a path that was free,
      under its own base name, and every other file stays where it was. */
  lemma MoveIntoKeepsOtherFiles(d: Disk, source: string, directory: string, ok: bool)
    requires directory in d.dirs
    ensures var r := MoveInto(d, source, directory, ok);
      && d.files - {source} <= r.disk.files
      && |r.disk.files| == |d.files|
      && (r.outcome.Ok? ==> source !in r.disk.files && MoveTarget(source, directory) in r.disk.files)
      && BaseName(MoveTarget(source, directory)) == BaseName(source)
  {
    var r := MoveInto(d, source, directory, ok);
    PathJoinKeepsName(directory, BaseName(source));
    if r.outcome.Ok? {
      var t := MoveTarget(source, directory);
      assert t != source;
      assert |d.files - {source}| == |d.files| - 1;
    }
  }
}
