/** The live filesystem the convertor works on; `os.path.isfile`,
    `os.path.isdir` and the calls that change the disk. */
module Os {
  import opened Wrappers
  import opened Storage

  /** The filesystem state. Each method leaves the disk in the state the
      function of `Storage` with the same name describes. */
  class FileSystem {
    var files: set<string>
    var dirs: set<string>

    function State(): Disk
      reads this
    {
      Disk(files, dirs)
    }

    constructor (d: Disk)
      ensures State() == d
    {
      files := d.files;
      dirs := d.dirs;
    }

    predicate IsFile(p: string)
      reads this
    {
      p in files
    }

    predicate IsDir(p: string)
      reads this
    {
      p in dirs
    }

    method MakeDirs(p: string) returns (r: Result<(), Failure>)
      modifies this
      ensures Effect(State(), r) == Storage.MakeDirs(old(State()), p)
    {
      var e := Storage.MakeDirs(State(), p);
      files, dirs := e.disk.files, e.disk.dirs;
      r := e.outcome;
    }

    method Rename(source: string, target: string, ok: bool) returns (r: Result<(), Failure>)
      modifies this
      ensures Effect(State(), r) == Storage.Rename(old(State()), source, target, ok)
    {
      if !ok || source !in files || target in dirs {
        r := Err(RenameFailed(source, target));
      } else {
        files := files - {source} + {target};
        r := Ok(());
      }
    }

    method MoveInto(source: string, directory: string, ok: bool) returns (r: Result<(), Failure>)
      requires directory in dirs
      modifies this
      ensures Effect(State(), r) == Storage.MoveInto(old(State()), source, directory, ok)
    {
      var target := MoveTarget(source, directory);
      if !ok || source !in files || target in files || target in dirs {
        r := Err(MoveFailed(source, directory));
      } else {
        files := files - {source} + {target};
        r := Ok(());
      }
    }

    method Save(path: string)
      modifies this
      ensures State() == Storage.Save(old(State()), path)
    {
      files := files + {path};
    }
  }
}
