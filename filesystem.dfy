/**
 * The part of the operating system the installer touches, as an object: the
 * working directory, the set of existing directories and the regular files
 * with their contents. `mkdir` and `copy` take their outcome as a parameter,
 * since whether the operating system lets them succeed is not part of the model.
 */
module FileSystems {

  type Bytes = seq<bv8>

  /** What one call of PHP's `copy` did. */
  datatype CopyOutcome =
    | Copied                   // returned true: the target now holds the source's bytes
    | Refused                  // returned false with a warning; no exception is thrown
    | Raised(message: string)  // threw an exception carrying this message

  class FileSystem {
    var cwd: string
    var dirs: set<string>
    var files: map<string, Bytes>

    constructor (cwd: string, dirs: set<string>, files: map<string, Bytes>)
      ensures this.cwd == cwd && this.dirs == dirs && this.files == files
    {
      this.cwd := cwd;
      this.dirs := dirs;
      this.files := files;
    }

    /** `mkdir(path)`: adds `path` to the directories exactly when it succeeds. */
    method Mkdir(path: string, succeeds: bool) returns (ok: bool)
      modifies this
      ensures ok == succeeds
      ensures dirs == if ok then old(dirs) + {path} else old(dirs)
      ensures files == old(files) && cwd == old(cwd)
    {
      ok := succeeds;
      if ok {
        dirs := dirs + {path};
      }
    }

    /**
     * `copy(source, target)`: overwrites `target` with the bytes of `source`
     * when it succeeds, which it can only do when `source` is a file.
     */
    method Copy(source: string, target: string, outcome: CopyOutcome) returns (ok: bool)
      requires outcome == Copied ==> source in files
      modifies this
      ensures ok == (outcome == Copied)
      ensures files == if ok then old(files)[target := old(files)[source]] else old(files)
      ensures dirs == old(dirs) && cwd == old(cwd)
    {
      ok := outcome == Copied;
      if ok {
        files := files[target := files[source]];
      }
    }
  }
}
