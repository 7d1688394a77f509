/**
 * The installer object `GitHookd\Setup` (includes/Setup.php): its cached
 * project directory, the directory check, the hook copy loop and the
 * `install` entry point, acting on a `FileSystem`.
 *
 * The parsed command line is reduced to its one flag, `help`; the outcome of
 * every `mkdir` and `copy` call is a parameter.
 */
module Installer {
  import opened Whitelist
  import opened FileSystems
  import opened HookCopy
  import opened Directories

  datatype Option<T> = None | Some(value: T)

  /** How `install` ended. */
  datatype InstallOutcome =
    | HelpShown  // the help screen was printed and nothing else was done
    | Halted     // the directory check did not return a truthy value
    | Verified   // the directory check passed and `install` ran to its end

  /** The project directory a call of `getProjectDir` yields, given the cached value and the working directory. */
  function ProjectOf(cached: Option<string>, cwd: string): (dir: string)
    ensures cached.Some? ==> dir == cached.value
    ensures cached.None? ==> dir == cwd
  {
    match cached
    case Some(d) => d
    case None => cwd
  }

  class Setup {
    /** The directory the bundled hook scripts are read from (`bin/hooks` beside the sources). */
    const hooksDir: string
    /** The project directory, null until `getProjectDir` first runs. */
    var projectDir: Option<string>

    constructor (hooksDir: string)
      ensures this.hooksDir == hooksDir && projectDir == None
    {
      this.hooksDir := hooksDir;
      projectDir := None;
    }

    /** `getProjectDir`: fills the cache from the working directory on first use, then keeps it. */
    method GetProjectDir(fs: FileSystem) returns (dir: string)
      modifies this
      ensures old(projectDir).None? ==> dir == fs.cwd
      ensures old(projectDir).Some? ==> dir == old(projectDir).value
      ensures projectDir == Some(dir)
    {
      if projectDir == None {
        projectDir := Some(fs.cwd);
      }
      dir := projectDir.value;
    }

    /**
     * `verifyDirectories`: checks for `.git`, creates `.git/hooks` when it is
     * missing, and returns the PHP value the source returns.
     */
    method VerifyDirectories(fs: FileSystem, mkdirSucceeds: bool) returns (verdict: Verdict, notices: seq<Notice>)
      modifies this, fs
      ensures projectDir == Some(ProjectOf(old(projectDir), old(fs.cwd)))
      ensures Verification(verdict, fs.dirs, notices) == Verify(old(fs.dirs), projectDir.value, mkdirSucceeds)
      ensures fs.files == old(fs.files) && fs.cwd == old(fs.cwd)
    {
      var dir := GetProjectDir(fs);
      if GitDir(dir) !in fs.dirs {
        notices := [NoGitDirectory];
        verdict := False;
      } else if HooksDir(dir) !in fs.dirs {
        notices := [CreatingHooksDirectory];
        var ok := fs.Mkdir(HooksDir(dir), mkdirSucceeds);
        if !ok {
          notices := notices + [HooksDirectoryFailed];
          verdict := Null;
        } else {
          verdict := False;
        }
      } else {
        notices := [];
        verdict := Null;
      }
    }

    /**
     * `copyHooks`, as its doc comment describes it: list the files in the
     * bundled hooks directory (`candidates`, in the order the listing gives
     * them), keep the whitelisted ones, copy each into the
     * project's `.git/hooks` under its own name, count the copies made and
     * report each copy that threw. The k-th `copy` call has outcome
     * `outcomes[k]`.
     *
     * The source departs from this description in three places, none of
     * which the model follows: it globs the hooks directory itself instead
     * of its entries, passes the callback to `array_filter` before the
     * array, and copies every hook onto the hooks directory instead of into
     * `.git/hooks`. It also counts a copy that returned false; see
     * `HookCopy.SourceCount`.
     */
    method CopyHooks(fs: FileSystem, candidates: seq<string>, outcomes: seq<CopyOutcome>) returns (count: nat, errors: seq<string>)
      requires |outcomes| == |Whitelisted(candidates)|
      requires SourcesExist(fs.files, Whitelisted(candidates), outcomes)
      modifies this, fs
      ensures projectDir == Some(ProjectOf(old(projectDir), old(fs.cwd)))
      ensures count == CopiedCount(outcomes)
      ensures errors == CopyErrors(Whitelisted(candidates), outcomes)
      ensures fs.files == ApplyCopies(old(fs.files), Whitelisted(candidates), outcomes, HooksDir(projectDir.value))
      ensures fs.dirs == old(fs.dirs) && fs.cwd == old(fs.cwd)
    {
      var dir := GetProjectDir(fs);
      var hooks, dest, files0 := Whitelisted(candidates), HooksDir(dir), fs.files;
      count, errors := 0, [];
      for i := 0 to |hooks|
        invariant count == CopiedCount(outcomes[..i])
        invariant errors == CopyErrors(hooks[..i], outcomes[..i])
        invariant fs.files == ApplyCopies(files0, hooks[..i], outcomes[..i], dest)
        invariant fs.dirs == old(fs.dirs) && fs.cwd == old(fs.cwd)
        invariant projectDir == Some(dir)
      {
        var hook := hooks[i];
        ApplyCopiesStep(files0, hooks, outcomes, dest, i);
        TalliesStep(hooks, outcomes, i);
        var ok := fs.Copy(hook, Target(dest, hook), outcomes[i]);
        if outcomes[i].Raised? {
          errors := errors + [CopyError(hook, outcomes[i].message)];
        } else if ok {
          count := count + 1;
        }
      }
      assert hooks[..|hooks|] == hooks;
      assert outcomes[..|outcomes|] == outcomes;
    }

    /**
     * `install`: with the help flag it only shows the help screen; otherwise
     * it checks the directories and stops unless the check was truthy.
     */
    method Install(fs: FileSystem, help: bool, mkdirSucceeds: bool) returns (outcome: InstallOutcome, notices: seq<Notice>)
      modifies this, fs
      ensures help ==> outcome == HelpShown && notices == []
      ensures help ==> projectDir == old(projectDir) && fs.dirs == old(fs.dirs)
      ensures !help ==> outcome == Halted
      ensures !help ==> projectDir == Some(ProjectOf(old(projectDir), old(fs.cwd)))
      ensures !help ==> notices == Verify(old(fs.dirs), ProjectOf(old(projectDir), old(fs.cwd)), mkdirSucceeds).notices
      ensures !help ==> fs.dirs == Verify(old(fs.dirs), ProjectOf(old(projectDir), old(fs.cwd)), mkdirSucceeds).dirs
      ensures fs.files == old(fs.files) && fs.cwd == old(fs.cwd)
      // the directory check never passes, so `install` never gets past it
      ensures outcome != Verified
    {
      if help {
        return HelpShown, [];
      }
      var verdict;
      verdict, notices := VerifyDirectories(fs, mkdirSucceeds);
      outcome := if verdict.Truthy() then Verified else Halted;
    }
  }

  /** A fresh installer reports the working directory as the project directory. */
  method ProjectDirIsWorkingDirectory(fs: FileSystem) returns (dir: string)
    ensures dir == fs.cwd
  {
    var setup := new Setup("bin/hooks");
    dir := setup.GetProjectDir(fs);
  }

  /** Once read, the project directory stays the same even if the working directory differs later. */
  method ProjectDirIsCached(first: FileSystem, later: FileSystem) returns (dir1: string, dir2: string)
    ensures dir1 == first.cwd
    ensures dir2 == dir1
  {
    var setup := new Setup("bin/hooks");
    dir1 := setup.GetProjectDir(first);
    dir2 := setup.GetProjectDir(later);
  }
}
