/**
 * The decision `verifyDirectories` takes (includes/Setup.php), as a function
 * of the existing directories, the project directory and whether `mkdir`
 * succeeds.
 *
 * The PHP method returns `false` on two paths, a bare `return;` (null) on
 * a third, and falls off its end (null again) when both directories exist.
 * `Verdict` keeps those values apart; no path yields `True`.
 */
module Directories {

  /** The PHP value a call returned; `install` only goes on when it is truthy. */
  datatype Verdict = False | Null | True {
    predicate Truthy() {
      this == True
    }
  }

  /** The console messages `verifyDirectories` prints. */
  datatype Notice =
    | NoGitDirectory          // "No .git directory found in your project, ..."
    | CreatingHooksDirectory  // "Creating hooks directory in Git repository"
    | HooksDirectoryFailed    // "An error occurred creating .git/hooks, ..."

  function GitDir(project: string): string {
    project + "/.git"
  }

  function HooksDir(project: string): string {
    project + "/.git/hooks"
  }

  /** The value returned, the directories afterwards and the messages printed. */
  datatype Verification = Verification(verdict: Verdict, dirs: set<string>, notices: seq<Notice>)

  /** `verifyDirectories` as written. */
  function Verify(dirs: set<string>, project: string, mkdirSucceeds: bool): (v: Verification)
    // it never lets the installation go on
    ensures !v.verdict.Truthy()
    // without .git it refuses, creates nothing and says why
    ensures GitDir(project) !in dirs ==> v == Verification(False, dirs, [NoGitDirectory])
    // mkdir is attempted exactly when .git exists and .git/hooks does not
    ensures CreatingHooksDirectory in v.notices <==> GitDir(project) in dirs && HooksDir(project) !in dirs
    // the only directory that can appear is .git/hooks, and only through a successful mkdir
    ensures v.dirs == dirs || (v.dirs == dirs + {HooksDir(project)} && CreatingHooksDirectory in v.notices && mkdirSucceeds)
    ensures HooksDir(project) in v.dirs <==> HooksDir(project) in dirs || (GitDir(project) in dirs && mkdirSucceeds)
    // null comes from the failed mkdir and from falling off the end
    ensures v.verdict == Null <==> GitDir(project) in dirs && (HooksDir(project) in dirs || !mkdirSucceeds)
  {
    if GitDir(project) !in dirs then
      Verification(False, dirs, [NoGitDirectory])
    else if HooksDir(project) !in dirs then
      if !mkdirSucceeds then
        Verification(Null, dirs, [CreatingHooksDirectory, HooksDirectoryFailed])
      else
        Verification(False, dirs + {HooksDir(project)}, [CreatingHooksDirectory])
    else
      Verification(Null, dirs, [])
  }

  /**
   * `verifyDirectories` as its doc comment and its caller read: the
   * directories are "in place" when `.git` and `.git/hooks` both exist
   * already, and only then does it return true. The effects and messages
   * are those of `Verify`; a failed `mkdir` gives false instead of null.
   */
  function IntendedVerify(dirs: set<string>, project: string, mkdirSucceeds: bool): (v: Verification)
    // it lets the installation go on only with both directories in place afterwards
    ensures v.verdict.Truthy() ==> GitDir(project) in v.dirs && HooksDir(project) in v.dirs
    // it goes on exactly when it has nothing to report, and then it changes nothing
    ensures v.verdict.Truthy() <==> v.notices == []
    ensures v.verdict.Truthy() ==> v.dirs == dirs
    ensures v.verdict != Null
  {
    var written := Verify(dirs, project, mkdirSucceeds);
    var inPlace := GitDir(project) in dirs && HooksDir(project) in dirs;
    written.(verdict := if inPlace then True else False)
  }

  /**
   * A run of the corrected check that creates `.git/hooks` refuses, and
   * asks for another run; that second run goes on, whatever its `mkdir`
   * would do, and creates nothing more.
   */
  lemma IntendedVerifyRerunPasses(dirs: set<string>, project: string, mkdirSucceeds: bool)
    requires GitDir(project) in dirs
    ensures var first := IntendedVerify(dirs, project, true);
      var second := IntendedVerify(first.dirs, project, mkdirSucceeds);
      second.verdict == True && second.dirs == first.dirs && second.notices == []
  {
  }

  /**
   * The written and the intended verdicts part exactly when both directories
   * exist: then the installation should go on and, as written, does not.
   */
  lemma VerdictsDisagreeWhenReady(dirs: set<string>, project: string, mkdirSucceeds: bool)
    ensures IntendedVerify(dirs, project, mkdirSucceeds).verdict.Truthy() != Verify(dirs, project, mkdirSucceeds).verdict.Truthy()
        <==> GitDir(project) in dirs && HooksDir(project) in dirs
  {
  }

  /** A concrete repository with both directories in place, on which the two part. */
  lemma ReadyRepositoryIsRefused()
    ensures Verify({"/p/.git", "/p/.git/hooks"}, "/p", true).verdict == Null
    ensures IntendedVerify({"/p/.git", "/p/.git/hooks"}, "/p", true).verdict == True
  {
    assert GitDir("/p") == "/p/.git";
    assert HooksDir("/p") == "/p/.git/hooks";
  }
}
