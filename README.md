# GitHook'd installer, modelled in Dafny

GitHook'd installs a fixed set of Git hook scripts into a project. All of
its logic lives in the class `GitHookd\Setup` (`includes/Setup.php`). This
project models that class over an abstract file system. The file system is
an object holding the working directory, a set of directory paths and a map
from file paths to their bytes. It covers:

- the whitelist of 18 Git hook names and the `filterHooks` test on a path's
  basename (module `Whitelist`, file `whitelist.dfy`);
- the hook copy loop of `copyHooks`. The copy loop is specified by functions
  over the candidate list and the outcome of each `copy` call (module
  `HookCopy`, file `hookcopy.dfy`). It is implemented as a loop in
  `Installer.Setup.CopyHooks`;
- the decision taken by `verifyDirectories`, with the three PHP values it
  can return: `false`, `null` and, never, `true` (module `Directories`, file
  `directories.dfy`);
- the installer object itself. It has a lazily filled `projectDir`, the
  directory check that may create `.git/hooks`, the copy loop, and `install`,
  which returns before any check when the help flag is set (module
  `Installer`, file `setup.dfy`);
- `mkdir` and `copy` as methods of a `FileSystem` class. Each takes its
  outcome as a parameter (module `FileSystems`, file `filesystem.dfy`).

`copyHooks` is modelled as its doc comment describes it (line 101: copy
valid hooks into the project's `.git/hooks`), not as written. The code
departs from that description in three places:

- it globs the hooks directory itself rather than its entries (line 105);
- it passes the callback to `array_filter` before the array (line 109);
- it copies each hook onto the hooks directory rather than into `.git/hooks`
  (line 113).

With any of these the loop does no useful work. The model lists the
directory's files as a given sequence, filters them, and copies each into
`<project>/.git/hooks/<basename>`.

`verifyDirectories` is modelled as written. Its verdict can be `False` or
`Null` but never `True`, so `install` never gets past the check.
`Installer.Setup.Install` proves this. In the source, `install` has nothing
after the check and never calls `copyHooks`; the model keeps both facts.

## Model

| member | source | states |
|---|---|---|
| `Whitelist.TrimTrailingSlashesSpec` | includes/Setup.php:135 | Trimming, as PHP's `basename` does first, keeps a prefix of the path that does not end in `/`, and drops only `/` characters. |
| `Whitelist.Basename` | includes/Setup.php:135 | The basename of a path contains no `/` and is no longer than the path. |
| `Whitelist.BasenameIsLastComponent` | includes/Setup.php:135 | `Basename` returns a suffix of the trimmed path with no `/` in it. That suffix is either the whole trimmed path or is preceded by a `/`, i.e. it is the text after the last `/`. |
| `Whitelist.BasenameUnique` | includes/Setup.php:135 | Only one string fits that description, so any text after the last `/` of the trimmed path is `Basename`'s result. |
| `Whitelist.BasenameOfJoin` | includes/Setup.php:135 | Joining a directory and a non-empty name without `/` gives a path whose basename is that name. |
| `Whitelist.BasenameIgnoresTrailingSlash` | includes/Setup.php:135 | Appending a `/` to a path does not change its basename. |
| `Whitelist.WhitelistShape` | includes/Setup.php:44-63 | The whitelist has exactly 18 entries, all distinct. `pre-commit`, `post-merge` and `push-to-checkout` are among them. |
| `Whitelist.FilterHooks` | includes/Setup.php:133-136 | A path is accepted only if its basename has between 6 and 18 characters, the lengths of the whitelisted names. |
| `Whitelist.FilterHooksJoined` | includes/Setup.php:133-136 | A file in any directory passes the filter if and only if its non-empty name is exactly one of the whitelisted names. |
| `Whitelist.SameBasenameSameVerdict` | includes/Setup.php:135 | Two paths with the same basename get the same verdict. |
| `Whitelist.FilterHooksSameNameTwoDirs` | includes/Setup.php:133-136 | `/a/pre-commit` and `/b/pre-commit` both pass. |
| `Whitelist.FilterHooksRejectsUnknown` | includes/Setup.php:133-136 | A file named `FOOBAR` is rejected. |
| `Whitelist.FilterHooksIsCaseSensitive` | includes/Setup.php:135 | `PRE-COMMIT` is rejected, so the comparison is case-sensitive. |
| `Whitelist.FilterHooksKeepsExtension` | includes/Setup.php:135 | `pre-commit.sample` is rejected, so no extension is stripped. |
| `Whitelist.FilterHooksTrailingSlash` | includes/Setup.php:135 | `/hooks/pre-commit/` is accepted: `basename` ignores the trailing `/`. |
| `HookCopy.Whitelisted` | includes/Setup.php:108-109 | The filtered list is never longer than the candidate list. |
| `HookCopy.WhitelistedMembers` | includes/Setup.php:108-109 | The filtered list contains a path if and only if that path is a candidate that passes `filterHooks`. |
| `HookCopy.WhitelistedConcat` | includes/Setup.php:108-109 | Filtering a concatenation filters each part and keeps them in order, so the filter preserves list order. |
| `HookCopy.WhitelistedOccurrences` | includes/Setup.php:108-111 | Each whitelisted candidate appears in the filtered list as often as among the candidates, and each other path appears zero times. So every whitelisted candidate is attempted once per occurrence and nothing else is attempted. |
| `HookCopy.CopiedCount` | includes/Setup.php:106-124 | The number of successful copies is at most the number of attempts. |
| `HookCopy.FullCountIffAllCopied` | includes/Setup.php:106-124 | The number of successful copies equals the number of attempts if and only if every copy succeeded. |
| `HookCopy.SourceCount` | includes/Setup.php:112-115 | The count as written counts every copy that did not throw. It is at least the number of successful copies and at most the number of attempts. |
| `HookCopy.SourceCountOvercounts` | includes/Setup.php:112-114 | One copy that returns false counts 1 as written, while 0 copies were made. |
| `HookCopy.SourceCountExactWithoutRefusals` | includes/Setup.php:112-114 | The count as written equals the number of copies made if and only if no `copy` call returned false. |
| `HookCopy.CopyErrorNamesHook` | includes/Setup.php:116-120 | The report of a copy that threw names the hook: with the same exception message, two reports are equal only for hooks with the same basename. |
| `HookCopy.CopyErrors` | includes/Setup.php:115-121 | There are never more reports than attempts. |
| `HookCopy.CountedOrReported` | includes/Setup.php:112-121 | Each attempt is either counted (as written) or reported, never both. The counted attempts plus the reported messages make up the number of attempts. |
| `HookCopy.TargetKeepsName` | includes/Setup.php:113 | The copy of a hook is written under the hook's own name. |
| `HookCopy.ApplyCopiesFrame` | includes/Setup.php:111-122 | When the source of every successful copy exists, the files afterwards are the old ones plus the targets of the successful copies. Every other file keeps its bytes. |
| `HookCopy.ApplyCopiesContents` | includes/Setup.php:111-114 | After the copies, the target `<dest>/<basename>` of a successful copy exists and holds exactly the bytes its source hook had before copying began. This holds unless a later successful copy has the same target, or a successful copy writes over one of the hooks. |
| `HookCopy.ApplyCopiesUntargeted` | includes/Setup.php:111-122 | A file that is not the target of any successful copy is still present after the copies and keeps its bytes. |
| `HookCopy.ApplyCopiesKeepsFiles` | includes/Setup.php:111-122 | Copying never removes a file. |
| `HookCopy.OnlyWhitelistedNamesWritten` | includes/Setup.php:108-113 | Every file that copying writes is `<dest>/<name>` with `name` a whitelisted hook name. |
| `FileSystems.FileSystem.constructor` | includes/Setup.php:164-172 | A new file system holds exactly the given working directory, directories and files: the state that `getcwd`, `is_dir`, `mkdir` and `copy` consult. |
| `FileSystems.FileSystem.Mkdir` | includes/Setup.php:172 | `mkdir` adds exactly its path to the directories when it succeeds, and changes nothing otherwise. |
| `FileSystems.FileSystem.Copy` | includes/Setup.php:113 | A successful `copy` overwrites the target with the source's bytes; it can succeed only when the source is a file. A failed one changes nothing. |
| `Directories.Verify` | includes/Setup.php:164-180 | The verdict is never truthy. Without `.git` it is `false`, with no directory created and the missing-`.git` message. `mkdir` is attempted if and only if `.git` exists and `.git/hooks` does not. The only directory that can appear is `.git/hooks`, through a successful `mkdir`. The verdict is `null` exactly after a failed `mkdir` or when both directories exist. |
| `Directories.IntendedVerify` | includes/Setup.php:160-180 | The corrected check goes on only with `.git` and `.git/hooks` both in place afterwards. It goes on exactly when it has nothing to report, and then it has created nothing. It never gives `null`. |
| `Directories.IntendedVerifyRerunPasses` | includes/Setup.php:168-178 | When `.git` exists, a run of the corrected check whose `mkdir` succeeds is followed by a second run that goes on, reports nothing and creates nothing. |
| `Directories.VerdictsDisagreeWhenReady` | includes/Setup.php:164-180 | The written and corrected verdicts differ if and only if both directories exist. |
| `Directories.ReadyRepositoryIsRefused` | includes/Setup.php:176-180 | For a project `/p` with `.git` and `.git/hooks`, the check as written returns `null`; the corrected check returns `true`. |
| `Installer.Setup.constructor` | includes/Setup.php:17-22 | A new installer has its hooks directory set and no cached project directory. |
| `Installer.Setup.GetProjectDir` | includes/Setup.php:72-79 | The field is set only while it is null, to the working directory. The call returns the cached value, unchanged on later calls. |
| `Installer.Setup.VerifyDirectories` | includes/Setup.php:164-180 | The verdict, the directories afterwards and the messages are those of `Directories.Verify`. Files and the working directory are unchanged. |
| `Installer.Setup.CopyHooks` | includes/Setup.php:103-125 | The filtered candidates are attempted in order. The count returned is the number of successful copies. The messages are one per copy that threw. The files are as `HookCopy.ApplyCopies` gives them, under the project's `.git/hooks`. Directories and the working directory are unchanged. |
| `Installer.Setup.Install` | includes/Setup.php:84-98 | With the help flag, it returns at once: no directory check, no change to the file system or the cache. Otherwise it fills the cache, the directories and messages are those of the check, files and the working directory are unchanged, and it halts: the run never passes the check. |
| `Installer.ProjectDirIsWorkingDirectory` | tests/PHPUnit/SetupTest.php:15-20 | A fresh installer's project directory is the working directory. |
| `Installer.ProjectDirIsCached` | includes/Setup.php:74-78 | A second call returns the first call's value, even if the working directory differs by then. |

## Findings

| source | as written | input that shows it | evidently intended | confidence | as-written member | corrected member |
|---|---|---|---|---|---|---|
| includes/Setup.php:112-114 | `$count++` follows `copy(...)` in the `try`, so a `copy` that returns false is counted. PHP's `copy` signals failure that way, not by throwing. | One whitelisted hook whose `copy` returns false: the count is 1 but no file was copied. As written, every copy targets a directory and fails this way. | Count only the copies that succeeded. | not executed; medium | `HookCopy.SourceCountOvercounts` | `HookCopy.CopiedCount` |
| includes/Setup.php:164-180 | No path returns true. A missing `.git` and a freshly created `.git/hooks` give false, a failed `mkdir` gives null, and two existing directories fall off the end, giving null. | Project `/p` with `/p/.git` and `/p/.git/hooks`: the check returns null and `install` stops. | Return true when both directories are in place. | not executed; high | `Directories.ReadyRepositoryIsRefused` | `Directories.IntendedVerify` |

`Installer.Setup.CopyHooks` uses the corrected count. `Installer.Setup.Install`
keeps the check as written, so that "never gets past the check" is stated of
the code as it is. In the source nothing follows that check in `install`, so
the corrected verdict would change only which way `install` ends.

## Left out

- Command-line parsing and the help screen (`registerArgs`, the `flags` and `options` fields, `getHelpScreen`) belong to an external argument library. The parsed `help` flag is a boolean parameter of `Install`.
- Console output: `echo` of the help screen is not modelled. The messages of `verifyDirectories` are `Notice` values. The messages of `copyHooks` are strings with the source's wording.
- `getcwd`, `glob`, `copy` and `mkdir` are not modelled by their operating-system semantics. The working directory is a field of `FileSystem`. The directory listing is a sequence parameter, in the order the listing gives. The outcome of each `mkdir` and `copy` call is a parameter. A `getcwd` that fails and returns false is not modelled.
- `Installer.Setup.CopyHooks`: requires only that the source of each copy whose outcome is a success exists, since `copy` cannot succeed otherwise. It does not require the candidates to lie in `hooksDir`; they stand for whatever the directory listing returns, and nothing about the copies depends on where they lie.
- `Whitelist.Basename`: models PHP's `basename` as "strip trailing `/`, then take the text after the last `/`". Its dependence on the locale for multibyte paths is not modelled; it does not matter for the hook names.
- `Whitelist.FilterHooks`: `in_array` compares loosely. This equals exact comparison here, because no whitelisted name is a numeric string.
- `Installer.Setup.CopyHooks`: follows the documented intent, not the code on three points. These are the glob of the directory itself, the swapped `array_filter` arguments and the hooks directory as the copy target. The code as written does no useful copying, and the model does not reproduce that.
- Merging post-install/post-update commands into `composer.json` is not part of `includes/Setup.php` and is not modelled.
- The PHPUnit bootstrap and the mock setup of the tests contain no logic and are not modelled.
