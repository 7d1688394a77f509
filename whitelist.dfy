/**
 * The hook-name whitelist of the installer and the filter that applies it
 * to file paths (includes/Setup.php, `whitelistedHooks` and `filterHooks`).
 *
 * Paths are plain strings; `Basename` is "the text after the last `/`, once
 * trailing slashes are removed".
 */
module Whitelist {

  /** The 18 Git hook names the installer accepts, in declaration order. */
  const WhitelistedHooks: seq<string> := [
    "applypatch-msg",
    "pre-applypatch",
    "post-applypatch",
    "pre-commit",
    "prepare-commit-msg",
    "commit-msg",
    "post-commit",
    "pre-rebase",
    "post-checkout",
    "post-merge",
    "pre-push",
    "pre-receive",
    "update",
    "post-receive",
    "post-update",
    "push-to-checkout",
    "pre-auto-gc",
    "post-rewrite"
  ]

  /** `b` is a suffix of `p`. */
  predicate IsSuffix(b: string, p: string) {
    |b| <= |p| && p[|p| - |b|..] == b
  }

  /**
   * `b` is what follows the last `/` of `p`: a suffix of `p` holding no `/`,
   * which is either all of `p` or is preceded by a `/`.
   */
  predicate IsBasenameOf(b: string, p: string) {
    && IsSuffix(b, p)
    && '/' !in b
    && (|b| < |p| ==> p[|p| - |b| - 1] == '/')
  }

  /**
   * `p` with every trailing `/` removed, as PHP's `basename` does before it
   * looks for the last component.
   */
  function TrimTrailingSlashes(p: string): (r: string)
    ensures |r| <= |p|
    decreases |p|
  {
    if p != [] && p[|p| - 1] == '/' then TrimTrailingSlashes(p[..|p| - 1]) else p
  }

  /** Trimming keeps a prefix that does not end in `/` and drops only `/` characters. */
  lemma {:induction false} TrimTrailingSlashesSpec(p: string)
    ensures var r := TrimTrailingSlashes(p);
      && r == p[..|r|]
      && (r == [] || r[|r| - 1] != '/')
      && forall i :: |r| <= i < |p| ==> p[i] == '/'
    decreases |p|
  {
    if p != [] && p[|p| - 1] == '/' {
      var front := p[..|p| - 1];
      TrimTrailingSlashesSpec(front);
      var r := TrimTrailingSlashes(front);
      assert r == p[..|r|];
      assert forall i :: |r| <= i < |front| ==> p[i] == front[i];
    }
  }

  /** The text after the last `/` of a path, or the whole path when it has none. */
  function LastComponent(p: string): (c: string)
    ensures '/' !in c && |c| <= |p|
    decreases |p|
  {
    if p == [] then []
    else if p[|p| - 1] == '/' then []
    else LastComponent(p[..|p| - 1]) + [p[|p| - 1]]
  }

  /** `LastComponent` yields the text after the last `/`. */
  lemma {:induction false} LastComponentIsBasenameOf(p: string)
    ensures IsBasenameOf(LastComponent(p), p)
    decreases |p|
  {
    if p != [] && p[|p| - 1] != '/' {
      var front, last := p[..|p| - 1], p[|p| - 1];
      LastComponentIsBasenameOf(front);
      var c := LastComponent(front);
      assert LastComponent(p) == c + [last];
      assert p[|p| - |c| - 1..] == front[|front| - |c|..] + [last];
      assert |c| < |front| ==> p[|p| - |c| - 2] == front[|front| - |c| - 1];
    }
  }

  /** PHP's `basename`: the last component of the path once its trailing slashes are gone. */
  function Basename(p: string): (b: string)
    ensures '/' !in b && |b| <= |p|
  {
    LastComponent(TrimTrailingSlashes(p))
  }

  /** `Basename` yields the text after the last `/` of the path with its trailing slashes trimmed. */
  lemma BasenameIsLastComponent(p: string)
    ensures IsBasenameOf(Basename(p), TrimTrailingSlashes(p))
  {
    LastComponentIsBasenameOf(TrimTrailingSlashes(p));
  }

  /** There is only one text after the last `/`: `IsBasenameOf` pins `Basename` down. */
  lemma BasenameUnique(p: string, b: string)
    requires IsBasenameOf(b, TrimTrailingSlashes(p))
    ensures Basename(p) == b
  {
    var c := Basename(p);
    BasenameIsLastComponent(p);
    if |c| < |b| {
      assert false;
    } else if |b| < |c| {
      assert false;
    }
  }

  /** A path joining a directory and a non-empty plain file name has that name as its basename. */
  lemma BasenameOfJoin(dir: string, name: string)
    requires '/' !in name && name != []
    ensures Basename(dir + "/" + name) == name
  {
    var p := dir + "/" + name;
    assert p[|p| - 1] == name[|name| - 1];
    assert TrimTrailingSlashes(p) == p;
    assert p[|p| - |name|..] == name;
    assert p[|p| - |name| - 1] == '/';
    BasenameUnique(p, name);
  }

  /** A trailing `/` does not change the basename. */
  lemma BasenameIgnoresTrailingSlash(p: string)
    ensures Basename(p + "/") == Basename(p)
  {
    var q := p + "/";
    assert q[..|q| - 1] == p;
  }

  /** The filter the installer applies to candidate hook files. */
  function FilterHooks(hook: string): (accepted: bool)
    // every whitelisted name has between 6 and 18 characters
    ensures accepted ==> 6 <= |Basename(hook)| <= 18
  {
    Basename(hook) in WhitelistedHooks
  }

  /** The whitelist holds 18 distinct names. */
  lemma WhitelistShape()
    ensures |WhitelistedHooks| == 18
    ensures forall i, j :: 0 <= i < j < |WhitelistedHooks| ==> WhitelistedHooks[i] != WhitelistedHooks[j]
    ensures "pre-commit" in WhitelistedHooks && "post-merge" in WhitelistedHooks
    ensures "push-to-checkout" in WhitelistedHooks
  {
  }

  /**
   * A file in any directory is accepted exactly when its plain name is one of
   * the whitelisted names, compared character by character.
   */
  lemma FilterHooksJoined(dir: string, name: string)
    requires '/' !in name && name != []
    ensures FilterHooks(dir + "/" + name) <==> name in WhitelistedHooks
  {
    BasenameOfJoin(dir, name);
  }

  /** The verdict depends on the basename only. */
  lemma SameBasenameSameVerdict(p: string, q: string)
    requires Basename(p) == Basename(q)
    ensures FilterHooks(p) == FilterHooks(q)
  {
  }

  /** The same hook name in two different directories is accepted both times. */
  lemma FilterHooksSameNameTwoDirs()
    ensures FilterHooks("/a/pre-commit") && FilterHooks("/b/pre-commit")
  {
    assert "/a/pre-commit" == "/a" + "/" + "pre-commit";
    assert "/b/pre-commit" == "/b" + "/" + "pre-commit";
    assert WhitelistedHooks[3] == "pre-commit";
    FilterHooksJoined("/a", "pre-commit");
    FilterHooksJoined("/b", "pre-commit");
  }

  /** A name outside the list is rejected. */
  lemma FilterHooksRejectsUnknown()
    ensures !FilterHooks("/hooks/FOOBAR")
  {
    assert "/hooks/FOOBAR" == "/hooks" + "/" + "FOOBAR";
    FilterHooksJoined("/hooks", "FOOBAR");
  }

  /** The comparison is case-sensitive. */
  lemma FilterHooksIsCaseSensitive()
    ensures !FilterHooks("/hooks/PRE-COMMIT")
  {
    assert "/hooks/PRE-COMMIT" == "/hooks" + "/" + "PRE-COMMIT";
    assert forall k :: 0 <= k < |WhitelistedHooks| ==> WhitelistedHooks[k][0] != 'P';
    FilterHooksJoined("/hooks", "PRE-COMMIT");
  }

  /** No extension is stripped before the comparison. */
  lemma FilterHooksKeepsExtension()
    ensures !FilterHooks("/hooks/pre-commit.sample")
  {
    assert "/hooks/pre-commit.sample" == "/hooks" + "/" + "pre-commit.sample";
    assert "pre-commit.sample" !in WhitelistedHooks;
    FilterHooksJoined("/hooks", "pre-commit.sample");
  }

  /** A trailing `/` is ignored, as by PHP's `basename`: the hook is still accepted. */
  lemma FilterHooksTrailingSlash()
    ensures FilterHooks("/hooks/pre-commit/")
  {
    assert "/hooks/pre-commit/" == "/hooks/pre-commit" + "/";
    assert "/hooks/pre-commit" == "/hooks" + "/" + "pre-commit";
    assert WhitelistedHooks[3] == "pre-commit";
    BasenameIgnoresTrailingSlash("/hooks/pre-commit");
    FilterHooksJoined("/hooks", "pre-commit");
  }
}
