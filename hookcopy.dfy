/**
 * What copying the bundled hooks does, as functions of the candidate list and
 * of the outcome of each `copy` call (includes/Setup.php, `copyHooks`).
 *
 * `copyHooks` filters the candidates with `filterHooks`, then calls `copy`
 * once per surviving hook, in list order, and counts the copies. The outcome
 * of the k-th call is `outcomes[k]`.
 */
module HookCopy {
  import opened Whitelist
  import opened FileSystems

  /** The candidates the whitelist filter keeps, in their original order. */
  function Whitelisted(candidates: seq<string>): (hooks: seq<string>)
    ensures |hooks| <= |candidates|
  {
    if candidates == [] then []
    else
      var front, last := candidates[..|candidates| - 1], candidates[|candidates| - 1];
      if FilterHooks(last) then Whitelisted(front) + [last] else Whitelisted(front)
  }

  /** The filter keeps exactly the candidates that pass `FilterHooks`. */
  lemma {:induction false} WhitelistedMembers(candidates: seq<string>)
    ensures forall h :: h in Whitelisted(candidates) <==> h in candidates && FilterHooks(h)
    decreases |candidates|
  {
    if candidates != [] {
      var front, last := candidates[..|candidates| - 1], candidates[|candidates| - 1];
      assert candidates == front + [last];
      WhitelistedMembers(front);
    }
  }

  /** Filtering a concatenation filters each part and keeps them in order. */
  lemma {:induction false} WhitelistedConcat(a: seq<string>, b: seq<string>)
    ensures Whitelisted(a + b) == Whitelisted(a) + Whitelisted(b)
    decreases |b|
  {
    if b == [] {
      assert a + b == a;
    } else {
      var front, last := b[..|b| - 1], b[|b| - 1];
      assert a + b == (a + front) + [last];
      assert b == front + [last];
      WhitelistedConcat(a, front);
    }
  }

  /** Each whitelisted candidate is kept as often as it occurs; every other one is dropped. */
  lemma {:induction false} WhitelistedOccurrences(candidates: seq<string>, x: string)
    ensures multiset(Whitelisted(candidates))[x] == if FilterHooks(x) then multiset(candidates)[x] else 0
    decreases |candidates|
  {
    if candidates != [] {
      var front, last := candidates[..|candidates| - 1], candidates[|candidates| - 1];
      assert candidates == front + [last];
      WhitelistedOccurrences(front, x);
    }
  }

  /** The number of `copy` calls that succeeded. */
  function CopiedCount(outcomes: seq<CopyOutcome>): (n: nat)
    ensures n <= |outcomes|
  {
    if outcomes == [] then 0
    else CopiedCount(outcomes[..|outcomes| - 1]) + if outcomes[|outcomes| - 1] == Copied then 1 else 0
  }

  /** Every attempt is counted exactly when every copy succeeded. */
  lemma {:induction false} FullCountIffAllCopied(outcomes: seq<CopyOutcome>)
    ensures CopiedCount(outcomes) == |outcomes| <==> forall k :: 0 <= k < |outcomes| ==> outcomes[k] == Copied
    decreases |outcomes|
  {
    if outcomes != [] {
      var front := outcomes[..|outcomes| - 1];
      assert forall k :: 0 <= k < |front| ==> front[k] == outcomes[k];
      FullCountIffAllCopied(front);
    }
  }

  /**
   * The count as the source computes it: `$count++` follows `copy(...)` inside
   * the `try`, so every call that does not throw is counted, including one
   * that returned false.
   */
  function SourceCount(outcomes: seq<CopyOutcome>): (n: nat)
    ensures CopiedCount(outcomes) <= n <= |outcomes|
  {
    if outcomes == [] then 0
    else
      var front := outcomes[..|outcomes| - 1];
      SourceCount(front) + if outcomes[|outcomes| - 1].Raised? then 0 else 1
  }

  /** A single failed copy is enough for the source's count to exceed the copies made. */
  lemma SourceCountOvercounts()
    ensures SourceCount([Refused]) == 1 && CopiedCount([Refused]) == 0
  {
  }

  /** The two counts agree exactly when no `copy` call returned false. */
  lemma {:induction false} SourceCountExactWithoutRefusals(outcomes: seq<CopyOutcome>)
    ensures SourceCount(outcomes) == CopiedCount(outcomes) <==> Refused !in outcomes
    decreases |outcomes|
  {
    if outcomes != [] {
      var front := outcomes[..|outcomes| - 1];
      assert outcomes == front + [outcomes[|outcomes| - 1]];
      SourceCountExactWithoutRefusals(front);
    }
  }

  /** The message reported for a copy that threw. */
  function CopyError(hook: string, message: string): string {
    "Unable to copy " + Basename(hook) + " hook: " + message
  }

  /** With the same exception message, two reports are equal only for hooks of the same name: the report names the hook. */
  lemma CopyErrorNamesHook(hook1: string, hook2: string, message: string)
    requires CopyError(hook1, message) == CopyError(hook2, message)
    ensures Basename(hook1) == Basename(hook2)
  {
    var e1, e2 := CopyError(hook1, message), CopyError(hook2, message);
    var n := |"Unable to copy "|;
    assert |Basename(hook1)| == |Basename(hook2)|;
    assert e1[n..n + |Basename(hook1)|] == Basename(hook1);
    assert e2[n..n + |Basename(hook2)|] == Basename(hook2);
  }

  /** The messages reported while copying, one per `copy` call that threw, in order. */
  function CopyErrors(hooks: seq<string>, outcomes: seq<CopyOutcome>): (errs: seq<string>)
    requires |hooks| == |outcomes|
    ensures |errs| <= |outcomes|
  {
    if outcomes == [] then []
    else
      var n := |outcomes| - 1;
      var earlier := CopyErrors(hooks[..n], outcomes[..n]);
      match outcomes[n]
      case Raised(message) => earlier + [CopyError(hooks[n], message)]
      case _ => earlier
  }

  /**
   * As written, each attempt is either counted or reported, never both:
   * the count and the messages together make up the attempts.
   */
  lemma {:induction false} CountedOrReported(hooks: seq<string>, outcomes: seq<CopyOutcome>)
    requires |hooks| == |outcomes|
    ensures SourceCount(outcomes) + |CopyErrors(hooks, outcomes)| == |outcomes|
    decreases |outcomes|
  {
    if outcomes != [] {
      var n := |outcomes| - 1;
      CountedOrReported(hooks[..n], outcomes[..n]);
    }
  }

  /** One more copy: the count and the messages after the first `i + 1` copies, from those after the first `i`. */
  lemma TalliesStep(hooks: seq<string>, outcomes: seq<CopyOutcome>, i: nat)
    requires |hooks| == |outcomes| && i < |hooks|
    ensures CopiedCount(outcomes[..i + 1]) == CopiedCount(outcomes[..i]) + if outcomes[i] == Copied then 1 else 0
    ensures CopyErrors(hooks[..i + 1], outcomes[..i + 1]) ==
      if outcomes[i].Raised? then CopyErrors(hooks[..i], outcomes[..i]) + [CopyError(hooks[i], outcomes[i].message)]
      else CopyErrors(hooks[..i], outcomes[..i])
  {
    assert hooks[..i + 1][..i] == hooks[..i];
    assert outcomes[..i + 1][..i] == outcomes[..i];
  }

  /** Where a hook is copied to: the file of the same name in `dest`. */
  function Target(dest: string, hook: string): string {
    dest + "/" + Basename(hook)
  }

  /** The copy lands in `dest` and keeps the hook's name. */
  lemma TargetKeepsName(dest: string, hook: string)
    requires Basename(hook) != []
    ensures Basename(Target(dest, hook)) == Basename(hook)
  {
    BasenameOfJoin(dest, Basename(hook));
  }

  /** Every hook whose copy succeeds exists when the copying starts. */
  predicate SourcesExist(files: map<string, Bytes>, hooks: seq<string>, outcomes: seq<CopyOutcome>)
    requires |hooks| == |outcomes|
  {
    forall k :: 0 <= k < |hooks| && outcomes[k] == Copied ==> hooks[k] in files
  }

  /** The targets written by the successful copies. */
  function Written(dest: string, hooks: seq<string>, outcomes: seq<CopyOutcome>): set<string>
    requires |hooks| == |outcomes|
  {
    set k | 0 <= k < |hooks| && outcomes[k] == Copied :: Target(dest, hooks[k])
  }

  /** The targets written by the first `n + 1` copies: those of the first `n`, and the last one's if it succeeded. */
  lemma WrittenStep(dest: string, hooks: seq<string>, outcomes: seq<CopyOutcome>)
    requires |hooks| == |outcomes| > 0
    ensures var n := |hooks| - 1;
      Written(dest, hooks, outcomes) ==
        Written(dest, hooks[..n], outcomes[..n]) + if outcomes[n] == Copied then {Target(dest, hooks[n])} else {}
  {
    var n := |hooks| - 1;
    var now, earlier := Written(dest, hooks, outcomes), Written(dest, hooks[..n], outcomes[..n]);
    forall t | t in earlier
      ensures t in now
    {
      var k :| 0 <= k < n && outcomes[..n][k] == Copied && t == Target(dest, hooks[..n][k]);
      assert outcomes[k] == Copied && t == Target(dest, hooks[k]);
    }
    forall t | t in now
      ensures t in earlier || (outcomes[n] == Copied && t == Target(dest, hooks[n]))
    {
      var k :| 0 <= k < |hooks| && outcomes[k] == Copied && t == Target(dest, hooks[k]);
      if k < n {
        assert outcomes[..n][k] == Copied && t == Target(dest, hooks[..n][k]);
      }
    }
  }

  /**
   * The files after copying `hooks` into `dest` in order: each successful
   * copy overwrites its target with the current bytes of its source. A
   * source that does not exist is left alone; a `copy` of a missing file
   * cannot succeed, so under `SourcesExist` this case does not arise.
   */
  function ApplyCopies(files: map<string, Bytes>, hooks: seq<string>, outcomes: seq<CopyOutcome>, dest: string): map<string, Bytes>
    requires |hooks| == |outcomes|
  {
    if hooks == [] then files
    else
      var n := |hooks| - 1;
      var before := ApplyCopies(files, hooks[..n], outcomes[..n], dest);
      if outcomes[n] == Copied && hooks[n] in before then before[Target(dest, hooks[n]) := before[hooks[n]]] else before
  }

  /**
   * When the source of every successful copy exists, copying adds exactly
   * the targets of the successful copies to the files, and every other file
   * keeps its bytes.
   */
  lemma {:induction false} ApplyCopiesFrame(files: map<string, Bytes>, hooks: seq<string>, outcomes: seq<CopyOutcome>, dest: string)
    requires |hooks| == |outcomes|
    requires SourcesExist(files, hooks, outcomes)
    ensures ApplyCopies(files, hooks, outcomes, dest).Keys == files.Keys + Written(dest, hooks, outcomes)
    ensures forall f :: f in files && f !in Written(dest, hooks, outcomes) ==> ApplyCopies(files, hooks, outcomes, dest)[f] == files[f]
    decreases |hooks|
  {
    if hooks != [] {
      var n := |hooks| - 1;
      assert SourcesExist(files, hooks[..n], outcomes[..n]) by {
        forall k | 0 <= k < n && outcomes[..n][k] == Copied
          ensures hooks[..n][k] in files
        {
          assert outcomes[k] == Copied;
        }
      }
      ApplyCopiesFrame(files, hooks[..n], outcomes[..n], dest);
      WrittenStep(dest, hooks, outcomes);
    }
  }

  /**
   * One more copy: the files after the first `i + 1` copies, from those after
   * the first `i`. The source of the `i`-th copy, when it succeeds, is still there.
   */
  lemma ApplyCopiesStep(files: map<string, Bytes>, hooks: seq<string>, outcomes: seq<CopyOutcome>, dest: string, i: nat)
    requires |hooks| == |outcomes| && i < |hooks|
    requires SourcesExist(files, hooks, outcomes)
    ensures var before := ApplyCopies(files, hooks[..i], outcomes[..i], dest);
      && (outcomes[i] == Copied ==> hooks[i] in before)
      && ApplyCopies(files, hooks[..i + 1], outcomes[..i + 1], dest) ==
           if outcomes[i] == Copied then before[Target(dest, hooks[i]) := before[hooks[i]]] else before
  {
    ApplyCopiesKeepsFiles(files, hooks[..i], outcomes[..i], dest);
    assert hooks[..i + 1][..i] == hooks[..i];
    assert outcomes[..i + 1][..i] == outcomes[..i];
  }

  /** Copying never removes a file. */
  lemma {:induction false} ApplyCopiesKeepsFiles(files: map<string, Bytes>, hooks: seq<string>, outcomes: seq<CopyOutcome>, dest: string)
    requires |hooks| == |outcomes|
    ensures files.Keys <= ApplyCopies(files, hooks, outcomes, dest).Keys
    decreases |hooks|
  {
    if hooks != [] {
      var n := |hooks| - 1;
      ApplyCopiesKeepsFiles(files, hooks[..n], outcomes[..n], dest);
    }
  }

  /** A file that no successful copy targets keeps its bytes. */
  lemma {:induction false} ApplyCopiesUntargeted(files: map<string, Bytes>, hooks: seq<string>, outcomes: seq<CopyOutcome>, dest: string, f: string)
    requires |hooks| == |outcomes| && f in files
    requires forall j :: 0 <= j < |hooks| && outcomes[j] == Copied ==> Target(dest, hooks[j]) != f
    ensures f in ApplyCopies(files, hooks, outcomes, dest)
    ensures ApplyCopies(files, hooks, outcomes, dest)[f] == files[f]
    decreases |hooks|
  {
    if hooks != [] {
      var n := |hooks| - 1;
      ApplyCopiesUntargeted(files, hooks[..n], outcomes[..n], dest, f);
    }
  }

  /**
   * The bytes a copied hook ends up with: a successful copy leaves its target
   * holding the bytes its source had before the copying started, provided no
   * later successful copy has the same target and no successful copy writes
   * over one of the hooks.
   */
  lemma {:induction false} ApplyCopiesContents(files: map<string, Bytes>, hooks: seq<string>, outcomes: seq<CopyOutcome>, dest: string, k: nat)
    requires |hooks| == |outcomes| && k < |hooks|
    requires outcomes[k] == Copied && hooks[k] in files
    requires forall j :: k < j < |hooks| && outcomes[j] == Copied ==> Target(dest, hooks[j]) != Target(dest, hooks[k])
    requires forall i, j :: 0 <= i < |hooks| && 0 <= j < |hooks| && outcomes[i] == Copied ==> Target(dest, hooks[i]) != hooks[j]
    ensures Target(dest, hooks[k]) in ApplyCopies(files, hooks, outcomes, dest)
    ensures ApplyCopies(files, hooks, outcomes, dest)[Target(dest, hooks[k])] == files[hooks[k]]
    decreases |hooks|
  {
    var n := |hooks| - 1;
    if n == k {
      ApplyCopiesUntargeted(files, hooks[..n], outcomes[..n], dest, hooks[k]);
    } else {
      ApplyCopiesContents(files, hooks[..n], outcomes[..n], dest, k);
    }
  }

  /**
   * Copying the whitelisted candidates writes only files named after a
   * whitelisted hook inside `dest`.
   */
  lemma OnlyWhitelistedNamesWritten(candidates: seq<string>, outcomes: seq<CopyOutcome>, dest: string)
    requires |outcomes| == |Whitelisted(candidates)|
    ensures forall t :: t in Written(dest, Whitelisted(candidates), outcomes) ==>
      exists name :: name in WhitelistedHooks && t == dest + "/" + name
  {
    var hooks := Whitelisted(candidates);
    WhitelistedMembers(candidates);
    forall t | t in Written(dest, hooks, outcomes)
      ensures exists name :: name in WhitelistedHooks && t == dest + "/" + name
    {
      var k :| 0 <= k < |hooks| && outcomes[k] == Copied && t == Target(dest, hooks[k]);
      assert hooks[k] in hooks;
      assert FilterHooks(hooks[k]);
    }
  }
}
