/** `switchTo`, `commitSwitched` and `switchProcess`: restoring the working
    directory to a branch or commit. */
module Checkout {
  import opened Wrappers
  import opened Model
  import opened StatusView
  import opened History

  /** `commitSwitched`'s lookup: a branch name stands for its commit, any
      other name for itself. */
  function Resolve(r: Repo, name: string): string
  {
    if name in r.branches then r.branches[name].commitName else name
  }

  /** The directory entries `writeFile` produces for snapshots written at `now`. */
  function Written(files: map<Path, CommitFile>, now: Time): (wd: WorkDir)
    ensures wd.Keys == files.Keys
    ensures forall p :: p in wd ==> wd[p] == FileEntry(now, files[p].content)
  {
    map p | p in files :: FileEntry(now, files[p].content)
  }

  datatype Switch = Switch(repo: Repo, wd: WorkDir, msg: Msg)

  /** The directory a completed switch leaves: the tracked files are gone,
      the ignored ones stay unless restored, and every restored path holds
      the restored snapshot's lines, written at `now`. */
  ghost predicate SwitchedDirectory(wd: WorkDir, wd': WorkDir, tracked: set<Path>,
                                    restored: map<Path, CommitFile>, now: Time)
  {
    && (forall p :: p in wd' <==> (p in wd && p !in tracked) || p in restored)
    && (forall p :: p in restored ==> wd'[p] == FileEntry(now, restored[p].content))
    && (forall p :: p in wd && p !in tracked && p !in restored ==> wd'[p] == wd[p])
  }

  /** Whether the switch target is what head already addresses. */
  predicate SameAsHead(r: Repo, name: string)
    requires Valid(r) && r.head.Some?
  {
    r.head.value == name || Resolve(r, name) == HeadCommit(r)
  }

  /** `switchTo`: an unknown name is the source's IllegalArgumentException;
      the current position is reported as such; a directory with any file
      not committed is refused; all three change nothing. Otherwise the
      tracked files are deleted, the target's chain is restored, head moves
      to the name and the last-commit time to `now`. */
  function SwitchTo(r: Repo, wd: WorkDir, m: Matcher, name: string, now: Time): (res: Result<Switch, Fault>)
    requires Valid(r)
    ensures res.Failure? <==> name !in r.branches && name !in r.commits
    ensures res.Failure? ==> res.error == UnknownCommit(name)
    ensures res.Success? ==> r.head.Some?
    ensures res.Success? ==> (res.value.msg == SameAsCurrent <==> SameAsHead(r, name))
    ensures res.Success? ==> (res.value.msg == DirectoryNoCommitted <==> !SameAsHead(r, name) && !Clean(r, wd, m))
    ensures res.Success? ==> (res.value.msg == Switched <==> !SameAsHead(r, name) && Clean(r, wd, m))
    ensures res.Success? && res.value.msg != Switched ==> res.value.repo == r && res.value.wd == wd
    ensures res.Success? && res.value.msg == Switched ==>
      && res.value.repo == r.(head := Some(name), lastCommitTimestamp := now)
      && SwitchedDirectory(wd, res.value.wd, Tracked(wd, m, r.ignoreExpressions),
                           Restored(r.commits, Resolve(r, name)), now)
    ensures res.Success? ==> Valid(res.value.repo)
  {
    var target := Resolve(r, name);
    if target !in r.commits then Failure(UnknownCommit(target))
    else if SameAsHead(r, name) then Success(Switch(r, wd, SameAsCurrent))
    else if !Clean(r, wd, m) then Success(Switch(r, wd, DirectoryNoCommitted))
    else
      var kept := wd - Tracked(wd, m, r.ignoreExpressions);
      Success(Switch(r.(head := Some(name), lastCommitTimestamp := now),
                     kept + Written(Restored(r.commits, target), now), Switched))
  }

  /** `switchProcess`, as the source's loop: from the target along parent
      links, write each captured path the first time it is met and remember
      it. The files of one commit are written as one batch; their paths are
      distinct, so the order inside a commit does not matter. */
  method SwitchProcess(commits: map<string, Commit>, target: string, wd: WorkDir, now: Time)
    returns (out: WorkDir)
    requires CommitsWellFormed(commits) && target in commits
    ensures out == wd + Written(Restored(commits, target), now)
  {
    out := wd;
    var restoredFiles: set<Path> := {};
    ghost var visited: seq<string> := [];
    var cur: Option<string> := Some(target);
    while cur.Some?
      invariant forall i :: 0 <= i < |visited| ==> visited[i] in commits
      invariant cur.Some? ==> cur.value in commits && visited + Chain(commits, cur.value) == Chain(commits, target)
      invariant cur.None? ==> visited == Chain(commits, target)
      invariant restoredFiles == FirstWins(commits, visited).Keys
      invariant out == wd + Written(FirstWins(commits, visited), now)
      decreases if cur.Some? && cur.value in commits then commits[cur.value].seqNo + 1 else 0
    {
      var name := cur.value;
      var c := commits[name];
      var unseen := map p | p in c.commitFiles && p !in restoredFiles :: c.commitFiles[p];
      WalkStep(commits, visited, name, wd, out, now);
      WalkAdvance(commits, target, visited, name);
      out := out + Written(unseen, now);
      restoredFiles := restoredFiles + c.commitFiles.Keys;
      visited := visited + [name];
      cur := c.prev;
    }
  }

  /** One iteration of the walk moves one commit from the rest of the chain
      to the visited prefix. */
  lemma WalkAdvance(commits: map<string, Commit>, target: string, visited: seq<string>, name: string)
    requires CommitsWellFormed(commits) && name in commits && target in commits
    requires visited + Chain(commits, name) == Chain(commits, target)
    ensures commits[name].prev.Some? ==>
      && commits[name].prev.value in commits
      && (visited + [name]) + Chain(commits, commits[name].prev.value) == Chain(commits, target)
    ensures commits[name].prev.None? ==> visited + [name] == Chain(commits, target)
  {
    ChainStep(commits, name);
    if commits[name].prev.Some? {
      assert (visited + [name]) + Chain(commits, commits[name].prev.value) == visited + Chain(commits, name);
    }
  }

  /** One iteration of the walk extends the restored map by the commit's
      not-yet-restored files. */
  lemma WalkStep(commits: map<string, Commit>, visited: seq<string>, name: string, wd: WorkDir, out: WorkDir, now: Time)
    requires forall i :: 0 <= i < |visited| ==> visited[i] in commits
    requires name in commits
    requires out == wd + Written(FirstWins(commits, visited), now)
    ensures var earlier := FirstWins(commits, visited);
      var unseen := map p | p in commits[name].commitFiles && p !in earlier.Keys :: commits[name].commitFiles[p];
      && FirstWins(commits, visited + [name]).Keys == earlier.Keys + commits[name].commitFiles.Keys
      && out + Written(unseen, now) == wd + Written(FirstWins(commits, visited + [name]), now)
  {
    var earlier := FirstWins(commits, visited);
    var files := commits[name].commitFiles;
    var unseen := map p | p in files && p !in earlier.Keys :: files[p];
    assert (visited + [name])[..|visited|] == visited;
    assert files - earlier.Keys == unseen;
    assert FirstWins(commits, visited + [name]) == earlier + unseen;
    WrittenUnion(earlier, unseen, now);
    UnionAssoc(wd, Written(earlier, now), Written(unseen, now));
  }

  lemma WrittenUnion(a: map<Path, CommitFile>, b: map<Path, CommitFile>, now: Time)
    ensures Written(a + b, now) == Written(a, now) + Written(b, now)
  {
    var lhs := Written(a + b, now);
    var rhs := Written(a, now) + Written(b, now);
    assert lhs.Keys == rhs.Keys;
    forall p | p in lhs
      ensures lhs[p] == rhs[p]
    {
    }
  }

  lemma UnionAssoc<K, V>(a: map<K, V>, b: map<K, V>, c: map<K, V>)
    ensures (a + b) + c == a + (b + c)
  {
    var lhs := (a + b) + c;
    var rhs := a + (b + c);
    assert lhs.Keys == rhs.Keys;
    forall k | k in lhs
      ensures lhs[k] == rhs[k]
    {
    }
  }

  /** A completed switch leaves a clean directory: every restored path is
      indexed and dated at the new last-commit time. */
  lemma SwitchLeavesClean(r: Repo, wd: WorkDir, m: Matcher, name: string, now: Time)
    requires Valid(r)
    requires SwitchTo(r, wd, m, name, now).Success?
    requires SwitchTo(r, wd, m, name, now).value.msg == Switched
    ensures var s := SwitchTo(r, wd, m, name, now).value;
      Clean(s.repo, s.wd, m)
  {
    var s := SwitchTo(r, wd, m, name, now).value;
    var target := Resolve(r, name);
    var chain := Chain(r.commits, target);
    var restored := Restored(r.commits, target);
    var info := Info(s.repo, s.wd, m);
    forall p | p in info
      ensures info[p] == Committed
    {
      assert p !in wd || p in Tracked(wd, m, r.ignoreExpressions) || p in restored;
      assert p in restored;
      NearestWins(r.commits, chain, p);
      var i :| 0 <= i < |chain| && p in r.commits[chain[i]].commitFiles;
      assert p in r.commitFiles;
    }
  }
}
