/** Walks over the commit graph: the parent chain behind `log` and
    `switchProcess`, and the read-only queries `log`, `commitContent` and
    `getHead`. */
module History {
  import opened Wrappers
  import opened Model

  /** The names met following parent links from `n` to the root, `n` first. */
  function Chain(commits: map<string, Commit>, n: string): (c: seq<string>)
    requires CommitsWellFormed(commits) && n in commits
    ensures |c| >= 1 && c[0] == n
    ensures forall i :: 0 <= i < |c| ==> c[i] in commits
    decreases commits[n].seqNo
  {
    assert CommitWellFormed(commits, n);
    match commits[n].prev
    case None => [n]
    case Some(p) => [n] + Chain(commits, p)
  }

  /** One step of the walk: the chain of `n` is `n` followed by its parent's chain. */
  lemma ChainStep(commits: map<string, Commit>, n: string)
    requires CommitsWellFormed(commits) && n in commits
    ensures commits[n].prev.None? ==> Chain(commits, n) == [n]
    ensures commits[n].prev.Some? ==>
      && commits[n].prev.value in commits
      && Chain(commits, n) == [n] + Chain(commits, commits[n].prev.value)
  {
    assert CommitWellFormed(commits, n);
  }

  /** The chain follows parent links: each entry's parent is the next
      entry, and the last entry is a root. */
  lemma {:induction false} ChainFollowsParents(commits: map<string, Commit>, n: string)
    requires CommitsWellFormed(commits) && n in commits
    ensures var c := Chain(commits, n);
      && (forall i :: 0 <= i < |c| - 1 ==> commits[c[i]].prev == Some(c[i + 1]))
      && commits[c[|c| - 1]].prev.None?
    decreases commits[n].seqNo
  {
    assert CommitWellFormed(commits, n);
    match commits[n].prev
    case None =>
    case Some(p) =>
      ChainFollowsParents(commits, p);
      var c := Chain(commits, n);
      assert c[1..] == Chain(commits, p);
  }

  /** Along a chain every commit was recorded after the ones behind it:
      the walk is newest first and visits no commit twice. */
  lemma {:induction false} ChainNewestFirst(commits: map<string, Commit>, n: string)
    requires CommitsWellFormed(commits) && n in commits
    ensures var c := Chain(commits, n);
      forall i, j :: 0 <= i < j < |c| ==> commits[c[i]].seqNo > commits[c[j]].seqNo
    ensures |Chain(commits, n)| <= commits[n].seqNo + 1
    decreases commits[n].seqNo
  {
    assert CommitWellFormed(commits, n);
    var c := Chain(commits, n);
    match commits[n].prev
    case None =>
    case Some(p) =>
      ChainNewestFirst(commits, p);
      var c' := Chain(commits, p);
      assert c == [n] + c';
      forall i, j | 0 <= i < j < |c|
        ensures commits[c[i]].seqNo > commits[c[j]].seqNo
      {
        if i > 0 {
          assert c[i] == c'[i - 1] && c[j] == c'[j - 1];
        } else {
          assert c[j] == c'[j - 1];
          assert commits[c'[0]].seqNo < commits[n].seqNo;
          if j > 1 {
            assert commits[c'[0]].seqNo > commits[c'[j - 1]].seqNo;
          }
        }
      }
  }

  /** Recording a fresh commit changes no existing commit's chain. */
  lemma {:induction false} ChainFrame(commits: map<string, Commit>, name: string, c: Commit, n: string)
    requires CommitsWellFormed(commits) && CommitsWellFormed(commits[name := c])
    requires name !in commits && n in commits
    ensures Chain(commits[name := c], n) == Chain(commits, n)
    decreases commits[n].seqNo
  {
    assert CommitWellFormed(commits, n);
    match commits[n].prev
    case None =>
    case Some(p) =>
      ChainFrame(commits, name, c, p);
  }

  datatype CommitMessage = CommitMessage(commitName: string, commitMessage: string)

  function Messages(commits: map<string, Commit>, names: seq<string>): (log: seq<CommitMessage>)
    requires forall i :: 0 <= i < |names| ==> names[i] in commits
    ensures |log| == |names|
  {
    if names == [] then [] else
      [CommitMessage(names[0], commits[names[0]].commitMessage)] + Messages(commits, names[1..])
  }

  /** What `log` returns: nothing before the first commit, else one entry
      per commit on head's chain, newest first. */
  function LogOf(r: Repo): (log: seq<CommitMessage>)
    requires Valid(r)
    ensures |log| == 0 <==> r.head.None?
    ensures r.head.Some? ==> log == Messages(r.commits, Chain(r.commits, HeadCommit(r)))
  {
    if r.head.None? then [] else Messages(r.commits, Chain(r.commits, HeadCommit(r)))
  }

  /** `log`, walking parent links as the source's loop does. */
  method Log(r: Repo) returns (res: seq<CommitMessage>)
    requires Valid(r)
    ensures res == LogOf(r)
    ensures r.head.Some? ==> res[0].commitName == HeadCommit(r)
  {
    res := [];
    if r.head.None? {
      return;
    }
    res := WalkMessages(r.commits, HeadCommit(r));
  }

  /** The loop of `log`: one entry per commit from `start` to the root. */
  method WalkMessages(commits: map<string, Commit>, start: string) returns (res: seq<CommitMessage>)
    requires CommitsWellFormed(commits) && start in commits
    ensures res == Messages(commits, Chain(commits, start))
  {
    res := [];
    ghost var chain := Chain(commits, start);
    var cur: Option<string> := Some(start);
    while cur.Some?
      invariant cur.Some? ==> cur.value in commits
      invariant cur.Some? ==> res + Messages(commits, Chain(commits, cur.value)) == Messages(commits, chain)
      invariant cur.None? ==> res == Messages(commits, chain)
      decreases if cur.Some? && cur.value in commits then commits[cur.value].seqNo + 1 else 0
    {
      var c := commits[cur.value];
      MessagesStep(commits, cur.value);
      assert CommitWellFormed(commits, cur.value);
      ghost var tail := if c.prev.Some? then Messages(commits, Chain(commits, c.prev.value)) else [];
      assert (res + [CommitMessage(c.commitName, c.commitMessage)]) + tail == res + ([CommitMessage(c.commitName, c.commitMessage)] + tail);
      res := res + [CommitMessage(c.commitName, c.commitMessage)];
      cur := c.prev;
    }
  }

  lemma MessagesStep(commits: map<string, Commit>, n: string)
    requires CommitsWellFormed(commits) && n in commits
    ensures commits[n].prev.None? ==>
      Messages(commits, Chain(commits, n)) == [CommitMessage(n, commits[n].commitMessage)]
    ensures commits[n].prev.Some? ==>
      && commits[n].prev.value in commits
      && Messages(commits, Chain(commits, n))
        == [CommitMessage(n, commits[n].commitMessage)] + Messages(commits, Chain(commits, commits[n].prev.value))
  {
    assert CommitWellFormed(commits, n);
    var c := Chain(commits, n);
    if commits[n].prev.Some? {
      assert c[1..] == Chain(commits, commits[n].prev.value);
    }
  }

  /** The files a walk over `names` restores: a path comes from the first
      commit in `names` that captured it; later captures are skipped. */
  function FirstWins(commits: map<string, Commit>, names: seq<string>): map<Path, CommitFile>
    requires forall i :: 0 <= i < |names| ==> names[i] in commits
  {
    if names == [] then map[]
    else
      var earlier := FirstWins(commits, names[..|names| - 1]);
      earlier + (commits[names[|names| - 1]].commitFiles - earlier.Keys)
  }

  /** Position i of `names` is the first commit there that captured p. */
  ghost predicate FirstCapture(commits: map<string, Commit>, names: seq<string>, p: Path, i: int)
    requires forall k :: 0 <= k < |names| ==> names[k] in commits
  {
    && 0 <= i < |names|
    && p in commits[names[i]].commitFiles
    && forall j :: 0 <= j < i ==> p !in commits[names[j]].commitFiles
  }

  /** The walk restores exactly the paths some commit of the walk captured,
      each with the content of the first commit that captured it. */
  lemma {:induction false} NearestWins(commits: map<string, Commit>, names: seq<string>, p: Path)
    requires forall i :: 0 <= i < |names| ==> names[i] in commits
    ensures p in FirstWins(commits, names) <==>
      exists i :: 0 <= i < |names| && p in commits[names[i]].commitFiles
    ensures forall i :: FirstCapture(commits, names, p, i) ==>
      p in FirstWins(commits, names) && FirstWins(commits, names)[p] == commits[names[i]].commitFiles[p]
    decreases |names|
  {
    if names != [] {
      var k := |names| - 1;
      var pre := names[..k];
      var earlier := FirstWins(commits, pre);
      NearestWins(commits, pre, p);
      if p in earlier {
        var i :| 0 <= i < |pre| && p in commits[pre[i]].commitFiles;
        var i0 := LeastCapture(commits, pre, p, i);
        assert FirstCapture(commits, names, p, i0);
        forall i' | FirstCapture(commits, names, p, i')
          ensures FirstWins(commits, names)[p] == commits[names[i']].commitFiles[p]
        {
          assert i' == i0;
        }
      } else {
        forall i | 0 <= i < k
          ensures p !in commits[names[i]].commitFiles
        {
          assert names[i] == pre[i];
        }
      }
    }
  }

  lemma {:induction false} LeastCapture(commits: map<string, Commit>, names: seq<string>, p: Path, i: int) returns (i0: int)
    requires forall k :: 0 <= k < |names| ==> names[k] in commits
    requires 0 <= i < |names| && p in commits[names[i]].commitFiles
    ensures 0 <= i0 <= i && FirstCapture(commits, names, p, i0)
    decreases i
  {
    if exists j :: 0 <= j < i && p in commits[names[j]].commitFiles {
      var j :| 0 <= j < i && p in commits[names[j]].commitFiles;
      i0 := LeastCapture(commits, names, p, j);
    } else {
      i0 := i;
    }
  }

  /** The files switching to commit `n` writes: the walk over its chain. */
  function Restored(commits: map<string, Commit>, n: string): map<Path, CommitFile>
    requires CommitsWellFormed(commits) && n in commits
  {
    FirstWins(commits, Chain(commits, n))
  }

  /** `commitContent`: the paths the named commit itself captured, or the
      source's IllegalArgumentException for an unknown name. */
  function CommitContent(r: Repo, name: string): (res: Result<set<Path>, Fault>)
    ensures res.Failure? <==> name !in r.commits
    ensures res.Failure? ==> res.error == UnknownCommit(name)
    ensures res.Success? ==> res.value == r.commits[name].commitFiles.Keys
  {
    if name !in r.commits then Failure(UnknownCommit(name))
    else Success(r.commits[name].commitFiles.Keys)
  }

  datatype HeadReport = NoHead | OnBranch(name: string) | Detached(name: string)

  /** `getHead`: no head before the first commit; afterwards head names a
      branch, or else an existing commit. */
  function GetHead(r: Repo): (h: HeadReport)
    requires Valid(r)
    ensures h.NoHead? <==> r.commits == map[]
    ensures h.OnBranch? ==> r.head == Some(h.name) && h.name in r.branches
    ensures h.Detached? ==> r.head == Some(h.name) && h.name !in r.branches && h.name in r.commits
  {
    if r.head.None? then NoHead
    else if r.head.value in r.branches then OnBranch(r.head.value)
    else Detached(r.head.value)
  }
}
