/** `commit`, `commitHeadNull`, `commitHeadNoNull`, `createCommit`,
    `getCommitContent` and `toCommitFile`: recording a snapshot of the
    untracked and modified files. */
module Committing {
  import opened Wrappers
  import opened Model
  import opened Names
  import opened StatusView
  import opened History

  /** `getCommitContent`: a snapshot of every untracked or modified file,
      tagged with the new commit's name. */
  function Captured(r: Repo, wd: WorkDir, m: Matcher, name: string): map<Path, CommitFile>
  {
    map p | p in Dirty(r, wd, m) :: CommitFile(p, wd[p].mtime, wd[p].lines, name)
  }

  /** `createCommit`: record a commit with the captured files, re-point the
      index at the new snapshots and stamp the commit time. */
  function CreateCommit(r: Repo, wd: WorkDir, m: Matcher, name: string, message: string,
                        prev: Option<string>, now: Time): (r': Repo)
    requires name !in r.commits
    ensures NewCommitRecorded(r, r', wd, m, name, message, now)
    ensures r'.commits[name].prev == prev
    ensures r'.branches == r.branches && r'.head == r.head
  {
    var files := Captured(r, wd, m, name);
    var c := Commit(name, message, now, prev, files, |r.commits|);
    r.(commits := r.commits[name := c], commitFiles := r.commitFiles + files, lastCommitTimestamp := now)
  }

  /** Whether a commit request is refused: head is set but names no branch. */
  predicate CommitRefused(r: Repo)
  {
    r.head.Some? && r.head.value !in r.branches
  }

  /** `commit`: with no head, a root commit on a new branch "master" that
      becomes head; with head on a branch, a commit whose parent is the
      branch's tip, which the branch then moves to; otherwise a refusal that
      changes nothing. `pick` is the number `getCommitName` drew. */
  function DoCommit(r: Repo, wd: WorkDir, m: Matcher, message: string, pick: int, now: Time): (res: Reply)
    requires Valid(r)
    requires ValidPick(pick) && CommitName(pick) !in r.commits
    ensures CommitRefused(r) <==> res.msg == CommitNoBranch
    ensures CommitRefused(r) ==> res.repo == r
    ensures !CommitRefused(r) ==> res.msg == CommitPerformed
    ensures r.head.None? ==>
      && CommitName(pick) in res.repo.commits
      && res.repo.head == Some(Master)
      && res.repo.branches == map[Master := Branch(Master, CommitName(pick))]
      && res.repo.commits[CommitName(pick)].prev.None?
    ensures r.head.Some? && r.head.value in r.branches ==>
      var h := r.head.value;
      && CommitName(pick) in res.repo.commits
      && res.repo.head == r.head
      && res.repo.branches == r.branches[h := Branch(h, CommitName(pick))]
      && res.repo.commits[CommitName(pick)].prev == Some(r.branches[h].commitName)
    ensures !CommitRefused(r) ==> NewCommitRecorded(r, res.repo, wd, m, CommitName(pick), message, now)
  {
    var name := CommitName(pick);
    if r.head.None? then
      var r1 := CreateCommit(r, wd, m, name, message, None, now);
      var r2 := r1.(branches := r1.branches[Master := Branch(Master, name)], head := Some(Master));
      RecordedIgnoresBranches(r, r1, r2, wd, m, name, message, now);
      Reply(r2, CommitPerformed)
    else if r.head.value !in r.branches then
      Reply(r, CommitNoBranch)
    else
      var h := r.head.value;
      var tip := r.branches[h].commitName;
      var r1 := CreateCommit(r, wd, m, name, message, Some(tip), now);
      var r2 := r1.(branches := r1.branches[h := Branch(h, name)]);
      RecordedIgnoresBranches(r, r1, r2, wd, m, name, message, now);
      Reply(r2, CommitPerformed)
  }

  lemma RecordedIgnoresBranches(r: Repo, r1: Repo, r2: Repo, wd: WorkDir, m: Matcher, name: string, message: string, now: Time)
    requires NewCommitRecorded(r, r1, wd, m, name, message, now)
    requires r2.commits == r1.commits && r2.commitFiles == r1.commitFiles
    requires r2.lastCommitTimestamp == r1.lastCommitTimestamp && r2.ignoreExpressions == r1.ignoreExpressions
    ensures NewCommitRecorded(r, r2, wd, m, name, message, now)
  {
  }

  /** The commit-graph and index effect of a successful commit: `name` is
      new and is the only commit added; it carries the message, the commit
      time and exactly the untracked and modified files with their current
      content; those paths and no others are re-pointed in the index. */
  ghost predicate NewCommitRecorded(r: Repo, r': Repo, wd: WorkDir, m: Matcher, name: string, message: string, now: Time)
  {
    && name !in r.commits
    && r'.commits.Keys == r.commits.Keys + {name}
    && (forall n :: n in r.commits ==> r'.commits[n] == r.commits[n])
    && r'.commits[name].commitMessage == message
    && r'.commits[name].timestamp == now
    && r'.commits[name].commitFiles.Keys == Dirty(r, wd, m)
    && r'.commitFiles.Keys == r.commitFiles.Keys + Dirty(r, wd, m)
    && (forall p :: p in Dirty(r, wd, m) ==>
          && r'.commitFiles[p] == r'.commits[name].commitFiles[p]
          && r'.commitFiles[p].commitName == name
          && r'.commitFiles[p].content == wd[p].lines
          && r'.commitFiles[p].modificationTime == wd[p].mtime)
    && (forall p :: p in r.commitFiles && p !in Dirty(r, wd, m) ==> r'.commitFiles[p] == r.commitFiles[p])
    && r'.lastCommitTimestamp == now
    && r'.ignoreExpressions == r.ignoreExpressions
  }
}

module CommitFacts {
  import opened Wrappers
  import opened Model
  import opened Names
  import opened StatusView
  import opened History
  import opened Committing

  /** Recording a fresh commit whose parent (if any) exists keeps the
      commit graph well formed: the new commit comes after its parent. */
  lemma CreateCommitKeepsGraph(r: Repo, wd: WorkDir, m: Matcher, name: string, message: string,
                               prev: Option<string>, now: Time)
    requires CommitsWellFormed(r.commits) && name !in r.commits
    requires prev.Some? ==> prev.value in r.commits
    ensures CommitsWellFormed(CreateCommit(r, wd, m, name, message, prev, now).commits)
  {
    var commits' := CreateCommit(r, wd, m, name, message, prev, now).commits;
    assert |commits'| == |r.commits| + 1 by {
      assert commits'.Keys == r.commits.Keys + {name};
    }
    forall n | n in commits'
      ensures CommitWellFormed(commits', n)
    {
      if n != name {
        assert CommitWellFormed(r.commits, n);
      } else if prev.Some? {
        assert CommitWellFormed(r.commits, prev.value);
      }
    }
  }

  /** The index after a commit still points at snapshots the commits own,
      and still covers every captured path. */
  lemma CreateCommitKeepsIndex(r: Repo, wd: WorkDir, m: Matcher, name: string, message: string,
                               prev: Option<string>, now: Time)
    requires IndexWellFormed(r) && name !in r.commits
    ensures IndexWellFormed(CreateCommit(r, wd, m, name, message, prev, now))
  {
    var r' := CreateCommit(r, wd, m, name, message, prev, now);
    var files := Captured(r, wd, m, name);
    forall p | p in r'.commitFiles
      ensures IndexEntryOk(r'.commits, p, r'.commitFiles[p])
    {
      if p !in files {
        assert IndexEntryOk(r.commits, p, r.commitFiles[p]);
      }
    }
  }

  /** Every successful or refused commit keeps the repository invariant. */
  lemma CommitPreservesValid(r: Repo, wd: WorkDir, m: Matcher, message: string, pick: int, now: Time)
    requires Valid(r)
    requires ValidPick(pick) && CommitName(pick) !in r.commits
    ensures Valid(DoCommit(r, wd, m, message, pick, now).repo)
  {
    if !CommitRefused(r) {
      var name := CommitName(pick);
      var b := if r.head.None? then Master else r.head.value;
      var prev := if r.head.None? then None else Some(r.branches[b].commitName);
      var r1 := CreateCommit(r, wd, m, name, message, prev, now);
      CreateCommitKeepsGraph(r, wd, m, name, message, prev, now);
      CreateCommitKeepsIndex(r, wd, m, name, message, prev, now);
      assert BranchesWellFormed(r1);
      AttachKeepsValid(r1, b, name);
      assert DoCommit(r, wd, m, message, pick, now).repo
        == r1.(branches := r1.branches[b := Branch(b, name)], head := Some(b));
    }
  }

  /** Pointing branch `b` at an existing commit and making it head keeps
      the invariant. */
  lemma AttachKeepsValid(r: Repo, b: string, name: string)
    requires CommitsWellFormed(r.commits) && IndexWellFormed(r) && BranchesWellFormed(r)
    requires name in r.commits
    ensures Valid(r.(branches := r.branches[b := Branch(b, name)], head := Some(b)))
  {
    var r' := r.(branches := r.branches[b := Branch(b, name)], head := Some(b));
    assert name in r'.commits.Keys && b in r'.branches.Keys;
  }

  /** Right after a commit every tracked file is indexed and the commit
      time is the reference: a file is committed exactly when it is not
      dated after the commit time, and modified otherwise. */
  lemma CommitLeavesClean(r: Repo, wd: WorkDir, m: Matcher, message: string, pick: int, now: Time)
    requires Valid(r)
    requires ValidPick(pick) && CommitName(pick) !in r.commits
    requires !CommitRefused(r)
    ensures var info := Info(DoCommit(r, wd, m, message, pick, now).repo, wd, m);
      forall p :: p in info ==> (info[p] == Committed <==> wd[p].mtime <= now) && info[p] != Untracked
  {
    var r' := DoCommit(r, wd, m, message, pick, now).repo;
    var info := Info(r, wd, m);
    var info' := Info(r', wd, m);
    forall p | p in info'
      ensures p in r'.commitFiles
    {
      assert p in info;
      if info[p] == Committed {
        assert p in r.commitFiles;
      } else {
        assert p in Dirty(r, wd, m);
      }
    }
  }

  /** A commit on a branch puts exactly one entry, the new commit, in front
      of the log; the first commit starts a log of one entry. */
  lemma LogAfterCommit(r: Repo, wd: WorkDir, m: Matcher, message: string, pick: int, now: Time)
    requires Valid(r)
    requires ValidPick(pick) && CommitName(pick) !in r.commits
    requires !CommitRefused(r)
    ensures var r' := DoCommit(r, wd, m, message, pick, now).repo;
      Valid(r') && LogOf(r') == [CommitMessage(CommitName(pick), message)] + LogOf(r)
  {
    CommitPreservesValid(r, wd, m, message, pick, now);
    var name := CommitName(pick);
    var r' := DoCommit(r, wd, m, message, pick, now).repo;
    assert HeadCommit(r') == name;
    MessagesStep(r'.commits, name);
    if r.head.Some? {
      var tip := HeadCommit(r);
      assert r'.commits == r.commits[name := r'.commits[name]];
      ChainFrame(r.commits, name, r'.commits[name], tip);
      MessagesFrame(r.commits, r'.commits, Chain(r.commits, tip));
    }
  }

  /** Messages read only the commits they name. */
  lemma {:induction false} MessagesFrame(commits: map<string, Commit>, commits': map<string, Commit>, names: seq<string>)
    requires forall i :: 0 <= i < |names| ==> names[i] in commits && names[i] in commits' && commits'[names[i]] == commits[names[i]]
    ensures Messages(commits', names) == Messages(commits, names)
    decreases |names|
  {
    if names != [] {
      MessagesFrame(commits, commits', names[1..]);
    }
  }
}
