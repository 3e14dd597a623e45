/** Properties across several operations, following the source's test
    sequence: commits feed the log, branch edits and switches are seen by
    `getHead`, `branches` and `log`. */
module Scenarios {
  import opened Wrappers
  import opened Model
  import opened Names
  import opened StatusView
  import opened History
  import opened Committing
  import opened CommitFacts
  import opened Branching
  import opened Checkout

  /** The first commit of a fresh repository: "master" becomes head, the
      log holds that commit alone and it captured every tracked file. */
  lemma FirstCommit(wd: WorkDir, m: Matcher, message: string, pick: int, now: Time)
    requires ValidPick(pick)
    ensures var r := DoCommit(Init(), wd, m, message, pick, now).repo;
      && Valid(r)
      && r.commits.Keys == {CommitName(pick)}
      && r.head == Some(Master) && Master in r.branches
      && LogOf(r) == [CommitMessage(CommitName(pick), message)]
      && CommitContent(r, CommitName(pick)) == Success(Tracked(wd, m, InitialIgnore))
  {
    LogAfterCommit(Init(), wd, m, message, pick, now);
    EmptyIndexAllDirty(Init(), wd, m);
  }

  /** A commit on "master" while it is head and the log holds one entry:
      the log grows to two entries, newest first. */
  lemma SecondCommit(r: Repo, wd: WorkDir, m: Matcher, message: string, pick: int, now: Time, first: CommitMessage)
    requires Valid(r) && r.head == Some(Master) && Master in r.branches
    requires ValidPick(pick) && CommitName(pick) !in r.commits
    requires LogOf(r) == [first]
    ensures var r' := DoCommit(r, wd, m, message, pick, now).repo;
      && Valid(r')
      && GetHead(r') == OnBranch(Master)
      && LogOf(r') == [CommitMessage(CommitName(pick), message), first]
  {
    LogAfterCommit(r, wd, m, message, pick, now);
  }

  /** Two commits on a fresh repository: "master" is head and the log lists
      the second commit, then the first. */
  lemma TwoCommitsLog(wd1: WorkDir, wd2: WorkDir, m: Matcher, msg1: string, msg2: string,
                      pick1: int, pick2: int, t1: Time, t2: Time)
    requires ValidPick(pick1) && ValidPick(pick2) && pick1 != pick2
    ensures var r1 := DoCommit(Init(), wd1, m, msg1, pick1, t1).repo;
      var r2 := DoCommit(r1, wd2, m, msg2, pick2, t2).repo;
      && Valid(r2)
      && GetHead(r2) == OnBranch(Master)
      && LogOf(r2) == [CommitMessage(CommitName(pick2), msg2), CommitMessage(CommitName(pick1), msg1)]
  {
    var r1 := DoCommit(Init(), wd1, m, msg1, pick1, t1).repo;
    FirstCommit(wd1, m, msg1, pick1, t1);
    assert CommitName(pick1) != CommitName(pick2) by {
      assert ParseHex(CommitName(pick1)) == pick1 && ParseHex(CommitName(pick2)) == pick2;
    }
    SecondCommit(r1, wd2, m, msg2, pick2, t2, CommitMessage(CommitName(pick1), msg1));
  }

  /** A branch just created addresses head's commit, so switching to it is
      reported as the current position and changes nothing. */
  lemma CreateThenSwitchIsSame(r: Repo, wd: WorkDir, m: Matcher, b: string, now: Time)
    requires Valid(r)
    requires CreateBranch(r, b).msg == BranchCreated
    ensures var r' := CreateBranch(r, b).repo;
      SwitchTo(r', wd, m, b, now) == Success(Switch(r', wd, SameAsCurrent))
  {
  }

  /** Renaming the head branch: `getHead` reports the new name and
      `branches` no longer lists the old one. */
  lemma RenameHeadBranch(r: Repo, a: string, b: string)
    requires Valid(r) && r.head == Some(a)
    requires RenameBranch(r, a, b).msg == BranchRenamed
    ensures var r' := RenameBranch(r, a, b).repo;
      && GetHead(r') == OnBranch(b)
      && (forall l :: l in Branches(r') ==> l.name != a)
      && Label(b, true) in Branches(r')
  {
  }

  /** Deleting a branch leaves head's commit, hence the log, unchanged. */
  lemma DeleteKeepsLog(r: Repo, name: string)
    requires Valid(r)
    ensures LogOf(DeleteBranch(r, name).repo) == LogOf(r)
  {
    var r' := DeleteBranch(r, name).repo;
    if r'.head.Some? {
      assert HeadCommit(r') == HeadCommit(r);
    }
  }

  /** After a completed switch the log starts at the target's commit. */
  lemma LogAfterSwitch(r: Repo, wd: WorkDir, m: Matcher, name: string, now: Time)
    requires Valid(r)
    requires SwitchTo(r, wd, m, name, now).Success?
    requires SwitchTo(r, wd, m, name, now).value.msg == Switched
    ensures var r' := SwitchTo(r, wd, m, name, now).value.repo;
      LogOf(r') == Messages(r.commits, Chain(r.commits, Resolve(r, name)))
  {
  }
}
