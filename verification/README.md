# A verified model of the git-application repository engine

This project models `GitRepositoryImpl`, the engine of a small local version-control tool, in Dafny. It treats the engine as a state machine over an abstract working directory. The state (`Model.Repo`) holds:

- `commits`: commit name → commit. A commit has a message, a parent name or none, and the files it captured.
- `commitFiles`: the live index, path → latest captured snapshot.
- `branches`: branch name → branch.
- `head`: none, a branch name, or a raw commit name.
- `lastCommitTimestamp` and the ignore pattern string.

The working directory is a map path → (modification time, lines).

Every operation is a pure function from a state to a reply: `DoCommit`, `Info`, `CreateBranch`, `RenameBranch`, `DeleteBranch`, `Branches`, `LogOf`/`Log`, `CommitContent`, `SwitchTo`, `GetHead` and `AddIgnoredFileNameExp`. Result tags stand in for the message strings. `Result` failures stand in for the `IllegalArgumentException`s a caller can provoke with an unknown commit name.

`Model.Valid` is the invariant of reachable states:
- every commit's parent exists and was recorded before it;
- every branch targets an existing commit;
- before the first commit there is no head and no branch, and afterwards head names a branch or a commit and at least one branch exists;
- the index points at snapshots owned by recorded commits and covers every captured path.

`Init` satisfies it, and each operation preserves it. Apart from the I/O wrappers in `switchTo`, `writeFile` and `switchProcess` (see "## Left out"), the source throws `IllegalStateException` in three places. `getCommit` and `log` throw when head's commit name is not a recorded commit; under `Valid` that cannot happen. `createInternalBranch` throws when the branch name is already taken. It is reached only from `createBranch`, which refuses a taken name first, and from `commitHeadNull`, which runs only while no branch exists, so that throw cannot happen either. The operations take `Valid` as their precondition.

Each commit carries `seqNo`, the number of commits that existed when it was recorded. Parents have smaller numbers than their children, which gives the parent walks of `log` and `switchProcess` a termination measure.

Four behaviours of the code worth noting:
- `createBranch` makes the new branch head, because `createInternalBranch` sets `head`.
- A tracked file is MODIFIED when its time is later than `lastCommitTimestamp`, not later than its own snapshot's time.
- `commit` refuses in one case: head is set but is not a key of `branches`. That covers both a detached head and a missing branch.
- `switchTo` reports "same as current" in two cases. One is when the target resolves to head's commit. The other is when the name equals `head` literally.

## Model

| member | source | states |
|---|---|---|
| Model.Init | src/telran/git/service/GitRepositoryImpl.java:39-44 | a fresh repository has no head, no commits and no branches, and satisfies the invariant |
| Model.HeadCommit | src/telran/git/service/GitRepositoryImpl.java:189-197 | head resolves through its branch, or directly when detached, to a commit that exists, so the "no commit" exception cannot arise in a valid state |
| Names.CommitName | src/telran/git/service/GitRepositoryImpl.java:120-126 | a number drawn from [0x1000000, 0xfffffff) renders as exactly seven lower-case hex digits that parse back to the number, so distinct draws give distinct names |
| Names.HexRoundTrip | src/telran/git/service/GitRepositoryImpl.java:123 | parsing the base-16 rendering of any number gives the number back |
| Names.HexLength | src/telran/git/service/GitRepositoryImpl.java:123 | a number with n hex digits renders to n characters, with no leading zeros |
| Ignore.AddIgnoredFileNameExp | src/telran/git/service/GitRepositoryImpl.java:355-359 | the new pattern is the old one followed by exactly the alternative bar, `(`, the regex, `)`; it gains one bar separator plus those of the added regex; the reply reports the whole pattern; nothing else changes |
| Ignore.ThreeAdditions | src/telran/git/test/GitRepositoryTest.java:47-57 | three separator-free patterns added to a fresh repository leave three separators in the pattern and in the reply, so the reply splits into four pieces as the test expects |
| StatusView.Info | src/telran/git/service/GitRepositoryImpl.java:146-174 | lists exactly the files the ignore pattern does not match; a file is UNTRACKED iff it is not indexed; it is COMMITTED iff it is indexed and not dated after the last commit time |
| StatusView.Dirty | src/telran/git/service/GitRepositoryImpl.java:92-96 | the files a commit captures are among the listed, non-ignored files |
| StatusView.EmptyIndexAllDirty | src/telran/git/service/GitRepositoryImpl.java:166-168 | with an empty index, every listed file is dirty |
| History.Chain | src/telran/git/service/GitRepositoryImpl.java:244-247 | the walk from a commit starts at that commit and visits only existing commits |
| History.ChainFollowsParents | src/telran/git/service/GitRepositoryImpl.java:244-247 | each entry of the walk is followed by its parent, and the last entry has no parent |
| History.ChainNewestFirst | src/telran/git/service/GitRepositoryImpl.java:233-249 | along the walk, commits were recorded strictly newest first, so no commit repeats and the walk is no longer than the history |
| History.ChainFrame | src/telran/git/service/GitRepositoryImpl.java:87 | recording a commit under a fresh name leaves the walk from every existing commit unchanged |
| History.LogOf | src/telran/git/service/GitRepositoryImpl.java:233-249 | the log is empty iff there is no head; otherwise it has one (name, message) entry per commit on the walk from head's commit, in walk order |
| History.Log | src/telran/git/service/GitRepositoryImpl.java:233-249 | the loop over parent links returns that log, headed by head's commit |
| History.WalkMessages | src/telran/git/service/GitRepositoryImpl.java:244-247 | the `while (commit != null)` loop collects exactly the entries of the walk |
| History.NearestWins | src/telran/git/service/GitRepositoryImpl.java:306-322 | the walk restores exactly the paths some commit on it captured; each path gets the content of the first, that is nearest, commit that captured it |
| History.CommitContent | src/telran/git/service/GitRepositoryImpl.java:262-269 | fails iff the name is not a commit; otherwise returns the paths that commit itself captured |
| History.GetHead | src/telran/git/service/GitRepositoryImpl.java:338-344 | reports no head iff there are no commits; otherwise reports the head branch when head is a branch, and otherwise an existing commit that is not a branch |
| Committing.CreateCommit | src/telran/git/service/GitRepositoryImpl.java:80-110 | adds the fresh name as the only new commit. The commit holds exactly the untracked and modified files with their current lines and times. Only those paths are re-pointed in the index, and the commit time becomes the last commit time |
| Committing.DoCommit | src/telran/git/service/GitRepositoryImpl.java:65-78 | with no head: a parentless commit, branch "master" at it, head "master". On a branch: the parent is the branch's old tip and the branch moves to the new commit. Otherwise COMMIT_NO_BRANCH with the state unchanged. A successful commit records its files as `CreateCommit` states |
| CommitFacts.CreateCommitKeepsGraph | src/telran/git/service/GitRepositoryImpl.java:80-90 | a new commit comes after its parent, so the parent relation stays well-founded |
| CommitFacts.CreateCommitKeepsIndex | src/telran/git/service/GitRepositoryImpl.java:98-110 | after capture the index still points at snapshots its commits own and covers every captured path |
| CommitFacts.AttachKeepsValid | src/telran/git/service/GitRepositoryImpl.java:134-143 | pointing a branch at an existing commit and making it head keeps the invariant |
| CommitFacts.CommitPreservesValid | src/telran/git/service/GitRepositoryImpl.java:65-143 | every commit, performed or refused, keeps the invariant |
| CommitFacts.CommitLeavesClean | src/telran/git/service/GitRepositoryImpl.java:166-174 | right after a commit no listed file is UNTRACKED, and a file is COMMITTED iff it is not dated after the commit time |
| CommitFacts.LogAfterCommit | src/telran/git/service/GitRepositoryImpl.java:70-78 | a performed commit puts exactly one entry, itself, in front of the previous log |
| Branching.CreateBranch | src/telran/git/service/GitRepositoryImpl.java:176-187 | with no commits: NO_COMMITS. With a taken name: BRANCH_ALREADY_EXISTS. Both leave the state unchanged. Otherwise it adds exactly one branch, at head's commit, and makes it head, so `branches()` stars it and nothing else. The invariant is kept |
| Branching.RenameBranch | src/telran/git/service/GitRepositoryImpl.java:199-215 | it checks "new name taken" before "old name missing", and both leave the state unchanged. Otherwise the key set becomes (keys − old) ∪ {new}, the target commit is kept, other branches are untouched, and head follows the rename. The invariant is kept |
| Branching.DeleteBranch | src/telran/git/service/GitRepositoryImpl.java:217-230 | it checks missing name, then head branch, then last branch, each with no change. It deletes iff the name exists, is not head and is not the only branch, and then removes only that key. A branch always remains, and head's branch is never removed |
| Branching.Branches | src/telran/git/service/GitRepositoryImpl.java:251-260 | one label per branch, starred exactly when head names that branch |
| BranchFacts.OneBranchOnlyWhenDetached | src/telran/git/service/GitRepositoryImpl.java:225-227 | ONE_BRANCH can only be returned while head is detached: a head branch plus another named branch means two branches exist |
| Checkout.SwitchTo | src/telran/git/service/GitRepositoryImpl.java:271-336 | it fails iff the name is neither a branch nor a commit; a branch name stands for its commit, as `commitSwitched` looks it up. Otherwise it answers SAME_AS_CURRENT iff the target is where head already is, then DIRECTORY_NO_COMMITTED iff some listed file is not COMMITTED; both change nothing. It switches iff neither refusal applies: it deletes the tracked files, keeps the ignored ones, writes the restored files, moves head to the name and keeps the invariant |
| Checkout.SwitchProcess | src/telran/git/service/GitRepositoryImpl.java:298-322 | the loop over parent links with its set of restored paths writes exactly the first-capture map of the target's walk over the directory, each file with its snapshot's lines as `writeFile` writes them |
| Checkout.SwitchLeavesClean | src/telran/git/service/GitRepositoryImpl.java:283-292 | after a completed switch every listed file is COMMITTED |
| Scenarios.FirstCommit | src/telran/git/test/GitRepositoryTest.java:71-83 | the first commit makes "master" head, the log has one entry, and the commit captured every listed file |
| Scenarios.SecondCommit | src/telran/git/test/GitRepositoryTest.java:85-93 | a commit on "master" after one commit gives a two-entry log, newest first, with head still on "master" |
| Scenarios.TwoCommitsLog | src/telran/git/test/GitRepositoryTest.java:142-148 | two commits on a fresh repository give the log [second, first] with "master" as head |
| Scenarios.CreateThenSwitchIsSame | src/telran/git/service/GitRepositoryImpl.java:272-279 | switching to a branch just created reports SAME_AS_CURRENT and changes nothing |
| Scenarios.RenameHeadBranch | src/telran/git/test/GitRepositoryTest.java:116-130 | after renaming the head branch, `getHead` reports the new name, which is starred, and no label carries the old name |
| Scenarios.DeleteKeepsLog | src/telran/git/service/GitRepositoryImpl.java:217-230 | deleting a branch, or being refused, never changes the log |
| Scenarios.LogAfterSwitch | src/telran/git/service/GitRepositoryImpl.java:291 | after a completed switch the log is the walk from the target's commit |

## Left out

- File-system I/O is left out: `Files.list`, `Files.lines`, `Files.delete`, `PrintWriter` and `getLastModifiedTime`. The working directory is a map passed in and returned. Nested directories and non-regular entries are absent from that map.
- I/O failures and their `RuntimeException`/`IllegalStateException` wrappers are left out. So are partial deletes or writes during a switch. The map operations cannot fail.
- `info` returning an empty list when the directory cannot be listed is left out, for the same reason.
- Regular-expression matching in `ignoreFilter` is a library call. It is the `Matcher` parameter `m(path, pattern)`. `addIgnoredFileNameExp` is modelled as string concatenation.
- In `getCommitName`, the random draw and the unbounded retry are left out. The drawn number is the `pick` parameter, and the caller must supply one whose name is not yet a commit.
- `Instant.now()` is left out. Commit time and switch time are the `now` parameter. In a switch, the restored files get that same time as their modification time; the source reads the clock after writing them.
- Object serialization is left out: `init`, `restoreFromFile` and `save`.
- The console menu and the entry point are left out. That includes the menu's "nothing to commit" pre-check, which the engine does not repeat.
- Message strings are left out. The operations return distinct result tags instead.
- The listing order of `info`, `branches` and `commitContent` is left out. They are modelled as a map, a set and a set, because `Files.list` and `HashMap` order is unspecified.
- A commit's file list is keyed by path. In `switchProcess`, the files of one commit are written as one batch, which is safe because their paths are distinct.
- Commit time stamps in `Commit.timestamp` are recorded, but no property depends on them.
