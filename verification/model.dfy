/** The repository state of GitRepositoryImpl as an immutable value, the
    working directory it observes, and the invariant every reachable state
    satisfies. */
module Model {
  import opened Wrappers

  type Path = string

  /** An Instant, as a tick count. */
  type Time = int

  datatype Status = Untracked | Modified | Committed

  /** One file as captured by one commit (CommitFile). */
  datatype CommitFile = CommitFile(path: Path, modificationTime: Time, content: seq<string>, commitName: string)

  /** A commit (Commit). `prev` holds the parent's name instead of a
      reference; `seqNo` is the number of commits that existed when this
      one was recorded, which orders every parent before its children. */
  datatype Commit = Commit(
    commitName: string,
    commitMessage: string,
    timestamp: Time,
    prev: Option<string>,
    commitFiles: map<Path, CommitFile>,
    seqNo: nat)

  /** A named pointer to a commit (Branch). */
  datatype Branch = Branch(branchName: string, commitName: string)

  /** One regular file of the working directory: its modification time and lines. */
  datatype FileEntry = FileEntry(mtime: Time, lines: seq<string>)

  /** The working directory: its regular files by path (a single level). */
  type WorkDir = map<Path, FileEntry>

  /** `String.matches(pattern)`: whether a path matches the ignore pattern. */
  type Matcher = (Path, string) -> bool

  /** The fields of GitRepositoryImpl. */
  datatype Repo = Repo(
    commits: map<string, Commit>,
    commitFiles: map<Path, CommitFile>,
    branches: map<string, Branch>,
    head: Option<string>,
    lastCommitTimestamp: Time,
    ignoreExpressions: string)

  /** The status tags the operations return in place of their message strings. */
  datatype Msg =
    | CommitPerformed | CommitNoBranch
    | NoCommits | BranchAlreadyExists | BranchCreated
    | BranchNoExists | BranchRenamed
    | ActiveBranch | OneBranch | BranchDeleted
    | Switched | SameAsCurrent | DirectoryNoCommitted

  /** The exceptions callers can provoke with a name that resolves to no commit. */
  datatype Fault = UnknownCommit(name: string)

  datatype Reply = Reply(repo: Repo, msg: Msg)

  const Master: string := "master"
  const InitialIgnore: string := "(\\..*)"

  /** The repository `init` builds when no saved state exists. The initial
      timestamp is never read: it matters only once a file is indexed,
      which takes a commit, and every commit overwrites it. */
  function Init(): (r: Repo)
    ensures Valid(r)
    ensures r.head.None? && r.commits == map[] && r.branches == map[]
  {
    Repo(map[], map[], map[], None, 0, InitialIgnore)
  }

  ghost predicate CommitWellFormed(commits: map<string, Commit>, n: string)
    requires n in commits
  {
    var c := commits[n];
    && c.commitName == n
    && c.seqNo < |commits|
    && (c.prev.Some? ==> c.prev.value in commits && commits[c.prev.value].seqNo < c.seqNo)
    && (forall p :: p in c.commitFiles ==> c.commitFiles[p].path == p && c.commitFiles[p].commitName == n)
  }

  /** Every commit is keyed by its own name, its parent exists and was
      recorded before it, and its files are keyed by path and tagged with it. */
  ghost predicate CommitsWellFormed(commits: map<string, Commit>)
  {
    forall n :: n in commits ==> CommitWellFormed(commits, n)
  }

  ghost predicate IndexEntryOk(commits: map<string, Commit>, p: Path, cf: CommitFile)
  {
    && cf.path == p
    && cf.commitName in commits
    && p in commits[cf.commitName].commitFiles
    && commits[cf.commitName].commitFiles[p] == cf
  }

  /** The live index points at snapshots owned by recorded commits, and
      every path any commit captured is indexed. */
  ghost predicate IndexWellFormed(r: Repo)
  {
    && (forall p :: p in r.commitFiles ==> IndexEntryOk(r.commits, p, r.commitFiles[p]))
    && (forall n, p :: n in r.commits && p in r.commits[n].commitFiles ==> p in r.commitFiles)
  }

  /** Every branch is keyed by its own name and targets an existing commit. */
  ghost predicate BranchesWellFormed(r: Repo)
  {
    forall b :: b in r.branches ==> r.branches[b].branchName == b && r.branches[b].commitName in r.commits
  }

  /** Before the first commit there is no head and no branch; afterwards
      head names a branch or a commit, and at least one branch exists. */
  ghost predicate HeadWellFormed(r: Repo)
  {
    && (r.head.None? <==> r.commits == map[])
    && (r.commits == map[] <==> r.branches == map[])
    && (r.head.Some? ==> r.head.value in r.branches || r.head.value in r.commits)
  }

  ghost predicate Valid(r: Repo)
  {
    && CommitsWellFormed(r.commits)
    && IndexWellFormed(r)
    && BranchesWellFormed(r)
    && HeadWellFormed(r)
  }

  /** `getCommit`: the commit head addresses, through its branch when head
      names one, else directly. In a valid state it always exists, so the
      source's IllegalStateException cannot arise. */
  function HeadCommit(r: Repo): (n: string)
    requires Valid(r) && r.head.Some?
    ensures n in r.commits
    ensures r.head.value in r.branches ==> n == r.branches[r.head.value].commitName
    ensures r.head.value !in r.branches ==> n == r.head.value
  {
    var h := r.head.value;
    if h in r.branches then r.branches[h].commitName else h
  }
}
