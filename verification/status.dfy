/** `info`, `getStatus` and `getStatusFromCommitFile`: the per-file status
    of the tracked (listed and not ignored) files. */
module StatusView {
  import opened Model

  /** The files `info` lists: the regular files whose name the ignore
      pattern does not match. */
  function Tracked(wd: WorkDir, m: Matcher, pattern: string): set<Path>
  {
    set p | p in wd && !m(p, pattern)
  }

  /** `getStatus`: an unindexed path is untracked; an indexed one is
      modified when its time is after the last commit's, not after its own
      snapshot's time. */
  function GetStatus(r: Repo, wd: WorkDir, p: Path): Status
    requires p in wd
  {
    if p !in r.commitFiles then Untracked
    else if wd[p].mtime > r.lastCommitTimestamp then Modified
    else Committed
  }

  /** `info`: the status of every tracked file. */
  function Info(r: Repo, wd: WorkDir, m: Matcher): (info: map<Path, Status>)
    ensures info.Keys == Tracked(wd, m, r.ignoreExpressions)
    ensures forall p :: p in info ==> (info[p] == Untracked <==> p !in r.commitFiles)
    ensures forall p :: p in info ==>
      (info[p] == Committed <==> p in r.commitFiles && wd[p].mtime <= r.lastCommitTimestamp)
  {
    map p | p in Tracked(wd, m, r.ignoreExpressions) :: GetStatus(r, wd, p)
  }

  /** The files a commit captures: those `info` reports untracked or modified. */
  function Dirty(r: Repo, wd: WorkDir, m: Matcher): (ps: set<Path>)
    ensures ps <= Tracked(wd, m, r.ignoreExpressions)
  {
    var info := Info(r, wd, m);
    set p | p in info && info[p] != Committed
  }

  /** The working directory is clean when every tracked file is committed. */
  predicate Clean(r: Repo, wd: WorkDir, m: Matcher)
  {
    Dirty(r, wd, m) == {}
  }

  /** With an empty index every tracked file is untracked, so all are dirty. */
  lemma EmptyIndexAllDirty(r: Repo, wd: WorkDir, m: Matcher)
    requires r.commitFiles == map[]
    ensures Dirty(r, wd, m) == Tracked(wd, m, r.ignoreExpressions)
  {
    var info := Info(r, wd, m);
    forall p | p in info
      ensures info[p] == Untracked
    {
    }
  }
}
