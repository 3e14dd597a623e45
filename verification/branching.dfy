/** `createBranch`, `createInternalBranch`, `renameBranch`, `deleteBranch`
    and `branches`. */
module Branching {
  import opened Wrappers
  import opened Model

  /** `createBranch`: refused before the first commit and for a taken name,
      both without change; otherwise a branch at head's commit, which
      `createInternalBranch` then makes head. */
  function CreateBranch(r: Repo, name: string): (res: Reply)
    requires Valid(r)
    ensures Valid(res.repo)
    ensures r.commits == map[] ==> res == Reply(r, NoCommits)
    ensures r.commits != map[] && name in r.branches ==> res == Reply(r, BranchAlreadyExists)
    ensures r.commits != map[] && name !in r.branches ==>
      && res.msg == BranchCreated
      && res.repo.branches.Keys == r.branches.Keys + {name}
      && res.repo.branches[name].commitName == HeadCommit(r)
      && (forall b :: b in r.branches ==> res.repo.branches[b] == r.branches[b])
      && res.repo.head == Some(name)
      && res.repo == r.(branches := res.repo.branches, head := res.repo.head)
    ensures res.msg == BranchCreated ==>
      var ls := Branches(res.repo);
      Label(name, true) in ls && forall l :: l in ls ==> (l.active <==> l.name == name)
  {
    if r.commits == map[] then Reply(r, NoCommits)
    else if name in r.branches then Reply(r, BranchAlreadyExists)
    else
      var target := HeadCommit(r);
      var r' := r.(branches := r.branches[name := Branch(name, target)], head := Some(name));
      assert name in r'.branches.Keys;
      Reply(r', BranchCreated)
  }

  /** `renameBranch`: a taken new name is reported before a missing old
      name, both without change; otherwise the branch is re-keyed with its
      commit kept, and head follows it when it was head. */
  function RenameBranch(r: Repo, oldName: string, newName: string): (res: Reply)
    requires Valid(r)
    ensures Valid(res.repo)
    ensures newName in r.branches ==> res == Reply(r, BranchAlreadyExists)
    ensures newName !in r.branches && oldName !in r.branches ==> res == Reply(r, BranchNoExists)
    ensures newName !in r.branches && oldName in r.branches ==>
      && res.msg == BranchRenamed
      && res.repo.branches.Keys == r.branches.Keys - {oldName} + {newName}
      && res.repo.branches[newName].commitName == r.branches[oldName].commitName
      && (forall b :: b in r.branches && b != oldName ==> res.repo.branches[b] == r.branches[b])
      && res.repo.head == (if r.head == Some(oldName) then Some(newName) else r.head)
      && res.repo == r.(branches := res.repo.branches, head := res.repo.head)
  {
    if newName in r.branches then Reply(r, BranchAlreadyExists)
    else if oldName !in r.branches then Reply(r, BranchNoExists)
    else
      var branch := r.branches[oldName].(branchName := newName);
      var branches := (r.branches - {oldName})[newName := branch];
      var head := if r.head.value == oldName then Some(newName) else r.head;
      assert newName in branches.Keys;
      Reply(r.(branches := branches, head := head), BranchRenamed)
  }

  /** `deleteBranch`: a missing name, then the head branch, then the last
      branch are refused, each without change; otherwise only that branch
      goes, so a branch remains and head's branch is never removed. */
  function DeleteBranch(r: Repo, name: string): (res: Reply)
    requires Valid(r)
    ensures Valid(res.repo)
    ensures name !in r.branches ==> res == Reply(r, BranchNoExists)
    ensures name in r.branches && r.head == Some(name) ==> res == Reply(r, ActiveBranch)
    ensures name in r.branches && r.head != Some(name) && |r.branches| == 1 ==> res == Reply(r, OneBranch)
    ensures res.msg == BranchDeleted <==> name in r.branches && r.head != Some(name) && |r.branches| > 1
    ensures res.msg == BranchDeleted ==>
      && res.repo == r.(branches := r.branches - {name})
      && |res.repo.branches| == |r.branches| - 1 >= 1
      && (r.head.value in r.branches ==> r.head.value in res.repo.branches)
  {
    if name !in r.branches then Reply(r, BranchNoExists)
    else if r.head.value == name then Reply(r, ActiveBranch)
    else if |r.branches| == 1 then Reply(r, OneBranch)
    else Reply(r.(branches := r.branches - {name}), BranchDeleted)
  }

  /** One entry of `branches()`: a name, starred when it is head. */
  datatype Label = Label(name: string, active: bool)

  /** `branches`: every branch once, starred exactly when head names it. */
  function Branches(r: Repo): (ls: set<Label>)
    requires Valid(r)
    ensures forall l :: l in ls ==> l.name in r.branches && (l.active <==> r.head == Some(l.name))
    ensures forall b :: b in r.branches ==> Label(b, r.head == Some(b)) in ls
  {
    set b | b in r.branches :: Label(r.branches[b].branchName, r.head == Some(r.branches[b].branchName))
  }
}

module BranchFacts {
  import opened Wrappers
  import opened Model
  import opened Branching

  /** `ONE_BRANCH` is reachable only with a detached head: while head is a
      branch other than the one named, at least two branches exist. */
  lemma OneBranchOnlyWhenDetached(r: Repo, name: string)
    requires Valid(r)
    ensures DeleteBranch(r, name).msg == OneBranch ==> r.head.value !in r.branches
  {
    if DeleteBranch(r, name).msg == OneBranch && r.head.value in r.branches {
      var h := r.head.value;
      assert {h, name} <= r.branches.Keys;
      assert |{h, name}| == 2;
      CardSubset({h, name}, r.branches.Keys);
      assert false;
    }
  }

  lemma CardSubset<T>(a: set<T>, b: set<T>)
    requires a <= b
    ensures |a| <= |b|
  {
    assert b == a + (b - a);
  }
}
