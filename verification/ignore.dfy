/** The ignore list: `addIgnoredFileNameExp` appends an alternative to the
    pattern string; matching the pattern is left to the Matcher parameter. */
module Ignore {
  import opened Model

  /** Number of alternative separators `|` in a pattern string. */
  function Bars(s: string): nat
  {
    if s == [] then 0 else Bars(s[..|s| - 1]) + (if s[|s| - 1] == '|' then 1 else 0)
  }

  const RegexPrefix: string := "Regex for files ignored is "

  datatype IgnoreReply = IgnoreReply(repo: Repo, message: string)

  /** `addIgnoredFileNameExp`: the pattern grows by one alternative and the
      reply reports the whole pattern. Nothing else in the state changes. */
  function AddIgnoredFileNameExp(r: Repo, regex: string): (res: IgnoreReply)
    ensures res.repo == r.(ignoreExpressions := res.repo.ignoreExpressions)
    ensures r.ignoreExpressions < res.repo.ignoreExpressions
    ensures res.repo.ignoreExpressions[|r.ignoreExpressions|..] == "|(" + regex + ")"
    ensures Bars(res.repo.ignoreExpressions) == Bars(r.ignoreExpressions) + 1 + Bars(regex)
    ensures res.message == RegexPrefix + res.repo.ignoreExpressions
  {
    var exp := r.ignoreExpressions + "|(" + regex + ")";
    BarsAppend(r.ignoreExpressions + "|(", regex);
    BarsAppend(r.ignoreExpressions + "|(" + regex, ")");
    BarsAppend(r.ignoreExpressions, "|(");
    Bars2("|(");
    Bars1(")");
    IgnoreReply(r.(ignoreExpressions := exp), RegexPrefix + exp)
  }

  lemma {:induction false} BarsAppend(a: string, b: string)
    ensures Bars(a + b) == Bars(a) + Bars(b)
    decreases |b|
  {
    if b == [] {
      assert a + b == a;
    } else {
      var b' := b[..|b| - 1];
      assert (a + b)[..|a + b| - 1] == a + b';
      BarsAppend(a, b');
    }
  }

  lemma Bars1(s: string)
    requires |s| == 1
    ensures Bars(s) == if s[0] == '|' then 1 else 0
  {
    assert s[..0] == [];
  }

  lemma Bars2(s: string)
    requires |s| == 2
    ensures Bars(s) == (if s[0] == '|' then 1 else 0) + (if s[1] == '|' then 1 else 0)
  {
    assert s[..|s| - 1] == s[..1];
    Bars1(s[..1]);
  }

  /** The start of the source's test: three bar-free patterns added to a
      fresh repository leave three separators, so the reported string splits
      on `|` into four alternatives plus the prefix's piece. */
  lemma ThreeAdditions(p1: string, p2: string, p3: string)
    requires Bars(p1) == 0 && Bars(p2) == 0 && Bars(p3) == 0
    ensures var r1 := AddIgnoredFileNameExp(Init(), p1).repo;
            var r2 := AddIgnoredFileNameExp(r1, p2).repo;
            var res := AddIgnoredFileNameExp(r2, p3);
            Bars(res.repo.ignoreExpressions) == 3 && Bars(res.message) == 3
  {
    BarsFree(InitialIgnore);
    BarsFree(RegexPrefix);
    var r1 := AddIgnoredFileNameExp(Init(), p1).repo;
    var r2 := AddIgnoredFileNameExp(r1, p2).repo;
    var res := AddIgnoredFileNameExp(r2, p3);
    BarsAppend(RegexPrefix, res.repo.ignoreExpressions);
  }

  lemma {:induction false} BarsFree(s: string)
    requires forall i :: 0 <= i < |s| ==> s[i] != '|'
    ensures Bars(s) == 0
    decreases |s|
  {
    if s != [] {
      BarsFree(s[..|s| - 1]);
    }
  }
}
