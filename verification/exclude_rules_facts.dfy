/**
 What the fold of lines 127-138 computes: every list of `repo_arch_index` is
 the first-seen de-duplication of what the marks offer it.
 */
module ExcludeRulesFacts {
  import opened Seqs
  import opened Assoc
  import opened ExcludeRules

  lemma MarkProjectionsSnoc(ms: seq<Mark>, m: Mark, repo: string, arch: string)
    ensures ReposMarked(ms + [m]) == ReposMarked(ms) + [m.repo]
    ensures ArchesMarked(ms + [m], repo) ==
              ArchesMarked(ms, repo) + (if m.Miss? && m.repo == repo then [m.arch] else [])
    ensures NamesMarked(ms + [m], repo, arch) ==
              NamesMarked(ms, repo, arch) + (if m.Miss? && m.repo == repo && m.arch == arch then [m.na] else [])
  {
    assert (ms + [m])[..|ms|] == ms;
  }

  /** How a mark changes the index, table by table. */
  lemma MarkStepTables(rai: RepoArchIndex, m: Mark, repo: string)
    ensures Keys(MarkStep(rai, m)) == AppendUnique(Keys(rai), m.repo)
    ensures UniqueKeys(rai) ==> UniqueKeys(MarkStep(rai, m))
    ensures ArchTable(MarkStep(rai, m), repo) ==
              if m.Miss? && repo == m.repo then
                var t := ArchTable(rai, repo);
                var t' := if m.arch in Keys(t) then t else Put(t, m.arch, []);
                Put(t', m.arch, AppendUnique(NamesAt(rai, repo, m.arch), m.na))
              else ArchTable(rai, repo)
  {
    if m.Miss? && repo == m.repo {
      var t := ArchTable(rai, repo);
      var t' := if m.arch in Keys(t) then t else Put(t, m.arch, []);
      assert GetOr(t', m.arch, []) == NamesAt(rai, repo, m.arch);
    }
  }

  lemma MarkStepArchKeys(rai: RepoArchIndex, m: Mark, repo: string)
    ensures Keys(ArchTable(MarkStep(rai, m), repo)) ==
              if m.Miss? && repo == m.repo then AppendUnique(Keys(ArchTable(rai, repo)), m.arch)
              else Keys(ArchTable(rai, repo))
    ensures UniqueKeys(ArchTable(rai, repo)) ==> UniqueKeys(ArchTable(MarkStep(rai, m), repo))
  {
    MarkStepTables(rai, m, repo);
  }

  lemma MarkStepNames(rai: RepoArchIndex, m: Mark, repo: string, arch: string)
    ensures NamesAt(MarkStep(rai, m), repo, arch) ==
              if m.Miss? && repo == m.repo && arch == m.arch then AppendUnique(NamesAt(rai, repo, arch), m.na)
              else NamesAt(rai, repo, arch)
  {
    MarkStepTables(rai, m, repo);
  }

  lemma MarkStepRepos(rai: RepoArchIndex, ms: seq<Mark>, m: Mark)
    requires RaiRepos(rai, ms)
    ensures RaiRepos(MarkStep(rai, m), ms + [m])
  {
    MarkStepTables(rai, m, "");
    MarkProjectionsSnoc(ms, m, "", "");
    DedupSnoc(ReposMarked(ms), m.repo);
  }

  lemma MarkStepArch(rai: RepoArchIndex, ms: seq<Mark>, m: Mark, repo: string)
    requires Keys(ArchTable(rai, repo)) == Dedup(ArchesMarked(ms, repo)) && UniqueKeys(ArchTable(rai, repo))
    ensures var t := ArchTable(MarkStep(rai, m), repo);
            Keys(t) == Dedup(ArchesMarked(ms + [m], repo)) && UniqueKeys(t)
  {
    MarkStepArchKeys(rai, m, repo);
    MarkProjectionsSnoc(ms, m, repo, "");
    if m.Miss? && repo == m.repo {
      DedupSnoc(ArchesMarked(ms, repo), m.arch);
    } else {
      assert ArchesMarked(ms + [m], repo) == ArchesMarked(ms, repo);
    }
  }

  lemma MarkStepArches(rai: RepoArchIndex, ms: seq<Mark>, m: Mark)
    requires RaiArches(rai, ms)
    ensures RaiArches(MarkStep(rai, m), ms + [m])
  {
    forall repo
      ensures var t := ArchTable(MarkStep(rai, m), repo);
              Keys(t) == Dedup(ArchesMarked(ms + [m], repo)) && UniqueKeys(t)
    {
      MarkStepArch(rai, ms, m, repo);
    }
  }

  lemma MarkStepName(rai: RepoArchIndex, ms: seq<Mark>, m: Mark, repo: string, arch: string)
    requires NamesAt(rai, repo, arch) == Dedup(NamesMarked(ms, repo, arch))
    ensures NamesAt(MarkStep(rai, m), repo, arch) == Dedup(NamesMarked(ms + [m], repo, arch))
  {
    MarkStepNames(rai, m, repo, arch);
    MarkProjectionsSnoc(ms, m, repo, arch);
    if m.Miss? && repo == m.repo && arch == m.arch {
      DedupSnoc(NamesMarked(ms, repo, arch), m.na);
    } else {
      assert NamesMarked(ms + [m], repo, arch) == NamesMarked(ms, repo, arch);
    }
  }

  lemma MarkStepNamesAll(rai: RepoArchIndex, ms: seq<Mark>, m: Mark)
    requires RaiNames(rai, ms)
    ensures RaiNames(MarkStep(rai, m), ms + [m])
  {
    forall repo, arch
      ensures NamesAt(MarkStep(rai, m), repo, arch) == Dedup(NamesMarked(ms + [m], repo, arch))
    {
      MarkStepName(rai, ms, m, repo, arch);
    }
  }

  /** The fold of lines 128-138, mark by mark: the repository keys, the
      architecture keys of each repository and the names of each architecture are
      the first-seen de-duplications of what the marks offered them. */
  lemma {:induction false} RunMarksCharacterised(ms: seq<Mark>)
    ensures RaiCharacterised(RunMarks(ms), ms)
  {
    if ms != [] {
      var ms', m := ms[..|ms| - 1], ms[|ms| - 1];
      RunMarksCharacterised(ms');
      SplitLast(ms);
      MarkStepRepos(RunMarks(ms'), ms', m);
      MarkStepArches(RunMarks(ms'), ms', m);
      MarkStepNamesAll(RunMarks(ms'), ms', m);
    }
  }

  /** One more architecture, not yet in `filter_tuple`, adds its stripped names at the end. */
  lemma FilterTupleFresh(t: Assoc<string, seq<string>>)
    requires t != []
    requires t[|t| - 1].0 !in Keys(FilterTuple(t[..|t| - 1]))
    ensures FilterTuple(t) == FilterTuple(t[..|t| - 1]) + [(t[|t| - 1].0, Dedup(Stripped(t[|t| - 1].1)))]
  {
    var ft, arch, names := FilterTuple(t[..|t| - 1]), t[|t| - 1].0, t[|t| - 1].1;
    assert Put(ft, arch, []) == ft + [(arch, [])];
    GetAppend(ft, arch, [], arch);
    PutLast(ft, arch, [], AppendAll([], Stripped(names)));
    AppendAllDedup([], Stripped(names));
    assert [] + Stripped(names) == Stripped(names);
  }

  lemma StrippedTableLast(t: Assoc<string, seq<string>>)
    requires t != []
    ensures StrippedTable(t) == StrippedTable(t[..|t| - 1]) + [(t[|t| - 1].0, Dedup(Stripped(t[|t| - 1].1)))]
  {
  }

  lemma StrippedTableKeys(t: Assoc<string, seq<string>>)
    ensures Keys(StrippedTable(t)) == Keys(t)
  {
  }

  /** For an architecture table with unique keys, the loop of lines 143-150 builds
      the reference table: each architecture once, in order, with its names
      stripped of `.noarch` and de-duplicated. */
  lemma {:induction false} FilterTupleStripped(t: Assoc<string, seq<string>>)
    requires UniqueKeys(t)
    ensures FilterTuple(t) == StrippedTable(t)
  {
    if t != [] {
      var t' := t[..|t| - 1];
      UniqueKeysLast(t);
      FilterTupleStripped(t');
      StrippedTableKeys(t');
      FilterTupleFresh(t);
      StrippedTableLast(t);
    }
  }
}
