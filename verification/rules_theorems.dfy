/**
 Stage three read against its input records: which rules come out, in which
 order, and which names each rule excludes on which architecture.
 */
module RulesTheorems {
  import opened Seqs
  import opened Text
  import opened Assoc
  import opened Catalog
  import opened NoarchExcludes
  import opened ExcludeRules
  import opened ExcludeRulesFacts

  /** The repositories of the records, in record order (repeats kept). */
  function RecordRepos(recs: seq<Asymmetry>): seq<string> {
    ConcatMap(recs, (rec: Asymmetry) => [rec.repo])
  }

  /** `rules` has a rule for `repo` that lists `b` under `arch`. */
  ghost predicate Excludes(rules: seq<FilterRule>, repo: string, arch: string, b: string) {
    exists i, j :: 0 <= i < |rules| && 0 <= j < |rules[i].arches|
      && rules[i].repoMatch == "^" + repo + "$" && rules[i].arches[j].0 == arch && b in rules[i].arches[j].1
  }

  /** `^repo$` names its repository: different repositories get different keys. */
  lemma AnchoredInjective(x: string, y: string)
    requires "^" + x + "$" == "^" + y + "$"
    ensures x == y
  {
    assert x == ("^" + x + "$")[1..|x| + 1];
    assert y == ("^" + y + "$")[1..|y| + 1];
  }

  // ---------------------------------------------------------------------------
  // Marks, by membership
  // ---------------------------------------------------------------------------

  lemma MissInRecordMarks(rec: Asymmetry, m: Mark)
    ensures m in RecordMarks(rec) ==> m.repo == rec.repo
    ensures m.Miss? ==>
              (m in RecordMarks(rec) <==> m.repo == rec.repo && exists ms :: (m.na, ms) in rec.missing && m.arch in ms)
  {
    var g := (nm: (string, seq<string>)) => ConcatMap(nm.1, (a: string) => [Miss(rec.repo, a, nm.0)]);
    ConcatMapMember(rec.missing, g, m);
    if m in ConcatMap(rec.missing, g) {
      var nm :| nm in rec.missing && m in g(nm);
      ConcatMapMember(nm.1, (a: string) => [Miss(rec.repo, a, nm.0)], m);
    }
    if m.Miss? && m.repo == rec.repo && exists ms :: (m.na, ms) in rec.missing && m.arch in ms {
      var ms :| (m.na, ms) in rec.missing && m.arch in ms;
      var h := (a: string) => [Miss(rec.repo, a, m.na)];
      ConcatMapMember(ms, h, m);
      assert m in h(m.arch);
      assert m in g((m.na, ms));
    }
  }

  /** A missing artifact is marked exactly when some record of the repository lists
      it as missing on that architecture. */
  lemma MissInMarks(recs: seq<Asymmetry>, repo: string, arch: string, na: string)
    ensures Miss(repo, arch, na) in Marks(recs) <==>
              exists rec, ms :: rec in recs && rec.repo == repo && (na, ms) in rec.missing && arch in ms
  {
    var m := Miss(repo, arch, na);
    ConcatMapMember(recs, RecordMarks, m);
    if m in Marks(recs) {
      var rec :| rec in recs && m in RecordMarks(rec);
      MissInRecordMarks(rec, m);
    }
    if exists rec, ms :: rec in recs && rec.repo == repo && (na, ms) in rec.missing && arch in ms {
      var rec, ms :| rec in recs && rec.repo == repo && (na, ms) in rec.missing && arch in ms;
      MissInRecordMarks(rec, m);
    }
  }

  lemma NamesMarkedMember(ms: seq<Mark>, repo: string, arch: string, na: string)
    ensures na in NamesMarked(ms, repo, arch) <==> Miss(repo, arch, na) in ms
  {
    var f := (m: Mark) => if m.Miss? && m.repo == repo && m.arch == arch then [m.na] else [];
    ConcatMapMember(ms, f, na);
    if Miss(repo, arch, na) in ms {
      assert na in f(Miss(repo, arch, na));
    }
  }

  lemma ArchesMarkedMember(ms: seq<Mark>, repo: string, arch: string)
    ensures arch in ArchesMarked(ms, repo) <==> exists na :: Miss(repo, arch, na) in ms
  {
    var f := (m: Mark) => if m.Miss? && m.repo == repo then [m.arch] else [];
    ConcatMapMember(ms, f, arch);
    if arch in ArchesMarked(ms, repo) {
      var m :| m in ms && arch in f(m);
      assert m == Miss(repo, arch, m.na);
    }
    if exists na :: Miss(repo, arch, na) in ms {
      var na :| Miss(repo, arch, na) in ms;
      assert arch in f(Miss(repo, arch, na));
    }
  }

  lemma ReposMarkedMember(ms: seq<Mark>, repo: string)
    ensures repo in ReposMarked(ms) <==> exists m :: m in ms && m.repo == repo
  {
    var f := (m: Mark) => [m.repo];
    ConcatMapMember(ms, f, repo);
  }

  /** The marks of one record name its repository first, and no other. */
  lemma RecordMarksRepos(rec: Asymmetry)
    ensures ReposMarked(RecordMarks(rec)) == [rec.repo] + ReposMarked(RecordMarks(rec)[1..])
    ensures forall x :: x in ReposMarked(RecordMarks(rec)[1..]) ==> x == rec.repo
  {
    var r := rec.repo;
    var rest := RecordMarks(rec)[1..];
    assert RecordMarks(rec) == [Open(r)] + rest;
    ConcatMapAppend([Open(r)], rest, (m: Mark) => [m.repo]);
    assert ReposMarked([Open(r)]) == [r] by {
      assert [Open(r)][..0] == [];
    }
    forall x | x in ReposMarked(rest)
      ensures x == r
    {
      ReposMarkedMember(rest, x);
      var m :| m in rest && m.repo == x;
      assert m in RecordMarks(rec);
      MissInRecordMarks(rec, m);
    }
  }

  /** The repositories the marks name, de-duplicated, are those of the records. */
  lemma {:induction false} ReposMarkedRecords(recs: seq<Asymmetry>)
    ensures Dedup(ReposMarked(Marks(recs))) == Dedup(RecordRepos(recs))
  {
    if recs != [] {
      var recs', rec := recs[..|recs| - 1], recs[|recs| - 1];
      var r := rec.repo;
      ReposMarkedRecords(recs');
      var a := ReposMarked(Marks(recs'));
      var tail := ReposMarked(RecordMarks(rec)[1..]);
      assert Marks(recs) == Marks(recs') + RecordMarks(rec);
      ConcatMapAppend(Marks(recs'), RecordMarks(rec), (m: Mark) => [m.repo]);
      RecordMarksRepos(rec);
      assert ReposMarked(Marks(recs)) == (a + [r]) + tail;
      DedupAbsorb(a + [r], tail);
      DedupSnoc(a, r);
      DedupSnoc(RecordRepos(recs'), r);
      assert RecordRepos(recs) == RecordRepos(recs') + [r];
    }
  }

  // ---------------------------------------------------------------------------
  // The rules
  // ---------------------------------------------------------------------------

  lemma RecordReposMember(recs: seq<Asymmetry>, repo: string)
    ensures repo in RecordRepos(recs) <==> exists rec :: rec in recs && rec.repo == repo
  {
    ConcatMapMember(recs, (rec: Asymmetry) => [rec.repo], repo);
  }

  /** Lines 141-151 against the records: one rule per repository that has a
      record, each repository once, in the order its first record came; a
      repository without a record gets no rule. */
  lemma RulesRepos(recs: seq<Asymmetry>, repo: string)
    ensures var rules := Rules(RepoArchIndexOf(recs));
            var repos := Dedup(RecordRepos(recs));
            |rules| == |repos| && NoDup(repos)
            && (forall i :: 0 <= i < |rules| ==> rules[i].repoMatch == "^" + repos[i] + "$")
            && (repo in repos <==> exists rec :: rec in recs && rec.repo == repo)
  {
    var ms := Marks(recs);
    var rai := RunMarks(ms);
    RunMarksCharacterised(ms);
    ReposMarkedRecords(recs);
    RecordReposMember(recs, repo);
    var rules := Rules(rai);
    forall i | 0 <= i < |rules|
      ensures rules[i].repoMatch == "^" + Dedup(RecordRepos(recs))[i] + "$"
    {
      assert Keys(rai)[i] == rai[i].0;
    }
  }

  /** What the fold leaves for one repository and architecture. */
  lemma MarksIndexed(ms: seq<Mark>, repo: string, arch: string)
    ensures var rai := RunMarks(ms);
            Keys(rai) == Dedup(ReposMarked(ms)) && UniqueKeys(rai)
            && Keys(ArchTable(rai, repo)) == Dedup(ArchesMarked(ms, repo)) && UniqueKeys(ArchTable(rai, repo))
            && NamesAt(rai, repo, arch) == Dedup(NamesMarked(ms, repo, arch))
  {
    RunMarksCharacterised(ms);
  }

  /** The `i`-th rule's architecture table is the reference table of stripped,
      de-duplicated names, so no architecture appears twice in one rule. */
  lemma RuleTable(rai: RepoArchIndex, i: int)
    requires 0 <= i < |rai|
    requires UniqueKeys(rai) && UniqueKeys(ArchTable(rai, rai[i].0))
    ensures rai[i].1 == ArchTable(rai, rai[i].0)
    ensures Rules(rai)[i].arches == StrippedTable(rai[i].1) && UniqueKeys(Rules(rai)[i].arches)
  {
    GetIffPair(rai, rai[i].0, rai[i].1);
    FilterTupleStripped(rai[i].1);
    StrippedTableKeys(rai[i].1);
  }

  lemma StrippedMember(names: seq<string>, b: string)
    ensures b in Dedup(Stripped(names)) <==> exists na :: na in names && b == RemoveSuffix(na, ".noarch")
  {
    if b in Stripped(names) {
      var k :| 0 <= k < |names| && Stripped(names)[k] == b;
      assert names[k] in names;
    }
    if exists na :: na in names && b == RemoveSuffix(na, ".noarch") {
      var na :| na in names && b == RemoveSuffix(na, ".noarch");
      var k :| 0 <= k < |names| && names[k] == na;
      assert Stripped(names)[k] == b;
    }
  }

  /** The `j`-th architecture of the `i`-th rule, and what it excludes there. */
  lemma RuleNames(rai: RepoArchIndex, i: int, j: int, b: string)
    requires 0 <= i < |rai|
    requires UniqueKeys(rai) && UniqueKeys(ArchTable(rai, rai[i].0))
    requires 0 <= j < |rai[i].1|
    ensures |Rules(rai)[i].arches| == |rai[i].1|
    ensures Rules(rai)[i].arches[j].0 == rai[i].1[j].0
    ensures b in Rules(rai)[i].arches[j].1 <==>
              exists na :: na in NamesAt(rai, rai[i].0, rai[i].1[j].0) && b == RemoveSuffix(na, ".noarch")
  {
    RuleTable(rai, i);
    var t := rai[i].1;
    GetIffPair(t, t[j].0, t[j].1);
    StrippedMember(t[j].1, b);
  }

  /** Reading a rule: the names it excludes under an architecture come from the
      marks of that repository and architecture, stripped of `.noarch`. */
  lemma ExcludesFrom(ms: seq<Mark>, repo: string, arch: string, b: string)
    requires Excludes(Rules(RunMarks(ms)), repo, arch, b)
    ensures exists na :: Miss(repo, arch, na) in ms && b == RemoveSuffix(na, ".noarch")
  {
    var rai := RunMarks(ms);
    var rules := Rules(rai);
    var i, j :| 0 <= i < |rules| && 0 <= j < |rules[i].arches|
      && rules[i].repoMatch == "^" + repo + "$" && rules[i].arches[j].0 == arch && b in rules[i].arches[j].1;
    AnchoredInjective(rai[i].0, repo);
    MarksIndexed(ms, repo, arch);
    RuleTable(rai, i);
    RuleNames(rai, i, j, b);
    var na :| na in NamesAt(rai, repo, arch) && b == RemoveSuffix(na, ".noarch");
    NamesMarkedMember(ms, repo, arch, na);
  }

  /** Writing a rule: every mark of a repository and architecture makes its rule
      exclude the stripped name there. */
  lemma ExcludesTo(ms: seq<Mark>, repo: string, arch: string, na: string)
    requires Miss(repo, arch, na) in ms
    ensures Excludes(Rules(RunMarks(ms)), repo, arch, RemoveSuffix(na, ".noarch"))
  {
    var rai := RunMarks(ms);
    var rules := Rules(rai);
    MarksIndexed(ms, repo, arch);
    ReposMarkedMember(ms, repo);
    ArchesMarkedMember(ms, repo, arch);
    NamesMarkedMember(ms, repo, arch, na);
    assert repo in Keys(rai);
    var i :| 0 <= i < |rai| && Keys(rai)[i] == repo;
    var t := rai[i].1;
    RuleTable(rai, i);
    assert arch in Keys(t);
    var j :| 0 <= j < |t| && Keys(t)[j] == arch;
    var b := RemoveSuffix(na, ".noarch");
    RuleNames(rai, i, j, b);
    assert b in rules[i].arches[j].1;
  }

  /** Stage three as a whole: the rules exclude `b` on `arch` of `repo` exactly
      when some record of `repo` has an artifact missing on `arch` whose name,
      stripped of `.noarch`, is `b`. */
  lemma ExcludesIff(recs: seq<Asymmetry>, repo: string, arch: string, b: string)
    ensures Excludes(Rules(RepoArchIndexOf(recs)), repo, arch, b) <==>
              exists rec, na, archs :: rec in recs && rec.repo == repo && (na, archs) in rec.missing
                                       && arch in archs && b == RemoveSuffix(na, ".noarch")
  {
    if Excludes(Rules(RepoArchIndexOf(recs)), repo, arch, b) {
      ExcludesFrom(Marks(recs), repo, arch, b);
      var na :| Miss(repo, arch, na) in Marks(recs) && b == RemoveSuffix(na, ".noarch");
      MissInMarks(recs, repo, arch, na);
    }
    if exists rec, na, archs :: rec in recs && rec.repo == repo && (na, archs) in rec.missing
                                && arch in archs && b == RemoveSuffix(na, ".noarch") {
      var rec, na, archs :| rec in recs && rec.repo == repo && (na, archs) in rec.missing
                            && arch in archs && b == RemoveSuffix(na, ".noarch");
      MissInMarks(recs, repo, arch, na);
      ExcludesTo(Marks(recs), repo, arch, na);
    }
  }

  /** No rule lists an architecture without names: an architecture enters
      `repo_arch_index` only together with a missing artifact. */
  lemma RuleGlobsNonEmpty(recs: seq<Asymmetry>, i: int, j: int)
    requires 0 <= i < |Rules(RepoArchIndexOf(recs))|
    requires 0 <= j < |Rules(RepoArchIndexOf(recs))[i].arches|
    ensures Rules(RepoArchIndexOf(recs))[i].arches[j].1 != []
  {
    var ms := Marks(recs);
    var rai := RunMarks(ms);
    var repo := rai[i].0;
    MarksIndexed(ms, repo, "");
    RuleTable(rai, i);
    var t := rai[i].1;
    var arch := t[j].0;
    assert Keys(t)[j] == arch;
    ArchesMarkedMember(ms, repo, arch);
    var na :| Miss(repo, arch, na) in ms;
    NamesMarkedMember(ms, repo, arch, na);
    MarksIndexed(ms, repo, arch);
    GetIffPair(t, arch, t[j].1);
    RuleNames(rai, i, j, RemoveSuffix(na, ".noarch"));
  }

  /** A rule has an architecture when the records of its repository list some
      artifact as missing somewhere, as every record of stage two does. */
  lemma RuleHasArch(recs: seq<Asymmetry>, i: int)
    requires 0 <= i < |Rules(RepoArchIndexOf(recs))|
    requires forall rec :: rec in recs ==> exists na, archs :: (na, archs) in rec.missing && archs != []
    ensures Rules(RepoArchIndexOf(recs))[i].arches != []
  {
    var ms := Marks(recs);
    var rai := RunMarks(ms);
    var repo := rai[i].0;
    MarksIndexed(ms, repo, "");
    ReposMarkedRecords(recs);
    assert Keys(rai)[i] == repo;
    RecordReposMember(recs, repo);
    var rec :| rec in recs && rec.repo == repo;
    var na, archs :| (na, archs) in rec.missing && archs != [];
    var arch := archs[0];
    assert arch in archs;
    MissInMarks(recs, repo, arch, na);
    assert Miss(repo, arch, na) in ms;
    ArchesMarkedMember(ms, repo, arch);
    assert arch in ArchesMarked(ms, repo);
    assert arch in Keys(ArchTable(rai, repo));
    RuleTable(rai, i);
    assert rai[i].1 != [];
  }
}
