/**
 Stage two read against the input: which records `arch_specific_excludes`
 ends up holding, stated in terms of what `gpjson` lists.
 */
module RecordTheorems {
  import opened Seqs
  import opened Text
  import opened Assoc
  import opened Prepopulate
  import opened ArtifactIndex
  import opened NoarchExcludes
  import opened NoarchFacts
  import opened IndexTheorems
  import opened Synthesis

  /** The index keeps unique keys at both levels. */
  lemma IndexUnique(gp: Gather)
    requires WellFormed(gp)
    ensures UniqueKeys(BuildIndex(gp).index)
    ensures forall p :: UniqueKeys(RepoTable(BuildIndex(gp).index, p))
  {
    IndexedPackages(gp, "");
    forall p
      ensures UniqueKeys(RepoTable(BuildIndex(gp).index, p))
    {
      IndexedRepos(gp, p, "");
    }
  }

  /** An architecture under which a package lists anything is one of `all_arches`. */
  lemma ObservedArch(gp: Gather, repo: string, a: string, pkg: string, na: string)
    requires Observed(gp, repo, a, pkg, na)
    ensures a in BuildIndex(gp).allArches
  {
    var am := Get(gp, repo).value;
    AllArches(gp, a);
  }

  /** The record of a package and repository, when there is one, lists exactly
      its missing noarch artifacts; read from the record side. An artifact is
      never missing everywhere: the architecture it was seen on is not listed. */
  lemma RecordFrom(gp: Gather, rec: Asymmetry, na: string, archs: seq<string>)
    requires WellFormed(gp)
    requires rec in Records(gp) && (na, archs) in rec.missing
    ensures EndsWith(na, ".noarch") && (exists a :: Observed(gp, rec.repo, a, rec.pkg, na))
    ensures archs == Missing(gp, BuildIndex(gp).allArches, rec.repo, rec.pkg, na) && archs != []
    ensures NoDup(archs) && exists a :: a in BuildIndex(gp).allArches && a !in archs
  {
    var s := BuildIndex(gp);
    var e := EntryAt(s.index, rec.pkg, rec.repo);
    IndexUnique(gp);
    AsymmetriesMember(gp, s.allArches, s.index, rec);
    IncludeFilter(gp, rec.pkg, rec.repo, na);
    PairAsymmetryIff(gp, s.allArches, rec.pkg, rec.repo, e);
    var t := MissingTable(gp, s.allArches, rec.repo, rec.pkg, NoarchOf(e.includeFilter));
    assert rec.missing == t;
    var i :| 0 <= i < |t| && t[i] == (na, archs);
    assert Keys(t)[i] == na;
    var a :| Observed(gp, rec.repo, a, rec.pkg, na);
    ObservedArch(gp, rec.repo, a, rec.pkg, na);
    AllArches(gp, a);
  }

  lemma MissingTableHas(gp: Gather, all: seq<string>, repo: string, pkg: string, nas: seq<string>, na: string)
    requires na in nas && Missing(gp, all, repo, pkg, na) != []
    ensures (na, Missing(gp, all, repo, pkg, na)) in MissingTable(gp, all, repo, pkg, nas)
  {
    var t := MissingTable(gp, all, repo, pkg, nas);
    assert na in Keys(t);
    var i :| 0 <= i < |t| && Keys(t)[i] == na;
    assert t[i] == (na, Missing(gp, all, repo, pkg, na));
  }

  /** A pair of the index with a record contributes it to stage two's records. */
  lemma PairRecorded(gp: Gather, pkg: string, repo: string, rec: Asymmetry)
    requires WellFormed(gp)
    requires repo in Keys(RepoTable(BuildIndex(gp).index, pkg))
    requires rec in PairAsymmetry(gp, BuildIndex(gp).allArches, pkg, repo, EntryAt(BuildIndex(gp).index, pkg, repo))
    ensures rec in Records(gp) && rec.pkg == pkg && rec.repo == repo
  {
    var s := BuildIndex(gp);
    IndexUnique(gp);
    AsymmetriesMember(gp, s.allArches, s.index, rec);
    PairAsymmetryShape(gp, s.allArches, pkg, repo, EntryAt(s.index, pkg, repo), rec);
  }

  /** Read from the input side: a noarch artifact listed for a package in a
      repository and missing on some architecture of `all_arches` appears in
      that pair's record, with the list of where. */
  lemma RecordTo(gp: Gather, pkg: string, repo: string, na: string, a: string)
    requires WellFormed(gp)
    requires EndsWith(na, ".noarch") && Observed(gp, repo, a, pkg, na)
    requires Missing(gp, BuildIndex(gp).allArches, repo, pkg, na) != []
    ensures exists rec :: rec in Records(gp) && rec.pkg == pkg && rec.repo == repo
                          && (na, Missing(gp, BuildIndex(gp).allArches, repo, pkg, na)) in rec.missing
  {
    var s := BuildIndex(gp);
    var all := s.allArches;
    var e := EntryAt(s.index, pkg, repo);
    var archs := Missing(gp, all, repo, pkg, na);
    IncludeFilter(gp, pkg, repo, na);
    IndexedRepos(gp, pkg, repo);
    var m := archs[0];
    assert m in archs;
    assert na in e.includeFilter && m in all && !Observed(gp, repo, m, pkg, na);
    PairAsymmetryIff(gp, all, pkg, repo, e);
    var nas := NoarchOf(e.includeFilter);
    var rec := Asymmetry(pkg, repo, MissingTable(gp, all, repo, pkg, nas));
    assert rec in PairAsymmetry(gp, all, pkg, repo, e);
    PairRecorded(gp, pkg, repo, rec);
    MissingTableHas(gp, all, repo, pkg, nas, na);
  }

  /** Stage two against the input: a record of a package and repository lists
      `na` with the architectures `archs` exactly when `na` is a noarch artifact
      the package lists in the repository under some architecture, and `archs`
      are the architectures of `all_arches` that do not list it, of which there
      is at least one. */
  lemma RecordIff(gp: Gather, pkg: string, repo: string, na: string, archs: seq<string>)
    requires WellFormed(gp)
    ensures (exists rec :: rec in Records(gp) && rec.pkg == pkg && rec.repo == repo && (na, archs) in rec.missing)
            <==> EndsWith(na, ".noarch") && (exists a :: Observed(gp, repo, a, pkg, na))
                 && archs == Missing(gp, BuildIndex(gp).allArches, repo, pkg, na) && archs != []
  {
    if exists rec :: rec in Records(gp) && rec.pkg == pkg && rec.repo == repo && (na, archs) in rec.missing {
      var rec :| rec in Records(gp) && rec.pkg == pkg && rec.repo == repo && (na, archs) in rec.missing;
      RecordFrom(gp, rec, na, archs);
    }
    if EndsWith(na, ".noarch") && (exists a :: Observed(gp, repo, a, pkg, na))
       && archs == Missing(gp, BuildIndex(gp).allArches, repo, pkg, na) && archs != [] {
      var a :| Observed(gp, repo, a, pkg, na);
      RecordTo(gp, pkg, repo, na, a);
    }
  }
}
