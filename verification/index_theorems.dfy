/**
 Stage one read against the input: which architectures, packages, repositories,
 artifacts and multilib architectures the artifact index holds, stated in
 terms of what `gpjson` lists.
 */
module IndexTheorems {
  import opened Seqs
  import opened Assoc
  import opened Prepopulate
  import opened PrepopulateFacts
  import opened ArtifactIndex
  import opened ArtifactIndexFacts
  import opened WalkMembers

  /** A package visit of the walk, read as a lookup in the input. */
  lemma VisitListed(gp: Gather, r: string, a: string, p: string, nas: seq<string>)
    requires WellFormed(gp)
    ensures Visit(r, a, p, nas) in Events(gp) <==> Listed(gp, r, a, p) == Some(nas)
  {
    VisitInEvents(gp, r, a, p, nas);
    ListedIffPair(gp, r, a, p, nas);
  }

  // ---------------------------------------------------------------------------
  // Stage one against the input
  // ---------------------------------------------------------------------------

  /** `all_arches` is every architecture key of every repository, each once, in
      the order first met walking the repositories and their architectures. */
  lemma AllArches(gp: Gather, x: string)
    ensures BuildIndex(gp).allArches == Dedup(ArchStream(gp))
    ensures NoDup(BuildIndex(gp).allArches)
    ensures x in BuildIndex(gp).allArches <==> exists r, am :: (r, am) in gp && x in Keys(am)
  {
    var es := Events(gp);
    RunCharacterised(es);
    assert ArchesSeen(BuildIndex(gp), es);
    ArchesOfEvents(gp);
    ArchSeenInEvents(gp, x);
    ArchesOfMember(es, x);
  }

  /** The package keys are every package listed anywhere, each once, in the order
      first met walking the input. */
  lemma IndexedPackages(gp: Gather, p: string)
    requires WellFormed(gp)
    ensures Keys(BuildIndex(gp).index) == Dedup(PackageStream(gp))
    ensures UniqueKeys(BuildIndex(gp).index)
    ensures p in Keys(BuildIndex(gp).index) <==> exists r, a :: Listed(gp, r, a, p).Some?
  {
    var es := Events(gp);
    RunCharacterised(es);
    PackagesOfEvents(gp);
    PackagesOfMember(es, p);
    if exists r, a, nas :: Visit(r, a, p, nas) in es {
      var r, a, nas :| Visit(r, a, p, nas) in es;
      VisitListed(gp, r, a, p, nas);
    }
    if exists r, a :: Listed(gp, r, a, p).Some? {
      var r, a :| Listed(gp, r, a, p).Some?;
      VisitListed(gp, r, a, p, Listed(gp, r, a, p).value);
    }
  }

  /** A package's repository keys are the repositories that list it under some
      architecture, even with an empty artifact list, each once. */
  lemma IndexedRepos(gp: Gather, p: string, r: string)
    requires WellFormed(gp)
    ensures UniqueKeys(RepoTable(BuildIndex(gp).index, p))
    ensures r in Keys(RepoTable(BuildIndex(gp).index, p)) <==> exists a :: Listed(gp, r, a, p).Some?
  {
    var es := Events(gp);
    RunCharacterised(es);
    ReposOfMember(es, p, r);
    if exists a, nas :: Visit(r, a, p, nas) in es {
      var a, nas :| Visit(r, a, p, nas) in es;
      VisitListed(gp, r, a, p, nas);
    }
    if exists a :: Listed(gp, r, a, p).Some? {
      var a :| Listed(gp, r, a, p).Some?;
      VisitListed(gp, r, a, p, Listed(gp, r, a, p).value);
    }
  }

  /** An entry's `include_filter` holds exactly the artifact names listed for the
      package in the repository under any architecture, each once. */
  lemma IncludeFilter(gp: Gather, p: string, r: string, na: string)
    requires WellFormed(gp)
    ensures NoDup(EntryAt(BuildIndex(gp).index, p, r).includeFilter)
    ensures na in EntryAt(BuildIndex(gp).index, p, r).includeFilter <==> exists a :: Observed(gp, r, a, p, na)
  {
    var es := Events(gp);
    RunCharacterised(es);
    ArtifactsOfMember(es, p, r, na);
    if exists a, nas :: Visit(r, a, p, nas) in es && na in nas {
      var a, nas :| Visit(r, a, p, nas) in es && na in nas;
      VisitListed(gp, r, a, p, nas);
      assert Observed(gp, r, a, p, na);
    }
    if exists a :: Observed(gp, r, a, p, na) {
      var a :| Observed(gp, r, a, p, na);
      VisitListed(gp, r, a, p, Listed(gp, r, a, p).value);
    }
  }

  /** An entry's `multilib` holds exactly the architectures under which the
      package lists, in the repository, an artifact of an architecture that is
      neither that one nor `noarch`; each once. */
  lemma Multilib(gp: Gather, p: string, r: string, a: string)
    requires WellFormed(gp)
    ensures NoDup(EntryAt(BuildIndex(gp).index, p, r).multilib)
    ensures a in EntryAt(BuildIndex(gp).index, p, r).multilib <==>
              exists na :: Observed(gp, r, a, p, na) && Foreign(a, na)
  {
    var es := Events(gp);
    RunCharacterised(es);
    MultilibOfFrom(es, p, r, a);
    if a in MultilibOf(es, p, r) {
      var nas :| Visit(r, a, p, nas) in es && HasForeign(a, nas);
      VisitListed(gp, r, a, p, nas);
      var na :| na in nas && Foreign(a, na);
      assert Observed(gp, r, a, p, na);
    }
    if exists na :: Observed(gp, r, a, p, na) && Foreign(a, na) {
      var na :| Observed(gp, r, a, p, na) && Foreign(a, na);
      var nas := Listed(gp, r, a, p).value;
      VisitListed(gp, r, a, p, nas);
      assert HasForeign(a, nas);
      MultilibOfTo(es, p, r, a);
    }
  }
}
