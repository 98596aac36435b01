/**
 The synthesized catalog read against the configuration and the
 `gather_prepopulate` document it was built from.
 */
module SynthesisTheorems {
  import opened Seqs
  import opened Text
  import opened Assoc
  import opened Catalog
  import opened Prepopulate
  import opened ArtifactIndex
  import opened NoarchExcludes
  import opened ExcludeRules
  import opened RulesTheorems
  import opened IndexTheorems
  import opened RecordTheorems
  import opened Synthesis

  /** Where each part of the catalog comes from: the configured lists are copied
      in, the noarch rules follow `filter_packages`, and the packages are those
      of the index, in order. */
  lemma SynthesizedParts(gp: Gather, whitelist: seq<string>, blacklist: seq<string>,
                         filterPackages: seq<FilterRule>, additionalPackages: seq<FilterRule>)
    ensures var c := Synthesize(gp, whitelist, blacklist, filterPackages, additionalPackages);
            c.additionalMultilib == whitelist && c.excludeMultilibFilter == blacklist
            && c.includeFilter == additionalPackages
            && c.excludeFilter == filterPackages + NoarchRules(gp)
            && c.packages == PackageEntries(BuildIndex(gp).index)
  {
    var rules := NoarchRules(gp);
    var ps := PackageEntries(BuildIndex(gp).index);
    var configured := CatalogSync(whitelist, blacklist, filterPackages + rules, additionalPackages, []);
    assert [] + whitelist == whitelist && [] + blacklist == blacklist;
    assert [] + filterPackages == filterPackages && [] + additionalPackages == additionalPackages;
    assert Synthesize(gp, whitelist, blacklist, filterPackages, additionalPackages) == AddPackages(configured, ps);
    AddPackagesAppends(configured, ps);
    assert [] + ps == ps;
  }

  /** The catalog lists every package the input lists anywhere, once each, in
      the order first met; a name starting with `rocky-` is typed as Rocky's own
      source and every other one as a fork; no package has module components. */
  lemma SynthesizedPackages(gp: Gather, whitelist: seq<string>, blacklist: seq<string>,
                            filterPackages: seq<FilterRule>, additionalPackages: seq<FilterRule>, p: string)
    requires WellFormed(gp)
    ensures var ps := Synthesize(gp, whitelist, blacklist, filterPackages, additionalPackages).packages;
            var names := Dedup(PackageStream(gp));
            |ps| == |names|
            && (forall i :: 0 <= i < |ps| ==> ps[i].name == names[i])
            && ((exists i :: 0 <= i < |ps| && ps[i].name == p) <==> exists r, a :: Listed(gp, r, a, p).Some?)
            && (forall i :: 0 <= i < |ps| ==>
                  (ps[i].packageType == PackageTypeNormalSrc <==> StartsWith(ps[i].name, "rocky-"))
                  && (ps[i].packageType == PackageTypeNormalSrc || ps[i].packageType == PackageTypeNormalFork)
                  && ps[i].moduleComponents == [])
  {
    SynthesizedParts(gp, whitelist, blacklist, filterPackages, additionalPackages);
    IndexedPackages(gp, p);
    PackageEntriesNames(BuildIndex(gp).index, p);
  }

  /** Stage four on its own: one package per index key, in key order, typed by
      its name. */
  lemma PackageEntriesNames(idx: Index, p: string)
    ensures var ps := PackageEntries(idx);
            (forall i :: 0 <= i < |ps| ==> ps[i].name == Keys(idx)[i])
            && ((exists i :: 0 <= i < |ps| && ps[i].name == p) <==> p in Keys(idx))
            && (forall i :: 0 <= i < |ps| ==>
                  (ps[i].packageType == PackageTypeNormalSrc <==> StartsWith(ps[i].name, "rocky-"))
                  && (ps[i].packageType == PackageTypeNormalSrc || ps[i].packageType == PackageTypeNormalFork)
                  && ps[i].moduleComponents == [])
  {
    var ps := PackageEntries(idx);
    if exists i :: 0 <= i < |ps| && ps[i].name == p {
      var i :| 0 <= i < |ps| && ps[i].name == p;
      assert Keys(idx)[i] == p;
    }
    if p in Keys(idx) {
      var i :| 0 <= i < |idx| && Keys(idx)[i] == p;
      assert ps[i].name == p;
    }
  }

  /** One catalog package against the index entry it was made from. */
  lemma PackageFromIndex(gp: Gather, i: int)
    requires WellFormed(gp)
    requires 0 <= i < |BuildIndex(gp).index|
    ensures var idx := BuildIndex(gp).index;
            var pk := PackageEntries(idx)[i];
            idx[i].1 == RepoTable(idx, pk.name) && pk.repositories == RepoRecords(idx[i].1)
  {
    var idx := BuildIndex(gp).index;
    IndexedPackages(gp, "");
    GetIffPair(idx, idx[i].0, idx[i].1);
  }

  /** One repository record against the entry it was made from. */
  lemma RepositoryFromIndex(repos: Assoc<string, Entry>, k: int)
    requires UniqueKeys(repos) && 0 <= k < |repos|
    ensures var rr := RepoRecords(repos)[k];
            rr.name == Keys(repos)[k]
            && rr.includeFilter == GetOr(repos, rr.name, NoEntry).includeFilter
            && rr.multilib == GetOr(repos, rr.name, NoEntry).multilib
  {
    GetIffPair(repos, repos[k].0, repos[k].1);
  }

  /** The repository records of a table with unique keys: one per key, named
      after it, carrying its entry's lists. */
  lemma RepoRecordsTable(repos: Assoc<string, Entry>, r: string)
    requires UniqueKeys(repos)
    ensures var rs := RepoRecords(repos);
            ((exists k :: 0 <= k < |rs| && rs[k].name == r) <==> r in Keys(repos))
            && (forall k, l :: 0 <= k < l < |rs| ==> rs[k].name != rs[l].name)
            && (forall k :: 0 <= k < |rs| && rs[k].name == r ==>
                  rs[k].includeFilter == GetOr(repos, r, NoEntry).includeFilter
                  && rs[k].multilib == GetOr(repos, r, NoEntry).multilib)
  {
    var rs := RepoRecords(repos);
    forall k | 0 <= k < |rs|
      ensures rs[k].name == Keys(repos)[k]
      ensures rs[k].name == r ==> rs[k].includeFilter == GetOr(repos, r, NoEntry).includeFilter
                                  && rs[k].multilib == GetOr(repos, r, NoEntry).multilib
    {
      RepositoryFromIndex(repos, k);
    }
    if r in Keys(repos) {
      var k :| 0 <= k < |repos| && Keys(repos)[k] == r;
      assert rs[k].name == r;
    }
  }

  /** The repository records `rs` of package `pkg` agree with the input: a
      record for `r` exists exactly when some architecture of `r` lists the
      package, no repository has two records, and the record for `r` lists, each
      once, the names `r` lists for the package under any architecture
      (`include_filter`) and the architectures under which it lists an artifact
      of another architecture that is not `noarch` (`multilib`). Stated for the
      repository `r`, the name `na` and the architecture `a`. */
  ghost predicate RepositoriesListed(gp: Gather, pkg: string, rs: seq<Repository>, r: string, na: string, a: string) {
    ((exists k :: 0 <= k < |rs| && rs[k].name == r) <==> exists a' :: Listed(gp, r, a', pkg).Some?)
    && (forall k, l :: 0 <= k < l < |rs| ==> rs[k].name != rs[l].name)
    && (forall k :: 0 <= k < |rs| && rs[k].name == r ==>
          NoDup(rs[k].includeFilter) && NoDup(rs[k].multilib)
          && (na in rs[k].includeFilter <==> exists a' :: Observed(gp, r, a', pkg, na))
          && (a in rs[k].multilib <==> exists na' :: Observed(gp, r, a, pkg, na') && Foreign(a, na')))
  }

  /** Stage four's repository records for one package of the index agree with the input. */
  lemma TableRepositories(gp: Gather, p: string, r: string, na: string, a: string)
    requires WellFormed(gp)
    ensures RepositoriesListed(gp, p, RepoRecords(RepoTable(BuildIndex(gp).index, p)), r, na, a)
  {
    var idx := BuildIndex(gp).index;
    IndexedRepos(gp, p, r);
    IncludeFilter(gp, p, r, na);
    Multilib(gp, p, r, a);
    RepoRecordsTable(RepoTable(idx, p), r);
  }

  /** A catalog package's repositories are those that list it under some
      architecture, once each, and each carries exactly the names and multilib
      architectures the input lists for the package there. */
  lemma SynthesizedRepositories(gp: Gather, whitelist: seq<string>, blacklist: seq<string>,
                                filterPackages: seq<FilterRule>, additionalPackages: seq<FilterRule>,
                                i: int, r: string, na: string, a: string)
    requires WellFormed(gp)
    requires 0 <= i < |Synthesize(gp, whitelist, blacklist, filterPackages, additionalPackages).packages|
    ensures var pk := Synthesize(gp, whitelist, blacklist, filterPackages, additionalPackages).packages[i];
            RepositoriesListed(gp, pk.name, pk.repositories, r, na, a)
  {
    SynthesizedParts(gp, whitelist, blacklist, filterPackages, additionalPackages);
    var idx := BuildIndex(gp).index;
    PackageFromIndex(gp, i);
    TableRepositories(gp, idx[i].0, r, na, a);
  }

  // ---------------------------------------------------------------------------
  // The noarch exclude rules, end to end
  // ---------------------------------------------------------------------------

  /** Some package lists, in `repo`, a noarch artifact named `b` plus `.noarch`
      under some architecture but not under `arch`, where `arch` is an
      architecture key of some repository of the input. */
  ghost predicate NoarchGap(gp: Gather, repo: string, arch: string, b: string) {
    exists pkg, na :: EndsWith(na, ".noarch") && (exists a :: Observed(gp, repo, a, pkg, na))
                      && (exists r, am :: (r, am) in gp && arch in Keys(am))
                      && !Observed(gp, repo, arch, pkg, na) && b == RemoveSuffix(na, ".noarch")
  }

  /** Reading the rules: whatever they exclude is a noarch gap of the input. */
  lemma NoarchExcludedFrom(gp: Gather, repo: string, arch: string, b: string)
    requires WellFormed(gp)
    ensures Excludes(NoarchRules(gp), repo, arch, b) ==> NoarchGap(gp, repo, arch, b)
  {
    if Excludes(NoarchRules(gp), repo, arch, b) {
      ExcludesIff(Records(gp), repo, arch, b);
      var rec, na, archs :| rec in Records(gp) && rec.repo == repo && (na, archs) in rec.missing
                            && arch in archs && b == RemoveSuffix(na, ".noarch");
      RecordFrom(gp, rec, na, archs);
      AllArches(gp, arch);
    }
  }

  lemma NoarchExcludedTo(gp: Gather, repo: string, arch: string, pkg: string, na: string, a: string)
    requires WellFormed(gp)
    requires EndsWith(na, ".noarch") && Observed(gp, repo, a, pkg, na)
    requires arch in BuildIndex(gp).allArches && !Observed(gp, repo, arch, pkg, na)
    ensures Excludes(NoarchRules(gp), repo, arch, RemoveSuffix(na, ".noarch"))
  {
    var archs := Missing(gp, BuildIndex(gp).allArches, repo, pkg, na);
    assert arch in archs;
    RecordTo(gp, pkg, repo, na, a);
    ExcludesIff(Records(gp), repo, arch, RemoveSuffix(na, ".noarch"));
  }

  /** Writing the rules: every noarch gap of the input is excluded. */
  lemma NoarchExcludedWitness(gp: Gather, repo: string, arch: string, b: string)
    requires WellFormed(gp)
    ensures NoarchGap(gp, repo, arch, b) ==> Excludes(NoarchRules(gp), repo, arch, b)
  {
    if NoarchGap(gp, repo, arch, b) {
      var pkg, na :| EndsWith(na, ".noarch") && (exists a :: Observed(gp, repo, a, pkg, na))
                     && (exists r, am :: (r, am) in gp && arch in Keys(am))
                     && !Observed(gp, repo, arch, pkg, na) && b == RemoveSuffix(na, ".noarch");
      var a :| Observed(gp, repo, a, pkg, na);
      AllArches(gp, arch);
      NoarchExcludedTo(gp, repo, arch, pkg, na, a);
    }
  }

  /** Stages one to three together, on the input alone: the noarch rules exclude
      exactly the noarch gaps. */
  lemma NoarchExcludedIff(gp: Gather, repo: string, arch: string, b: string)
    requires WellFormed(gp)
    ensures Excludes(NoarchRules(gp), repo, arch, b) <==> NoarchGap(gp, repo, arch, b)
  {
    NoarchExcludedFrom(gp, repo, arch, b);
    NoarchExcludedWitness(gp, repo, arch, b);
  }

  /** The rules after `filter_packages` are the noarch rules. */
  lemma NoarchRulesAppended(gp: Gather, whitelist: seq<string>, blacklist: seq<string>,
                            filterPackages: seq<FilterRule>, additionalPackages: seq<FilterRule>)
    ensures var c := Synthesize(gp, whitelist, blacklist, filterPackages, additionalPackages);
            |filterPackages| <= |c.excludeFilter| && c.excludeFilter[|filterPackages|..] == NoarchRules(gp)
  {
    SynthesizedParts(gp, whitelist, blacklist, filterPackages, additionalPackages);
    var c := Synthesize(gp, whitelist, blacklist, filterPackages, additionalPackages);
    var rules := NoarchRules(gp);
    assert c.excludeFilter == filterPackages + rules;
    DropPrefix(filterPackages, rules);
  }

  lemma DropPrefix<T>(a: seq<T>, b: seq<T>)
    ensures (a + b)[|a|..] == b
  {
  }

  /** The catalog's exclude filter after `filter_packages`: it excludes `b` on
      `arch` of `repo` exactly when some package lists, in `repo`, a noarch
      artifact named `b` plus `.noarch` under some architecture but not under
      `arch`, where `arch` is an architecture key of some repository. */
  lemma NoarchExcluded(gp: Gather, whitelist: seq<string>, blacklist: seq<string>,
                       filterPackages: seq<FilterRule>, additionalPackages: seq<FilterRule>,
                       repo: string, arch: string, b: string)
    requires WellFormed(gp)
    ensures var c := Synthesize(gp, whitelist, blacklist, filterPackages, additionalPackages);
            |filterPackages| <= |c.excludeFilter|
            && (Excludes(c.excludeFilter[|filterPackages|..], repo, arch, b) <==> NoarchGap(gp, repo, arch, b))
  {
    NoarchRulesAppended(gp, whitelist, blacklist, filterPackages, additionalPackages);
    NoarchExcludedIff(gp, repo, arch, b);
  }

  /** The noarch rules name each repository at most once, and a repository gets
      one exactly when some package lists a noarch artifact there that an
      architecture of the input does not list. */
  lemma NoarchRuleRepos(gp: Gather, repo: string)
    requires WellFormed(gp)
    ensures var rules := NoarchRules(gp);
            (forall i, j :: 0 <= i < j < |rules| ==> rules[i].repoMatch != rules[j].repoMatch)
            && ((exists i :: 0 <= i < |rules| && rules[i].repoMatch == "^" + repo + "$") <==>
                exists pkg, na, a, arch :: EndsWith(na, ".noarch") && Observed(gp, repo, a, pkg, na)
                                           && arch in BuildIndex(gp).allArches && !Observed(gp, repo, arch, pkg, na))
  {
    var recs := Records(gp);
    var rules := NoarchRules(gp);
    var repos := Dedup(RecordRepos(recs));
    RulesRepos(recs, repo);
    forall i, j | 0 <= i < j < |rules|
      ensures rules[i].repoMatch != rules[j].repoMatch
    {
      if rules[i].repoMatch == rules[j].repoMatch {
        AnchoredInjective(repos[i], repos[j]);
      }
    }
    if exists i :: 0 <= i < |rules| && rules[i].repoMatch == "^" + repo + "$" {
      var i :| 0 <= i < |rules| && rules[i].repoMatch == "^" + repo + "$";
      AnchoredInjective(repos[i], repo);
      var rec :| rec in recs && rec.repo == repo;
      RecordHasMissing(gp, rec);
    }
    if exists pkg, na, a, arch :: EndsWith(na, ".noarch") && Observed(gp, repo, a, pkg, na)
                                 && arch in BuildIndex(gp).allArches && !Observed(gp, repo, arch, pkg, na) {
      var pkg, na, a, arch :| EndsWith(na, ".noarch") && Observed(gp, repo, a, pkg, na)
                              && arch in BuildIndex(gp).allArches && !Observed(gp, repo, arch, pkg, na);
      assert arch in Missing(gp, BuildIndex(gp).allArches, repo, pkg, na);
      RecordTo(gp, pkg, repo, na, a);
      var k :| 0 <= k < |repos| && repos[k] == repo;
      assert rules[k].repoMatch == "^" + repo + "$";
    }
  }

  /** Every record carries at least one missing artifact, which witnesses it. */
  lemma RecordHasMissing(gp: Gather, rec: Asymmetry)
    requires WellFormed(gp)
    requires rec in Records(gp)
    ensures exists pkg, na, a, arch :: EndsWith(na, ".noarch") && Observed(gp, rec.repo, a, pkg, na)
                                       && arch in BuildIndex(gp).allArches && !Observed(gp, rec.repo, arch, pkg, na)
  {
    var s := BuildIndex(gp);
    IndexUnique(gp);
    NoarchFacts.AsymmetriesMember(gp, s.allArches, s.index, rec);
    var e := EntryAt(s.index, rec.pkg, rec.repo);
    IncludeFilter(gp, rec.pkg, rec.repo, "");
    NoarchFacts.PairAsymmetryIff(gp, s.allArches, rec.pkg, rec.repo, e);
    var na, arch :| na in e.includeFilter && EndsWith(na, ".noarch") && arch in s.allArches
                    && !Observed(gp, rec.repo, arch, rec.pkg, na);
    IncludeFilter(gp, rec.pkg, rec.repo, na);
    var a :| Observed(gp, rec.repo, a, rec.pkg, na);
  }

  /** Every record of stage two lists some artifact as missing somewhere. */
  lemma RecordsNonEmpty(gp: Gather, rec: Asymmetry)
    requires WellFormed(gp)
    requires rec in Records(gp)
    ensures exists na, archs :: (na, archs) in rec.missing && archs != []
  {
    var s := BuildIndex(gp);
    IndexUnique(gp);
    NoarchFacts.AsymmetriesMember(gp, s.allArches, s.index, rec);
    assert rec.missing != [];
    var na, archs := rec.missing[0].0, rec.missing[0].1;
    assert (na, archs) in rec.missing;
    RecordFrom(gp, rec, na, archs);
  }

  /** Every noarch rule excludes something: it has at least one architecture. */
  lemma NoarchRuleHasArch(gp: Gather, i: int)
    requires WellFormed(gp)
    requires 0 <= i < |NoarchRules(gp)|
    ensures NoarchRules(gp)[i].arches != []
  {
    forall rec | rec in Records(gp)
      ensures exists na, archs :: (na, archs) in rec.missing && archs != []
    {
      RecordsNonEmpty(gp, rec);
    }
    RuleHasArch(Records(gp), i);
  }
}
