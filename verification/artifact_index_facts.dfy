/**
 What stage one computes: every list of the artifact index is the first-seen
 de-duplication of what the walk offers it, and, read against the input,
 holds exactly the architectures, artifacts and multilib architectures the
 input lists.
 */
module ArtifactIndexFacts {
  import opened Seqs
  import opened Assoc
  import opened Prepopulate
  import opened PrepopulateFacts
  import opened ArtifactIndex

  /** Each projection of a walk, one event longer. */
  lemma ProjectionsSnoc(es: seq<Event>, ev: Event, pkg: string, repo: string)
    ensures ArchesOf(es + [ev]) == ArchesOf(es) + (if ev.ArchSeen? then [ev.arch] else [])
    ensures PackagesOf(es + [ev]) == PackagesOf(es) + (if ev.Visit? then [ev.pkg] else [])
    ensures ReposOf(es + [ev], pkg) == ReposOf(es, pkg) + (if ev.Visit? && ev.pkg == pkg then [ev.repo] else [])
    ensures ArtifactsOf(es + [ev], pkg, repo) ==
              ArtifactsOf(es, pkg, repo) + (if ev.Visit? && ev.pkg == pkg && ev.repo == repo then ev.artifacts else [])
    ensures MultilibOf(es + [ev], pkg, repo) ==
              MultilibOf(es, pkg, repo)
              + (if ev.Visit? && ev.pkg == pkg && ev.repo == repo && HasForeign(ev.arch, ev.artifacts) then [ev.arch] else [])
  {
    assert (es + [ev])[..|es|] == es;
  }

  /** How a package visit changes the index, table by table. */
  lemma StepVisitTables(s: Scan, r: string, a: string, p: string, nas: seq<string>)
    ensures var t := RepoTable(s.index, p);
            var t' := if r in Keys(t) then t else Put(t, r, NoEntry);
            RepoTable(Step(s, Visit(r, a, p, nas)).index, p) ==
              Put(t', r, ObserveAll(EntryAt(s.index, p, r), a, nas))
    ensures forall p' :: p' != p ==>
              RepoTable(Step(s, Visit(r, a, p, nas)).index, p') == RepoTable(s.index, p')
    ensures Keys(Step(s, Visit(r, a, p, nas)).index) == AppendUnique(Keys(s.index), p)
    ensures UniqueKeys(s.index) ==> UniqueKeys(Step(s, Visit(r, a, p, nas)).index)
    ensures Step(s, Visit(r, a, p, nas)).allArches == s.allArches
  {
    var idx := if p in Keys(s.index) then s.index else Put(s.index, p, []);
    var t := RepoTable(s.index, p);
    if p !in Keys(s.index) {
      GetOrPut(s.index, p, [], p, []);
    }
    assert RepoTable(idx, p) == t;
    assert Keys(idx) == AppendUnique(Keys(s.index), p);
    var t' := if r in Keys(t) then t else Put(t, r, NoEntry);
    if r !in Keys(t) {
      GetOrPut(t, r, NoEntry, r, NoEntry);
    }
    var e := GetOr(t', r, NoEntry);
    assert e == EntryAt(s.index, p, r);
    var t2 := Put(t', r, ObserveAll(e, a, nas));
    assert Step(s, Visit(r, a, p, nas)).index == Put(idx, p, t2);
    GetOrPut(idx, p, t2, p, []);
    forall p' | p' != p
      ensures RepoTable(Put(idx, p, t2), p') == RepoTable(s.index, p')
    {
      GetOrPut(idx, p, t2, p', []);
      if p !in Keys(s.index) {
        GetOrPut(s.index, p, [], p', []);
      }
    }
  }

  /** How a package visit changes the entries: only the visited one moves. */
  lemma StepVisitEntryAt(s: Scan, r: string, a: string, p: string, nas: seq<string>, pkg: string, repo: string)
    ensures EntryAt(Step(s, Visit(r, a, p, nas)).index, pkg, repo) ==
              if pkg == p && repo == r then ObserveAll(EntryAt(s.index, p, r), a, nas)
              else EntryAt(s.index, pkg, repo)
  {
    StepVisitTables(s, r, a, p, nas);
  }

  lemma StepArchArches(s: Scan, es: seq<Event>, a: string)
    requires ArchesSeen(s, es)
    ensures ArchesSeen(Step(s, ArchSeen(a)), es + [ArchSeen(a)])
  {
    ProjectionsSnoc(es, ArchSeen(a), "", "");
    DedupSnoc(ArchesOf(es), a);
  }

  lemma StepArchPackages(s: Scan, es: seq<Event>, a: string)
    requires PackagesIndexed(s, es)
    ensures PackagesIndexed(Step(s, ArchSeen(a)), es + [ArchSeen(a)])
  {
    ProjectionsSnoc(es, ArchSeen(a), "", "");
    assert Step(s, ArchSeen(a)).index == s.index;
    assert PackagesOf(es + [ArchSeen(a)]) == PackagesOf(es);
  }

  lemma StepArchRepos(s: Scan, es: seq<Event>, a: string)
    requires ReposIndexed(s, es)
    ensures ReposIndexed(Step(s, ArchSeen(a)), es + [ArchSeen(a)])
  {
    var ev := ArchSeen(a);
    var es' := es + [ev];
    forall pkg
      ensures ReposOf(es', pkg) == ReposOf(es, pkg)
    {
      ProjectionsSnoc(es, ev, pkg, "");
    }
  }

  lemma StepArchEntries(s: Scan, es: seq<Event>, a: string)
    requires EntriesIndexed(s, es)
    ensures EntriesIndexed(Step(s, ArchSeen(a)), es + [ArchSeen(a)])
  {
    var ev := ArchSeen(a);
    var es' := es + [ev];
    forall pkg, repo
      ensures ArtifactsOf(es', pkg, repo) == ArtifactsOf(es, pkg, repo)
      ensures MultilibOf(es', pkg, repo) == MultilibOf(es, pkg, repo)
    {
      ProjectionsSnoc(es, ev, pkg, repo);
    }
  }

  lemma StepVisitArches(s: Scan, es: seq<Event>, r: string, a: string, p: string, nas: seq<string>)
    requires ArchesSeen(s, es)
    ensures ArchesSeen(Step(s, Visit(r, a, p, nas)), es + [Visit(r, a, p, nas)])
  {
    StepVisitTables(s, r, a, p, nas);
    ProjectionsSnoc(es, Visit(r, a, p, nas), "", "");
    assert ArchesOf(es + [Visit(r, a, p, nas)]) == ArchesOf(es);
  }

  lemma StepVisitPackages(s: Scan, es: seq<Event>, r: string, a: string, p: string, nas: seq<string>)
    requires PackagesIndexed(s, es)
    ensures PackagesIndexed(Step(s, Visit(r, a, p, nas)), es + [Visit(r, a, p, nas)])
  {
    StepVisitTables(s, r, a, p, nas);
    ProjectionsSnoc(es, Visit(r, a, p, nas), "", "");
    DedupSnoc(PackagesOf(es), p);
  }

  /** How a package visit changes the repository keys: only the visited package's move. */
  lemma StepVisitRepoKeys(s: Scan, r: string, a: string, p: string, nas: seq<string>, pkg: string)
    ensures Keys(RepoTable(Step(s, Visit(r, a, p, nas)).index, pkg)) ==
              if pkg == p then AppendUnique(Keys(RepoTable(s.index, p)), r) else Keys(RepoTable(s.index, pkg))
    ensures UniqueKeys(RepoTable(s.index, pkg)) ==> UniqueKeys(RepoTable(Step(s, Visit(r, a, p, nas)).index, pkg))
  {
    StepVisitTables(s, r, a, p, nas);
  }

  lemma StepVisitRepo(s: Scan, es: seq<Event>, r: string, a: string, p: string, nas: seq<string>, pkg: string)
    requires Keys(RepoTable(s.index, pkg)) == Dedup(ReposOf(es, pkg)) && UniqueKeys(RepoTable(s.index, pkg))
    ensures var t := RepoTable(Step(s, Visit(r, a, p, nas)).index, pkg);
            Keys(t) == Dedup(ReposOf(es + [Visit(r, a, p, nas)], pkg)) && UniqueKeys(t)
  {
    var ev := Visit(r, a, p, nas);
    StepVisitRepoKeys(s, r, a, p, nas, pkg);
    ProjectionsSnoc(es, ev, pkg, r);
    if pkg == p {
      DedupSnoc(ReposOf(es, p), r);
    } else {
      assert ReposOf(es + [ev], pkg) == ReposOf(es, pkg);
    }
  }

  lemma StepVisitRepos(s: Scan, es: seq<Event>, r: string, a: string, p: string, nas: seq<string>)
    requires ReposIndexed(s, es)
    ensures ReposIndexed(Step(s, Visit(r, a, p, nas)), es + [Visit(r, a, p, nas)])
  {
    forall pkg
      ensures var t := RepoTable(Step(s, Visit(r, a, p, nas)).index, pkg);
              Keys(t) == Dedup(ReposOf(es + [Visit(r, a, p, nas)], pkg)) && UniqueKeys(t)
    {
      StepVisitRepo(s, es, r, a, p, nas, pkg);
    }
  }

  lemma StepVisitEntry(s: Scan, es: seq<Event>, r: string, a: string, p: string, nas: seq<string>, pkg: string, repo: string)
    requires EntryAt(s.index, pkg, repo) == Entry(Dedup(ArtifactsOf(es, pkg, repo)), Dedup(MultilibOf(es, pkg, repo)))
    ensures var es' := es + [Visit(r, a, p, nas)];
            EntryAt(Step(s, Visit(r, a, p, nas)).index, pkg, repo) ==
              Entry(Dedup(ArtifactsOf(es', pkg, repo)), Dedup(MultilibOf(es', pkg, repo)))
  {
    var ev := Visit(r, a, p, nas);
    var es' := es + [ev];
    StepVisitEntryAt(s, r, a, p, nas, pkg, repo);
    ProjectionsSnoc(es, ev, pkg, repo);
    if pkg == p && repo == r {
      var art, ml := ArtifactsOf(es, p, r), MultilibOf(es, p, r);
      var e' := ObserveAll(EntryAt(s.index, p, r), a, nas);
      assert e'.includeFilter == Dedup(ArtifactsOf(es', p, r)) by {
        AppendAllDedup(art, nas);
      }
      if HasForeign(a, nas) {
        DedupSnoc(ml, a);
      } else {
        assert MultilibOf(es', p, r) == ml;
      }
    } else {
      assert ArtifactsOf(es', pkg, repo) == ArtifactsOf(es, pkg, repo);
      assert MultilibOf(es', pkg, repo) == MultilibOf(es, pkg, repo);
    }
  }

  lemma StepVisitEntries(s: Scan, es: seq<Event>, r: string, a: string, p: string, nas: seq<string>)
    requires EntriesIndexed(s, es)
    ensures EntriesIndexed(Step(s, Visit(r, a, p, nas)), es + [Visit(r, a, p, nas)])
  {
    forall pkg, repo
      ensures var es' := es + [Visit(r, a, p, nas)];
              EntryAt(Step(s, Visit(r, a, p, nas)).index, pkg, repo) ==
                Entry(Dedup(ArtifactsOf(es', pkg, repo)), Dedup(MultilibOf(es', pkg, repo)))
    {
      StepVisitEntry(s, es, r, a, p, nas, pkg, repo);
    }
  }

  /** One event keeps the loop state characterised. */
  lemma StepCharacterised(s: Scan, es: seq<Event>, ev: Event)
    requires Characterised(s, es)
    ensures Characterised(Step(s, ev), es + [ev])
  {
    match ev
    case ArchSeen(a) =>
      StepArchArches(s, es, a);
      StepArchPackages(s, es, a);
      StepArchRepos(s, es, a);
      StepArchEntries(s, es, a);
    case Visit(r, a, p, nas) =>
      StepVisitArches(s, es, r, a, p, nas);
      StepVisitPackages(s, es, r, a, p, nas);
      StepVisitRepos(s, es, r, a, p, nas);
      StepVisitEntries(s, es, r, a, p, nas);
  }

  /** Stage one, event by event: `all_arches`, the package keys, the repository keys
      of each package and both lists of each entry are the first-seen
      de-duplications of what the walk offered them. */
  lemma {:induction false} RunCharacterised(es: seq<Event>)
    ensures Characterised(Run(es), es)
  {
    if es != [] {
      var es', ev := es[..|es| - 1], es[|es| - 1];
      RunCharacterised(es');
      SplitLast(es);
      StepCharacterised(Run(es'), es', ev);
    }
  }
}
