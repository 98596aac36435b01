/**
 What the walk `Events` of the input holds, stated in terms of the input itself.
 */
module PrepopulateFacts {
  import opened Seqs
  import opened Assoc
  import opened Prepopulate

  // ---------------------------------------------------------------------------
  // Membership
  // ---------------------------------------------------------------------------

  lemma VisitInVisitEvents(repo: string, arch: string, pm: PackageMap, r: string, a: string, p: string, nas: seq<string>)
    ensures Visit(r, a, p, nas) in VisitEvents(repo, arch, pm) <==> r == repo && a == arch && (p, nas) in pm
  {
    var f := (pn: (string, seq<string>)) => [Visit(repo, arch, pn.0, pn.1)];
    ConcatMapMember(pm, f, Visit(r, a, p, nas));
    if r == repo && a == arch && (p, nas) in pm {
      assert Visit(r, a, p, nas) in f((p, nas));
    }
  }

  lemma NoArchSeenInVisitEvents(repo: string, arch: string, pm: PackageMap, x: string)
    ensures ArchSeen(x) !in VisitEvents(repo, arch, pm)
  {
    var f := (pn: (string, seq<string>)) => [Visit(repo, arch, pn.0, pn.1)];
    ConcatMapMember(pm, f, ArchSeen(x));
  }

  lemma VisitInRepoEvents(repo: string, am: ArchMap, r: string, a: string, p: string, nas: seq<string>)
    ensures Visit(r, a, p, nas) in RepoEvents(repo, am) <==>
              r == repo && exists pm :: (a, pm) in am && (p, nas) in pm
  {
    var f := (ap: (string, PackageMap)) => [ArchSeen(ap.0)] + VisitEvents(repo, ap.0, ap.1);
    var v := Visit(r, a, p, nas);
    ConcatMapMember(am, f, v);
    if v in RepoEvents(repo, am) {
      var ap :| ap in am && v in f(ap);
      VisitInVisitEvents(repo, ap.0, ap.1, r, a, p, nas);
      assert (a, ap.1) in am;
    }
    if r == repo && exists pm :: (a, pm) in am && (p, nas) in pm {
      var pm :| (a, pm) in am && (p, nas) in pm;
      VisitInVisitEvents(repo, a, pm, r, a, p, nas);
      assert v in f((a, pm));
    }
  }

  lemma ArchSeenInRepoEvents(repo: string, am: ArchMap, x: string)
    ensures ArchSeen(x) in RepoEvents(repo, am) <==> x in Keys(am)
  {
    var f := (ap: (string, PackageMap)) => [ArchSeen(ap.0)] + VisitEvents(repo, ap.0, ap.1);
    ConcatMapMember(am, f, ArchSeen(x));
    if ArchSeen(x) in RepoEvents(repo, am) {
      var ap :| ap in am && ArchSeen(x) in f(ap);
      NoArchSeenInVisitEvents(repo, ap.0, ap.1, x);
      var i :| 0 <= i < |am| && am[i] == ap;
      assert Keys(am)[i] == x;
    }
    if x in Keys(am) {
      var i :| 0 <= i < |am| && Keys(am)[i] == x;
      assert ArchSeen(x) in f(am[i]);
    }
  }

  /** A package visit is in the walk exactly when the input lists that artifact list
      under that repository, architecture and package. */
  lemma VisitInEvents(gp: Gather, r: string, a: string, p: string, nas: seq<string>)
    ensures Visit(r, a, p, nas) in Events(gp) <==> ListedPair(gp, r, a, p, nas)
  {
    var f := (rm: (string, ArchMap)) => RepoEvents(rm.0, rm.1);
    var v := Visit(r, a, p, nas);
    ConcatMapMember(gp, f, v);
    if v in Events(gp) {
      var rm :| rm in gp && v in f(rm);
      VisitInRepoEvents(rm.0, rm.1, r, a, p, nas);
      var pm :| (a, pm) in rm.1 && (p, nas) in pm;
      assert (r, rm.1) in gp;
    }
    if ListedPair(gp, r, a, p, nas) {
      var am, pm :| (r, am) in gp && (a, pm) in am && (p, nas) in pm;
      VisitInRepoEvents(r, am, r, a, p, nas);
      assert v in f((r, am));
    }
  }

  /** An architecture is seen in the walk exactly when it is a key under some repository. */
  lemma ArchSeenInEvents(gp: Gather, x: string)
    ensures ArchSeen(x) in Events(gp) <==> exists r, am :: (r, am) in gp && x in Keys(am)
  {
    var f := (rm: (string, ArchMap)) => RepoEvents(rm.0, rm.1);
    ConcatMapMember(gp, f, ArchSeen(x));
    if ArchSeen(x) in Events(gp) {
      var rm :| rm in gp && ArchSeen(x) in f(rm);
      ArchSeenInRepoEvents(rm.0, rm.1, x);
      assert (rm.0, rm.1) in gp;
    }
    if exists r, am :: (r, am) in gp && x in Keys(am) {
      var r, am :| (r, am) in gp && x in Keys(am);
      ArchSeenInRepoEvents(r, am, x);
      assert ArchSeen(x) in f((r, am));
    }
  }

  /** With unique keys, being listed by lookup and being listed as a pair agree. */
  lemma ListedIffPair(gp: Gather, r: string, a: string, p: string, nas: seq<string>)
    requires WellFormed(gp)
    ensures Listed(gp, r, a, p) == Some(nas) <==> ListedPair(gp, r, a, p, nas)
  {
    if Listed(gp, r, a, p) == Some(nas) {
      var am := Get(gp, r).value;
      var pm := Get(am, a).value;
      assert (r, am) in gp && (a, pm) in am && (p, nas) in pm;
    }
    if ListedPair(gp, r, a, p, nas) {
      var am, pm :| (r, am) in gp && (a, pm) in am && (p, nas) in pm;
      var i :| 0 <= i < |gp| && gp[i] == (r, am);
      var j :| 0 <= j < |am| && am[j] == (a, pm);
      assert UniqueKeys(am) && UniqueKeys(pm) by {
        assert gp[i].1 == am && gp[i].1[j].1 == pm;
      }
      GetIffPair(gp, r, am);
      GetIffPair(am, a, pm);
      GetIffPair(pm, p, nas);
    }
  }

  // ---------------------------------------------------------------------------
  // Order
  // ---------------------------------------------------------------------------

  lemma ArchesOfVisitEvents(repo: string, arch: string, pm: PackageMap)
    ensures ArchesOf(VisitEvents(repo, arch, pm)) == []
  {
    var vs := VisitEvents(repo, arch, pm);
    if ArchesOf(vs) != [] {
      var x := ArchesOf(vs)[0];
      ConcatMapMember(vs, (ev: Event) => if ev.ArchSeen? then [ev.arch] else [], x);
      NoArchSeenInVisitEvents(repo, arch, pm, x);
      assert false;
    }
  }

  lemma {:induction false} ArchesOfRepoEvents(repo: string, am: ArchMap)
    ensures ArchesOf(RepoEvents(repo, am)) == Keys(am)
  {
    if am != [] {
      var am', a, pm := am[..|am| - 1], am[|am| - 1].0, am[|am| - 1].1;
      var g := (ev: Event) => if ev.ArchSeen? then [ev.arch] else [];
      var vs := VisitEvents(repo, a, pm);
      ArchesOfRepoEvents(repo, am');
      SplitLast(am);
      ConcatMapAppend(RepoEvents(repo, am'), [ArchSeen(a)] + vs, g);
      ConcatMapAppend([ArchSeen(a)], vs, g);
      ArchesOfVisitEvents(repo, a, pm);
      assert ConcatMap([ArchSeen(a)], g) == [a] by {
        assert [ArchSeen(a)][..0] == [];
      }
      assert Keys(am) == Keys(am') + [a];
    }
  }

  /** The walk sees the architectures in the order of `ArchStream`. */
  lemma {:induction false} ArchesOfEvents(gp: Gather)
    ensures ArchesOf(Events(gp)) == ArchStream(gp)
  {
    if gp != [] {
      var gp', r, am := gp[..|gp| - 1], gp[|gp| - 1].0, gp[|gp| - 1].1;
      var g := (ev: Event) => if ev.ArchSeen? then [ev.arch] else [];
      ArchesOfEvents(gp');
      ConcatMapAppend(Events(gp'), RepoEvents(r, am), g);
      ArchesOfRepoEvents(r, am);
    }
  }

  lemma {:induction false} PackagesOfVisitEvents(repo: string, arch: string, pm: PackageMap)
    ensures PackagesOf(VisitEvents(repo, arch, pm)) == Keys(pm)
  {
    if pm != [] {
      var pm', p, nas := pm[..|pm| - 1], pm[|pm| - 1].0, pm[|pm| - 1].1;
      var g := (ev: Event) => if ev.Visit? then [ev.pkg] else [];
      PackagesOfVisitEvents(repo, arch, pm');
      ConcatMapAppend(VisitEvents(repo, arch, pm'), [Visit(repo, arch, p, nas)], g);
      assert ConcatMap([Visit(repo, arch, p, nas)], g) == [p] by {
        assert [Visit(repo, arch, p, nas)][..0] == [];
      }
      assert Keys(pm) == Keys(pm') + [p];
    }
  }

  lemma {:induction false} PackagesOfRepoEvents(repo: string, am: ArchMap)
    ensures PackagesOf(RepoEvents(repo, am)) == ConcatMap(am, (ap: (string, PackageMap)) => Keys(ap.1))
  {
    if am != [] {
      var am', a, pm := am[..|am| - 1], am[|am| - 1].0, am[|am| - 1].1;
      var g := (ev: Event) => if ev.Visit? then [ev.pkg] else [];
      var vs := VisitEvents(repo, a, pm);
      PackagesOfRepoEvents(repo, am');
      ConcatMapAppend(RepoEvents(repo, am'), [ArchSeen(a)] + vs, g);
      ConcatMapAppend([ArchSeen(a)], vs, g);
      PackagesOfVisitEvents(repo, a, pm);
      assert ConcatMap([ArchSeen(a)], g) == [] by {
        assert [ArchSeen(a)][..0] == [];
      }
    }
  }

  /** The walk visits the packages in the order of `PackageStream`. */
  lemma {:induction false} PackagesOfEvents(gp: Gather)
    ensures PackagesOf(Events(gp)) == PackageStream(gp)
  {
    if gp != [] {
      var gp', r, am := gp[..|gp| - 1], gp[|gp| - 1].0, gp[|gp| - 1].1;
      var g := (ev: Event) => if ev.Visit? then [ev.pkg] else [];
      PackagesOfEvents(gp');
      ConcatMapAppend(Events(gp'), RepoEvents(r, am), g);
      PackagesOfRepoEvents(r, am);
    }
  }
}
