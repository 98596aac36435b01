/**
 The projections of a walk, read by membership: which events put a value in each.
 */
module WalkMembers {
  import opened Seqs
  import opened Prepopulate
  import opened ArtifactIndex

  lemma ArchesOfMember(es: seq<Event>, x: string)
    ensures x in ArchesOf(es) <==> ArchSeen(x) in es
  {
    var f := (ev: Event) => if ev.ArchSeen? then [ev.arch] else [];
    ConcatMapMember(es, f, x);
    if ArchSeen(x) in es {
      assert x in f(ArchSeen(x));
    }
  }

  lemma PackagesOfMember(es: seq<Event>, p: string)
    ensures p in PackagesOf(es) <==> exists r, a, nas :: Visit(r, a, p, nas) in es
  {
    var f := (ev: Event) => if ev.Visit? then [ev.pkg] else [];
    ConcatMapMember(es, f, p);
    if p in PackagesOf(es) {
      var ev :| ev in es && p in f(ev);
      assert Visit(ev.repo, ev.arch, p, ev.artifacts) in es;
    }
    if exists r, a, nas :: Visit(r, a, p, nas) in es {
      var r, a, nas :| Visit(r, a, p, nas) in es;
      assert p in f(Visit(r, a, p, nas));
    }
  }

  lemma ReposOfMember(es: seq<Event>, p: string, r: string)
    ensures r in ReposOf(es, p) <==> exists a, nas :: Visit(r, a, p, nas) in es
  {
    var f := (ev: Event) => if ev.Visit? && ev.pkg == p then [ev.repo] else [];
    ConcatMapMember(es, f, r);
    if r in ReposOf(es, p) {
      var ev :| ev in es && r in f(ev);
      assert Visit(r, ev.arch, p, ev.artifacts) in es;
    }
    if exists a, nas :: Visit(r, a, p, nas) in es {
      var a, nas :| Visit(r, a, p, nas) in es;
      assert r in f(Visit(r, a, p, nas));
    }
  }

  lemma ArtifactsOfMember(es: seq<Event>, p: string, r: string, na: string)
    ensures na in ArtifactsOf(es, p, r) <==> exists a, nas :: Visit(r, a, p, nas) in es && na in nas
  {
    var f := (ev: Event) => if ev.Visit? && ev.pkg == p && ev.repo == r then ev.artifacts else [];
    ConcatMapMember(es, f, na);
    if na in ArtifactsOf(es, p, r) {
      var ev :| ev in es && na in f(ev);
      assert Visit(r, ev.arch, p, ev.artifacts) in es;
    }
    if exists a, nas :: Visit(r, a, p, nas) in es && na in nas {
      var a, nas :| Visit(r, a, p, nas) in es && na in nas;
      assert na in f(Visit(r, a, p, nas));
    }
  }

  lemma MultilibOfFrom(es: seq<Event>, p: string, r: string, a: string)
    ensures a in MultilibOf(es, p, r) ==> exists nas :: Visit(r, a, p, nas) in es && HasForeign(a, nas)
  {
    var f := (ev: Event) =>
      if ev.Visit? && ev.pkg == p && ev.repo == r && HasForeign(ev.arch, ev.artifacts) then [ev.arch] else [];
    ConcatMapMember(es, f, a);
  }

  lemma MultilibOfTo(es: seq<Event>, p: string, r: string, a: string)
    ensures (exists nas :: Visit(r, a, p, nas) in es && HasForeign(a, nas)) ==> a in MultilibOf(es, p, r)
  {
    var f := (ev: Event) =>
      if ev.Visit? && ev.pkg == p && ev.repo == r && HasForeign(ev.arch, ev.artifacts) then [ev.arch] else [];
    ConcatMapMember(es, f, a);
    if exists nas :: Visit(r, a, p, nas) in es && HasForeign(a, nas) {
      var nas :| Visit(r, a, p, nas) in es && HasForeign(a, nas);
      assert a in f(Visit(r, a, p, nas));
    }
  }
}
