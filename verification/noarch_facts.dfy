/**
 What stage two computes: `exclude_arches` is the reference `MissingTable`,
 and a package and repository get a record exactly when one of their noarch
 artifacts is missing somewhere.
 */
module NoarchFacts {
  import opened Seqs
  import opened Text
  import opened Assoc
  import opened Prepopulate
  import opened ArtifactIndex
  import opened NoarchExcludes

  /** `Missing` one architecture longer. */
  lemma MissingLast(gp: Gather, arches: seq<string>, repo: string, pkg: string, na: string)
    requires arches != []
    ensures var a := arches[|arches| - 1];
            Missing(gp, arches, repo, pkg, na) ==
              Missing(gp, arches[..|arches| - 1], repo, pkg, na) + (if Observed(gp, repo, a, pkg, na) then [] else [a])
  {
  }

  /** `MissingTable` one artifact longer. */
  lemma MissingTableSnoc(gp: Gather, all: seq<string>, repo: string, pkg: string, nas: seq<string>, na: string)
    ensures var m := Missing(gp, all, repo, pkg, na);
            MissingTable(gp, all, repo, pkg, nas + [na]) ==
              MissingTable(gp, all, repo, pkg, nas) + (if m == [] then [] else [(na, m)])
  {
    assert (nas + [na])[..|nas + [na]| - 1] == nas;
  }

  /** The noarch filter works element by element: filtering a concatenation
      concatenates the filtered parts, so the kept names stay in input order. */
  lemma {:induction false} NoarchOfAppend(a: seq<string>, b: seq<string>)
    ensures NoarchOf(a + b) == NoarchOf(a) + NoarchOf(b)
  {
    if b == [] {
      assert a + b == a;
    } else {
      var b', x := b[..|b| - 1], b[|b| - 1];
      NoarchOfAppend(a, b');
      assert (a + b)[..|a + b| - 1] == a + b' && (a + b)[|a + b| - 1] == x;
    }
  }

  /** The missing architectures follow the order of the architectures asked about. */
  lemma {:induction false} MissingAppend(gp: Gather, a: seq<string>, b: seq<string>, repo: string, pkg: string, na: string)
    ensures Missing(gp, a + b, repo, pkg, na) == Missing(gp, a, repo, pkg, na) + Missing(gp, b, repo, pkg, na)
  {
    if b == [] {
      assert a + b == a;
    } else {
      var b', x := b[..|b| - 1], b[|b| - 1];
      MissingAppend(gp, a, b', repo, pkg, na);
      assert (a + b)[..|a + b| - 1] == a + b' && (a + b)[|a + b| - 1] == x;
      MissingLast(gp, a + b, repo, pkg, na);
      MissingLast(gp, b, repo, pkg, na);
    }
  }

  /** The keys of the reference `exclude_arches` follow the order of the artifacts. */
  lemma {:induction false} MissingTableAppend(gp: Gather, all: seq<string>, repo: string, pkg: string, a: seq<string>, b: seq<string>)
    ensures MissingTable(gp, all, repo, pkg, a + b) == MissingTable(gp, all, repo, pkg, a) + MissingTable(gp, all, repo, pkg, b)
  {
    if b == [] {
      assert a + b == a;
    } else {
      var b', x := b[..|b| - 1], b[|b| - 1];
      MissingTableAppend(gp, all, repo, pkg, a, b');
      SplitLast(b);
      MissingTableAppendStep(gp, all, repo, pkg, a, b', x);
    }
  }

  /** The inductive step of `MissingTableAppend`: one more artifact on the right. */
  lemma MissingTableAppendStep(gp: Gather, all: seq<string>, repo: string, pkg: string, a: seq<string>, b': seq<string>, x: string)
    requires MissingTable(gp, all, repo, pkg, a + b') == MissingTable(gp, all, repo, pkg, a) + MissingTable(gp, all, repo, pkg, b')
    ensures MissingTable(gp, all, repo, pkg, a + (b' + [x])) == MissingTable(gp, all, repo, pkg, a) + MissingTable(gp, all, repo, pkg, b' + [x])
  {
    var m := Missing(gp, all, repo, pkg, x);
    var t: MissingMap := if m == [] then [] else [(x, m)];
    AppendAssoc(a, b', [x]);
    MissingTableSnoc(gp, all, repo, pkg, a + b', x);
    MissingTableSnoc(gp, all, repo, pkg, b', x);
    ConcatStep(MissingTable(gp, all, repo, pkg, a + (b' + [x])), MissingTable(gp, all, repo, pkg, a + b'),
               MissingTable(gp, all, repo, pkg, a), MissingTable(gp, all, repo, pkg, b'),
               MissingTable(gp, all, repo, pkg, b' + [x]), t);
  }

  /** The inner loop for an artifact not yet in `exclude_arches` adds it once,
      with every architecture it is missing on, or leaves the table alone. */
  lemma {:induction false} MarkMissingFresh(ex: MissingMap, gp: Gather, repo: string, pkg: string, na: string, arches: seq<string>)
    requires na !in Keys(ex)
    ensures MarkMissing(ex, gp, repo, pkg, na, arches) ==
              var m := Missing(gp, arches, repo, pkg, na);
              if m == [] then ex else ex + [(na, m)]
  {
    if arches != [] {
      var arches', a := arches[..|arches| - 1], arches[|arches| - 1];
      MarkMissingFresh(ex, gp, repo, pkg, na, arches');
      MissingLast(gp, arches, repo, pkg, na);
      var m' := Missing(gp, arches', repo, pkg, na);
      var ex' := MarkMissing(ex, gp, repo, pkg, na, arches');
      if !Observed(gp, repo, a, pkg, na) {
        if m' == [] {
          assert ex' == ex;
          assert Put(ex, na, []) == ex + [(na, [])];
          GetAppend(ex, na, [], na);
          PutLast(ex, na, [], [a]);
        } else {
          assert ex' == ex + [(na, m')];
          assert Keys(ex') == Keys(ex) + [na];
          GetAppend(ex, na, m', na);
          PutLast(ex, na, m', m' + [a]);
        }
      }
    }
  }

  /** For a list of distinct artifacts, the loop of lines 107-116 builds exactly
      the reference table: each artifact missing somewhere, once, with the
      architectures of `all` it is missing on, in order. */
  lemma {:induction false} ExcludeArchesTable(gp: Gather, all: seq<string>, repo: string, pkg: string, nas: seq<string>)
    requires NoDup(nas)
    ensures ExcludeArches(gp, all, repo, pkg, nas) == MissingTable(gp, all, repo, pkg, nas)
  {
    if nas != [] {
      var nas', na := nas[..|nas| - 1], nas[|nas| - 1];
      assert NoDup(nas');
      ExcludeArchesTable(gp, all, repo, pkg, nas');
      assert na !in nas';
      MarkMissingFresh(MissingTable(gp, all, repo, pkg, nas'), gp, repo, pkg, na, all);
    }
  }

  /** A package and repository whose `include_filter` has no repeats get a record
      exactly when one of its noarch artifacts is missing on an architecture of
      `all`; the record is then the reference table of where. In particular a
      pair whose noarch artifacts are everywhere gets none. */
  lemma PairAsymmetryIff(gp: Gather, all: seq<string>, pkg: string, repo: string, e: Entry)
    requires NoDup(e.includeFilter)
    ensures PairAsymmetry(gp, all, pkg, repo, e) != [] <==>
              exists na, a :: na in e.includeFilter && EndsWith(na, ".noarch") && a in all
                              && !Observed(gp, repo, a, pkg, na)
    ensures PairAsymmetry(gp, all, pkg, repo, e) != [] ==>
              PairAsymmetry(gp, all, pkg, repo, e) ==
                [Asymmetry(pkg, repo, MissingTable(gp, all, repo, pkg, NoarchOf(e.includeFilter)))]
  {
    var nas := NoarchOf(e.includeFilter);
    ExcludeArchesTable(gp, all, repo, pkg, nas);
    var t := MissingTable(gp, all, repo, pkg, nas);
    if exists na, a :: na in e.includeFilter && EndsWith(na, ".noarch") && a in all && !Observed(gp, repo, a, pkg, na) {
      var na, a :| na in e.includeFilter && EndsWith(na, ".noarch") && a in all && !Observed(gp, repo, a, pkg, na);
      assert a in Missing(gp, all, repo, pkg, na);
      assert na in Keys(t);
    }
    if t != [] {
      var na := t[0].0;
      assert na in Keys(t) by { assert Keys(t)[0] == na; }
      var a := Missing(gp, all, repo, pkg, na)[0];
      assert a in Missing(gp, all, repo, pkg, na);
    }
  }

  lemma PairAsymmetryShape(gp: Gather, all: seq<string>, pkg: string, repo: string, e: Entry, rec: Asymmetry)
    requires rec in PairAsymmetry(gp, all, pkg, repo, e)
    ensures rec.pkg == pkg && rec.repo == repo
  {
  }

  /** A record belongs to the records of one package exactly when it is the record
      of one of its repositories. */
  lemma PackageAsymmetriesMember(gp: Gather, all: seq<string>, pkg: string, repos: Assoc<string, Entry>, rec: Asymmetry)
    requires UniqueKeys(repos)
    ensures rec in PackageAsymmetries(gp, all, pkg, repos) <==>
              rec.repo in Keys(repos) && rec in PairAsymmetry(gp, all, pkg, rec.repo, GetOr(repos, rec.repo, NoEntry))
  {
    var f := (re: (string, Entry)) => PairAsymmetry(gp, all, pkg, re.0, re.1);
    ConcatMapMember(repos, f, rec);
    if rec in PackageAsymmetries(gp, all, pkg, repos) {
      var re :| re in repos && rec in f(re);
      PairAsymmetryShape(gp, all, pkg, re.0, re.1, rec);
      GetIffPair(repos, re.0, re.1);
    }
    if rec.repo in Keys(repos) && rec in PairAsymmetry(gp, all, pkg, rec.repo, GetOr(repos, rec.repo, NoEntry)) {
      var e := GetOr(repos, rec.repo, NoEntry);
      assert (rec.repo, e) in repos;
      assert rec in f((rec.repo, e));
    }
  }

  /** A record is one of stage two's exactly when it is the record of a package and
      repository of the index. */
  lemma AsymmetriesMember(gp: Gather, all: seq<string>, idx: Index, rec: Asymmetry)
    requires UniqueKeys(idx)
    requires forall p :: UniqueKeys(RepoTable(idx, p))
    ensures rec in Asymmetries(gp, all, idx) <==>
              rec.repo in Keys(RepoTable(idx, rec.pkg))
              && rec in PairAsymmetry(gp, all, rec.pkg, rec.repo, EntryAt(idx, rec.pkg, rec.repo))
  {
    var f := (pr: (string, Assoc<string, Entry>)) => PackageAsymmetries(gp, all, pr.0, pr.1);
    ConcatMapMember(idx, f, rec);
    if rec in Asymmetries(gp, all, idx) {
      var pr :| pr in idx && rec in f(pr);
      GetIffPair(idx, pr.0, pr.1);
      assert RepoTable(idx, pr.0) == pr.1;
      PackageAsymmetriesMember(gp, all, pr.0, pr.1, rec);
      PairAsymmetryShape(gp, all, pr.0, rec.repo, GetOr(pr.1, rec.repo, NoEntry), rec);
    }
    if rec.repo in Keys(RepoTable(idx, rec.pkg)) && rec in PairAsymmetry(gp, all, rec.pkg, rec.repo, EntryAt(idx, rec.pkg, rec.repo)) {
      var rt := RepoTable(idx, rec.pkg);
      assert rec.pkg in Keys(idx);
      assert (rec.pkg, rt) in idx;
      PackageAsymmetriesMember(gp, all, rec.pkg, rt, rec);
      assert rec in f((rec.pkg, rt));
    }
  }
}
