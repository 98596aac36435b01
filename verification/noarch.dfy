/**
 Stage two of the catalog synthesis (`pungicatalog.py`, lines 94-124): for
 every package and repository of the artifact index, the `noarch` artifacts
 that are missing on some architecture of `all_arches`, and where.

 `arch_specific_excludes[pkg][repo]` is a list, but the loop reaches each
 package and repository once, so it only ever holds one table. The model keeps
 the records as one flat list `Asymmetries`, in the order the loop makes them.
 */
module NoarchExcludes {
  import opened Seqs
  import opened Text
  import opened Assoc
  import opened Prepopulate
  import opened ArtifactIndex

  /** `exclude_arches`: artifact name to the architectures it is missing on. */
  type MissingMap = Assoc<string, seq<string>>

  /** One entry `arch_specific_excludes[pkg][repo] = [missing]`. */
  datatype Asymmetry = Asymmetry(pkg: string, repo: string, missing: MissingMap)

  /** `filter(lambda x: x.endswith(".noarch"), nas)`. */
  function NoarchOf(nas: seq<string>): (r: seq<string>)
    ensures forall x :: x in r <==> x in nas && EndsWith(x, ".noarch")
    ensures NoDup(nas) ==> NoDup(r)
  {
    if nas == [] then []
    else
      var r' := NoarchOf(nas[..|nas| - 1]);
      var x := nas[|nas| - 1];
      assert nas == nas[..|nas| - 1] + [x];
      if EndsWith(x, ".noarch") then r' + [x] else r'
  }

  /** The architectures of `arches` on which `pkg` in `repo` does not list `na`,
      in the order of `arches`. */
  function Missing(gp: Gather, arches: seq<string>, repo: string, pkg: string, na: string): (r: seq<string>)
    ensures forall a :: a in r <==> a in arches && !Observed(gp, repo, a, pkg, na)
    ensures NoDup(arches) ==> NoDup(r)
  {
    if arches == [] then []
    else
      var r' := Missing(gp, arches[..|arches| - 1], repo, pkg, na);
      var a := arches[|arches| - 1];
      assert arches == arches[..|arches| - 1] + [a];
      if !Observed(gp, repo, a, pkg, na) then r' + [a] else r'
  }

  /** The `for arch in all_arches` loop (lines 108-116) for one artifact `na`. */
  function MarkMissing(ex: MissingMap, gp: Gather, repo: string, pkg: string, na: string, arches: seq<string>): MissingMap {
    if arches == [] then ex
    else
      var ex' := MarkMissing(ex, gp, repo, pkg, na, arches[..|arches| - 1]);
      var a := arches[|arches| - 1];
      if !Observed(gp, repo, a, pkg, na) then
        var ex1 := if na in Keys(ex') then ex' else Put(ex', na, []);
        Put(ex1, na, GetOr(ex1, na, []) + [a])
      else ex'
  }

  /** Lines 106-116: `exclude_arches` for the noarch artifacts `nas` of one package and repository. */
  function ExcludeArches(gp: Gather, all: seq<string>, repo: string, pkg: string, nas: seq<string>): MissingMap {
    if nas == [] then []
    else MarkMissing(ExcludeArches(gp, all, repo, pkg, nas[..|nas| - 1]), gp, repo, pkg, nas[|nas| - 1], all)
  }

  /** Reference for `exclude_arches`: each artifact of `nas` that is missing
      somewhere, with the list of where, in the order of `nas`. */
  function MissingTable(gp: Gather, all: seq<string>, repo: string, pkg: string, nas: seq<string>): (r: MissingMap)
    ensures forall k :: k in Keys(r) <==> k in nas && Missing(gp, all, repo, pkg, k) != []
    ensures forall i :: 0 <= i < |r| ==> r[i].1 == Missing(gp, all, repo, pkg, r[i].0)
    ensures NoDup(nas) ==> UniqueKeys(r)
  {
    if nas == [] then []
    else
      var nas', na := nas[..|nas| - 1], nas[|nas| - 1];
      var r' := MissingTable(gp, all, repo, pkg, nas');
      var m := Missing(gp, all, repo, pkg, na);
      assert nas == nas' + [na];
      if m == [] then r'
      else
        var r := r' + [(na, m)];
        assert Keys(r) == Keys(r') + [na];
        r
  }

  /** Lines 98-124 for one package and repository: a record when one of its
      noarch artifacts is missing somewhere, none otherwise (both `continue`s). */
  function PairAsymmetry(gp: Gather, all: seq<string>, pkg: string, repo: string, e: Entry): seq<Asymmetry> {
    var nas := NoarchOf(e.includeFilter);
    if nas == [] then []
    else
      var ex := ExcludeArches(gp, all, repo, pkg, nas);
      if ex == [] then [] else [Asymmetry(pkg, repo, ex)]
  }

  /** The records of one package, repository by repository. */
  function PackageAsymmetries(gp: Gather, all: seq<string>, pkg: string, repos: Assoc<string, Entry>): seq<Asymmetry> {
    ConcatMap(repos, (re: (string, Entry)) => PairAsymmetry(gp, all, pkg, re.0, re.1))
  }

  /** Lines 94-124: the records of every package, in index order. */
  function Asymmetries(gp: Gather, all: seq<string>, idx: Index): seq<Asymmetry> {
    ConcatMap(idx, (pr: (string, Assoc<string, Entry>)) => PackageAsymmetries(gp, all, pr.0, pr.1))
  }
}
