/**
 The catalog synthesis of `pungicatalog.py` (lines 52-170) from the values it
 reads: the two multilib lists, `filter_packages`, `additional_packages` and
 the parsed `gather_prepopulate` document. Stage four (lines 153-170) turns
 each package of the artifact index into a catalog package.
 */
module Synthesis {
  import opened Text
  import opened Assoc
  import opened Catalog
  import opened Prepopulate
  import opened ArtifactIndex
  import opened NoarchExcludes
  import opened ExcludeRules

  /** Lines 157-159: packages whose name starts with `rocky-` are Rocky's own
      sources; every other package is a fork. */
  function Classify(pkg: string): (r: PackageType)
    ensures r == PackageTypeNormalSrc || r == PackageTypeNormalFork
    ensures r == PackageTypeNormalSrc <==> StartsWith(pkg, "rocky-")
  {
    if StartsWith(pkg, "rocky-") then PackageTypeNormalSrc else PackageTypeNormalFork
  }

  /** Lines 161-168: one repository record per repository of the package's table. */
  function RepoRecords(repos: Assoc<string, Entry>): (r: seq<Repository>)
    ensures |r| == |repos|
    ensures forall i :: 0 <= i < |r| ==>
              r[i].name == repos[i].0 && r[i].includeFilter == repos[i].1.includeFilter
              && r[i].multilib == repos[i].1.multilib
  {
    seq(|repos|, i requires 0 <= i < |repos| => Repository(repos[i].0, repos[i].1.includeFilter, repos[i].1.multilib))
  }

  /** Lines 155-169 for one package: no module components. */
  function PackageEntry(pkg: string, repos: Assoc<string, Entry>): Package {
    Package(pkg, Classify(pkg), [], RepoRecords(repos))
  }

  /** Lines 153-170: one package per key of the index, in key order. */
  function PackageEntries(idx: Index): (r: seq<Package>)
    ensures |r| == |idx|
    ensures forall i :: 0 <= i < |r| ==>
              r[i].name == idx[i].0 && r[i].packageType == Classify(idx[i].0)
              && r[i].moduleComponents == [] && r[i].repositories == RepoRecords(idx[i].1)
  {
    seq(|idx|, i requires 0 <= i < |idx| => PackageEntry(idx[i].0, idx[i].1))
  }

  /** The records of stage two for an input. */
  function Records(gp: Gather): seq<Asymmetry> {
    var s := BuildIndex(gp);
    Asymmetries(gp, s.allArches, s.index)
  }

  /** The exclude rules of stage three for an input. */
  function NoarchRules(gp: Gather): seq<FilterRule> {
    Rules(RepoArchIndexOf(Records(gp)))
  }

  /** Lines 52-170: the catalog written to the output file, before rendering.
      `whitelist` and `blacklist` are the first values of `multilib_whitelist`
      and `multilib_blacklist`. */
  function Synthesize(gp: Gather, whitelist: seq<string>, blacklist: seq<string>,
                      filterPackages: seq<FilterRule>, additionalPackages: seq<FilterRule>): CatalogSync
  {
    var configured := EmptyCatalog.(
      additionalMultilib := EmptyCatalog.additionalMultilib + whitelist,
      excludeMultilibFilter := EmptyCatalog.excludeMultilibFilter + blacklist,
      excludeFilter := EmptyCatalog.excludeFilter + filterPackages,
      includeFilter := EmptyCatalog.includeFilter + additionalPackages);
    var withRules := configured.(excludeFilter := configured.excludeFilter + NoarchRules(gp));
    AddPackages(withRules, PackageEntries(BuildIndex(gp).index))
  }
}
