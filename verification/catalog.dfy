/**
 The catalog document (`PeridotCatalogSync` and its records) and its text
 rendering in the `resf.peridot.v1.CatalogSync` text format.

 Each `...Text` function renders exactly as the Python renderer concatenates
 its fragments; module CatalogLines reads the same output as a list of lines.
 */
module Catalog {
  import opened Text
  import opened Assoc

  /** `PeridotCatalogSyncPackageType`. */
  datatype PackageType =
    | PackageTypeNormal
    | PackageTypeNormalFork
    | PackageTypeNormalSrc
    | PackageTypeModuleFork
    | PackageTypeModuleForkComponent
    | PackageTypeNormalForkModule
    | PackageTypeNormalForkModuleComponent
    | PackageTypeModuleForkModuleComponent

  /** The enum member's name, as written after `type:`. */
  function TypeName(t: PackageType): (r: string)
    ensures StartsWith(r, "PACKAGE_TYPE_")
  {
    match t
    case PackageTypeNormal => "PACKAGE_TYPE_NORMAL"
    case PackageTypeNormalFork => "PACKAGE_TYPE_NORMAL_FORK"
    case PackageTypeNormalSrc => "PACKAGE_TYPE_NORMAL_SRC"
    case PackageTypeModuleFork => "PACKAGE_TYPE_MODULE_FORK"
    case PackageTypeModuleForkComponent => "PACKAGE_TYPE_MODULE_FORK_COMPONENT"
    case PackageTypeNormalForkModule => "PACKAGE_TYPE_NORMAL_FORK_MODULE"
    case PackageTypeNormalForkModuleComponent => "PACKAGE_TYPE_NORMAL_FORK_MODULE_COMPONENT"
    case PackageTypeModuleForkModuleComponent => "PACKAGE_TYPE_MODULE_FORK_MODULE_COMPONENT"
  }

  /** Distinct package types render as distinct tokens, so the rendered type
      identifies the enum member. */
  lemma TypeNameInjective(a: PackageType, b: PackageType)
    ensures TypeName(a) == TypeName(b) <==> a == b
  {
  }

  /** `PeridotCatalogSyncRepository`: a package's filters within one repository. */
  datatype Repository = Repository(name: string, includeFilter: seq<string>, multilib: seq<string>)

  /** `PeridotCatalogSyncPackage`. */
  datatype Package = Package(
    name: string,
    packageType: PackageType,
    moduleComponents: seq<string>,
    repositories: seq<Repository>)

  /** One `(repo_match, {arch: [glob, ...]})` tuple of `exclude_filter` or `include_filter`. */
  datatype FilterRule = FilterRule(repoMatch: string, arches: Assoc<string, seq<string>>)

  /** `PeridotCatalogSync`: the whole catalog document. */
  datatype CatalogSync = CatalogSync(
    additionalMultilib: seq<string>,
    excludeMultilibFilter: seq<string>,
    excludeFilter: seq<FilterRule>,
    includeFilter: seq<FilterRule>,
    packages: seq<Package>)

  /** A freshly constructed `PeridotCatalogSync()`: every list empty. */
  const EmptyCatalog := CatalogSync([], [], [], [], [])

  /** `add_package`: the package goes at the end; everything already there stays. */
  function AddPackage(c: CatalogSync, p: Package): (r: CatalogSync)
    ensures |r.packages| == |c.packages| + 1
    ensures r.packages[|c.packages|] == p
    ensures forall i :: 0 <= i < |c.packages| ==> r.packages[i] == c.packages[i]
    ensures r.additionalMultilib == c.additionalMultilib
    ensures r.excludeMultilibFilter == c.excludeMultilibFilter
    ensures r.excludeFilter == c.excludeFilter
    ensures r.includeFilter == c.includeFilter
  {
    c.(packages := c.packages + [p])
  }

  /** Calling `add_package` for each of `ps` in turn. */
  function AddPackages(c: CatalogSync, ps: seq<Package>): (r: CatalogSync)
  {
    if ps == [] then c
    else AddPackage(AddPackages(c, ps[..|ps| - 1]), ps[|ps| - 1])
  }

  /** Adding packages one by one appends exactly them, in order, and touches nothing else. */
  lemma {:induction false} AddPackagesAppends(c: CatalogSync, ps: seq<Package>)
    ensures AddPackages(c, ps) == c.(packages := c.packages + ps)
  {
    if ps != [] {
      var ps' := ps[..|ps| - 1];
      AddPackagesAppends(c, ps');
      assert c.packages + ps == (c.packages + ps') + [ps[|ps| - 1]];
    }
  }

  // ---------------------------------------------------------------------------
  // Rendering, fragment by fragment as the Python renderer builds it
  // ---------------------------------------------------------------------------

  function Quote(s: string): string {
    "\"" + s + "\""
  }

  /** `[f'{prefix}"{x}"' for x in xs]`. */
  function QuotedLines(prefix: string, xs: seq<string>): (r: seq<string>)
    ensures |r| == |xs|
  {
    seq(|xs|, i requires 0 <= i < |xs| => prefix + Quote(xs[i]))
  }

  /** `include_filter_to_prototxt` of a repository. */
  function RepoIncludeFilterText(r: Repository): string {
    "\n" + Join(QuotedLines("    include_filter: ", r.includeFilter), "\n")
  }

  /** `multilib_to_prototxt` of a repository. */
  function RepoMultilibText(r: Repository): string {
    "\n" + Join(QuotedLines("    multilib: ", r.multilib), "\n")
  }

  /** One `repository { ... }` block of `repos_to_prototxt`. */
  function RepositoryText(r: Repository): string {
    "  repository {\n    name: " + Quote(r.name)
    + (if |r.includeFilter| > 0 then RepoIncludeFilterText(r) else "")
    + (if |r.multilib| > 0 then RepoMultilibText(r) else "")
    + "\n  }"
  }

  /** `mc_to_prototxt` of a package. */
  function ModuleComponentsText(p: Package): string {
    "\n" + Join(QuotedLines("  module_component: ", p.moduleComponents), "\n")
  }

  /** The repository blocks, one per repository. */
  function RepositoryTexts(rs: seq<Repository>): (r: seq<string>)
    ensures |r| == |rs|
  {
    seq(|rs|, i requires 0 <= i < |rs| => RepositoryText(rs[i]))
  }

  /** `repos_to_prototxt` of a package. */
  function ReposText(p: Package): string {
    Join(RepositoryTexts(p.repositories), "\n")
  }

  /** One `package { ... }` block of `to_prototxt`, with its trailing newline. */
  function PackageText(p: Package): string {
    "package {\n  name: " + Quote(p.name) + "\n  type: " + TypeName(p.packageType)
    + (if |p.moduleComponents| > 0 then ModuleComponentsText(p) else "")
    + "\n" + ReposText(p) + "\n}\n"
  }

  /** `additional_multilib_to_prototxt`. */
  function AdditionalMultilibText(c: CatalogSync): string {
    Join(QuotedLines("additional_multilib: ", c.additionalMultilib), "\n")
  }

  /** `exclude_multilib_filter_to_prototxt`. */
  function ExcludeMultilibFilterText(c: CatalogSync): string {
    "\n" + Join(QuotedLines("exclude_multilib_filter: ", c.excludeMultilibFilter), "\n")
  }

  /** The `glob_match` lines of one arch, the first one prefixed with a newline. */
  function GlobMatchLines(globs: seq<string>): seq<string> {
    var lines := QuotedLines("    glob_match: ", globs);
    if |lines| > 0 then ["\n" + lines[0]] + lines[1..] else lines
  }

  /** One `arch { ... }` block of `filter_arch_to_prototxt`. */
  function ArchBlockText(key: string, globs: seq<string>): string {
    "  arch {\n    key: " + Quote(key) + Join(GlobMatchLines(globs), "\n") + "\n  }"
  }

  /** The arch blocks, one per key. */
  function ArchBlockTexts(arches: Assoc<string, seq<string>>): (r: seq<string>)
    ensures |r| == |arches|
  {
    seq(|arches|, i requires 0 <= i < |arches| => ArchBlockText(arches[i].0, arches[i].1))
  }

  /** `filter_arch_to_prototxt`: one arch block per key, in key order. */
  function FilterArchText(arches: Assoc<string, seq<string>>): string {
    Join(ArchBlockTexts(arches), "\n")
  }

  /** One `exclude_filter { ... }` or `include_filter { ... }` block. */
  function FilterRuleText(kind: string, f: FilterRule): string {
    kind + " {\n  repo_match: " + Quote(f.repoMatch) + "\n" + FilterArchText(f.arches) + "\n}"
  }

  /** The filter blocks, one per rule. */
  function FilterRuleTexts(kind: string, rules: seq<FilterRule>): (r: seq<string>)
    ensures |r| == |rules|
  {
    seq(|rules|, i requires 0 <= i < |rules| => FilterRuleText(kind, rules[i]))
  }

  /** `exclude_filter_to_prototxt` and `include_filter_to_prototxt`. */
  function FilterRulesText(kind: string, rules: seq<FilterRule>): string {
    "\n" + Join(FilterRuleTexts(kind, rules), "\n")
  }

  const Header := "# kind: resf.peridot.v1.CatalogSync"

  /** The `ret += ...` loop over the packages. */
  function PackagesText(ps: seq<Package>): string {
    if ps == [] then "" else PackagesText(ps[..|ps| - 1]) + PackageText(ps[|ps| - 1])
  }

  /** `to_prototxt`: the whole document. */
  function ToPrototxt(c: CatalogSync): string {
    Header + "\n" + AdditionalMultilibText(c) + ExcludeMultilibFilterText(c)
    + FilterRulesText("exclude_filter", c.excludeFilter)
    + FilterRulesText("include_filter", c.includeFilter)
    + "\n" + PackagesText(c.packages)
  }
}
