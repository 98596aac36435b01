/**
 The gather-prepopulate input `gpjson`: for each repository, for each
 architecture, for each package, the artifact names (`name.arch`) listed there.

 The catalog synthesis walks this nested map in key order. `Events` flattens
 that walk into the sequence of things its loop bodies see: an architecture
 key of a repository (`ArchSeen`), and a package with its artifact list under a
 repository and architecture (`Visit`).
 */
module Prepopulate {
  import opened Seqs
  import opened Assoc

  type PackageMap = Assoc<string, seq<string>>
  type ArchMap = Assoc<string, PackageMap>
  type Gather = Assoc<string, ArchMap>

  /** The input came from a JSON object: no key twice at any of the three levels. */
  predicate WellFormed(gp: Gather) {
    UniqueKeys(gp)
    && (forall i :: 0 <= i < |gp| ==> UniqueKeys(gp[i].1))
    && (forall i, j :: 0 <= i < |gp| && 0 <= j < |gp[i].1| ==> UniqueKeys(gp[i].1[j].1))
  }

  /** `gpjson[repo][arch][pkg]`, or `None` when one of the three keys is missing. */
  function Listed(gp: Gather, repo: string, arch: string, pkg: string): Option<seq<string>> {
    match Get(gp, repo)
    case None => None
    case Some(am) =>
      match Get(am, arch)
      case None => None
      case Some(pm) => Get(pm, pkg)
  }

  /** `arch in gpjson[repo] and pkg in gpjson[repo][arch] and na in gpjson[repo][arch][pkg]`. */
  predicate Observed(gp: Gather, repo: string, arch: string, pkg: string, na: string) {
    Listed(gp, repo, arch, pkg).Some? && na in Listed(gp, repo, arch, pkg).value
  }

  /** The list `nas` sits under `repo`, `arch` and `pkg` somewhere in the input. */
  ghost predicate ListedPair(gp: Gather, repo: string, arch: string, pkg: string, nas: seq<string>) {
    exists am, pm :: (repo, am) in gp && (arch, pm) in am && (pkg, nas) in pm
  }

  datatype Event =
    | ArchSeen(arch: string)
    | Visit(repo: string, arch: string, pkg: string, artifacts: seq<string>)

  /** The packages of one architecture of one repository, in key order. */
  function VisitEvents(repo: string, arch: string, pm: PackageMap): seq<Event> {
    ConcatMap(pm, (pn: (string, seq<string>)) => [Visit(repo, arch, pn.0, pn.1)])
  }

  /** The architectures of one repository, each followed by its packages. */
  function RepoEvents(repo: string, am: ArchMap): seq<Event> {
    ConcatMap(am, (ap: (string, PackageMap)) => [ArchSeen(ap.0)] + VisitEvents(repo, ap.0, ap.1))
  }

  /** The whole walk of lines 72-92, repository by repository. */
  function Events(gp: Gather): seq<Event> {
    ConcatMap(gp, (rm: (string, ArchMap)) => RepoEvents(rm.0, rm.1))
  }

  /** Every architecture key of every repository, in walk order (repeats kept). */
  function ArchStream(gp: Gather): seq<string> {
    ConcatMap(gp, (rm: (string, ArchMap)) => Keys(rm.1))
  }

  /** Every package key under every repository and architecture, in walk order. */
  function PackageStream(gp: Gather): seq<string> {
    ConcatMap(gp, (rm: (string, ArchMap)) => ConcatMap(rm.1, (ap: (string, PackageMap)) => Keys(ap.1)))
  }

  // ---------------------------------------------------------------------------
  // Projections of a walk
  // ---------------------------------------------------------------------------

  /** The architectures seen, in order. */
  function ArchesOf(es: seq<Event>): seq<string> {
    ConcatMap(es, (ev: Event) => if ev.ArchSeen? then [ev.arch] else [])
  }

  /** The packages visited, in order. */
  function PackagesOf(es: seq<Event>): seq<string> {
    ConcatMap(es, (ev: Event) => if ev.Visit? then [ev.pkg] else [])
  }

  /** The repositories under which `pkg` is visited, in order. */
  function ReposOf(es: seq<Event>, pkg: string): seq<string> {
    ConcatMap(es, (ev: Event) => if ev.Visit? && ev.pkg == pkg then [ev.repo] else [])
  }

  /** The artifact names listed for `pkg` under `repo`, visit after visit. */
  function ArtifactsOf(es: seq<Event>, pkg: string, repo: string): seq<string> {
    ConcatMap(es, (ev: Event) => if ev.Visit? && ev.pkg == pkg && ev.repo == repo then ev.artifacts else [])
  }
}
