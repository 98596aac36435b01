/**
 Stage one of the catalog synthesis (`pungicatalog.py`, lines 67-92): one pass
 over the input that collects every architecture and, for each package and
 repository, the artifact names seen there (`include_filter`) and the
 architectures that carry a foreign-architecture artifact (`multilib`).

 The nested loops are a fold of `Step` over the walk `Events(gp)`.
 */
module ArtifactIndex {
  import opened Seqs
  import opened Text
  import opened Assoc
  import opened Prepopulate

  /** `package_index[pkg][repo]`: `{"include_filter": [...], "multilib": [...]}`. */
  datatype Entry = Entry(includeFilter: seq<string>, multilib: seq<string>)

  const NoEntry := Entry([], [])

  /** `package_index`: package, then repository, then entry. */
  type Index = Assoc<string, Assoc<string, Entry>>

  /** The loop state: `all_arches` and `package_index`. */
  datatype Scan = Scan(allArches: seq<string>, index: Index)

  /** `na.split(".")[-1]`: the text after the last dot, or the whole name without one. */
  function ArchSuffix(na: string): string {
    LastField(na, '.')
  }

  /** The artifact's architecture is neither the one it is listed under nor `noarch`. */
  predicate Foreign(arch: string, na: string) {
    ArchSuffix(na) != arch && ArchSuffix(na) != "noarch"
  }

  predicate HasForeign(arch: string, nas: seq<string>) {
    exists na :: na in nas && Foreign(arch, na)
  }

  /** The `for na in na_list` loop (lines 85-92) on one entry. */
  function ObserveAll(e: Entry, arch: string, nas: seq<string>): (r: Entry)
    ensures r.includeFilter == AppendAll(e.includeFilter, nas)
    ensures r.multilib == if HasForeign(arch, nas) then AppendUnique(e.multilib, arch) else e.multilib
  {
    if nas == [] then e
    else
      var nas', na := nas[..|nas| - 1], nas[|nas| - 1];
      var e' := ObserveAll(e, arch, nas');
      SplitLast(nas);
      assert HasForeign(arch, nas) <==> HasForeign(arch, nas') || Foreign(arch, na);
      Entry(AppendUnique(e'.includeFilter, na),
            if Foreign(arch, na) then AppendUnique(e'.multilib, arch) else e'.multilib)
  }

  /** `package_index.get(pkg, {})`. */
  function RepoTable(idx: Index, pkg: string): Assoc<string, Entry> {
    GetOr(idx, pkg, [])
  }

  /** `package_index[pkg][repo]`, with empty lists where there is none. */
  function EntryAt(idx: Index, pkg: string, repo: string): Entry {
    GetOr(RepoTable(idx, pkg), repo, NoEntry)
  }

  /** One event of the walk: an architecture key (lines 74-75) or a package (lines 76-92). */
  function Step(s: Scan, ev: Event): Scan {
    match ev
    case ArchSeen(arch) => s.(allArches := AppendUnique(s.allArches, arch))
    case Visit(repo, arch, pkg, nas) =>
      var idx := if pkg in Keys(s.index) then s.index else Put(s.index, pkg, []);
      var repos := RepoTable(idx, pkg);
      var repos' := if repo in Keys(repos) then repos else Put(repos, repo, NoEntry);
      var e := GetOr(repos', repo, NoEntry);
      s.(index := Put(idx, pkg, Put(repos', repo, ObserveAll(e, arch, nas))))
  }

  /** The loop state after the events `es`, from empty lists. */
  function Run(es: seq<Event>): Scan {
    if es == [] then Scan([], []) else Step(Run(es[..|es| - 1]), es[|es| - 1])
  }

  /** Lines 71-92 on the input `gp`. */
  function BuildIndex(gp: Gather): Scan {
    Run(Events(gp))
  }

  /** The architectures under which `pkg` in `repo` carries a foreign artifact, visit by visit. */
  function MultilibOf(es: seq<Event>, pkg: string, repo: string): seq<string> {
    ConcatMap(es, (ev: Event) =>
      if ev.Visit? && ev.pkg == pkg && ev.repo == repo && HasForeign(ev.arch, ev.artifacts) then [ev.arch] else [])
  }

  /** `all_arches` holds the architectures seen so far, each once, in first-seen order. */
  ghost predicate ArchesSeen(s: Scan, es: seq<Event>) {
    s.allArches == Dedup(ArchesOf(es))
  }

  /** The package keys are the packages visited so far, each once, in first-seen order. */
  ghost predicate PackagesIndexed(s: Scan, es: seq<Event>) {
    Keys(s.index) == Dedup(PackagesOf(es)) && UniqueKeys(s.index)
  }

  /** Each package's repository keys are the repositories it was visited under. */
  ghost predicate ReposIndexed(s: Scan, es: seq<Event>) {
    forall pkg :: Keys(RepoTable(s.index, pkg)) == Dedup(ReposOf(es, pkg)) && UniqueKeys(RepoTable(s.index, pkg))
  }

  /** Each entry holds the artifacts and the multilib architectures seen for it. */
  ghost predicate EntriesIndexed(s: Scan, es: seq<Event>) {
    forall pkg, repo :: EntryAt(s.index, pkg, repo) ==
      Entry(Dedup(ArtifactsOf(es, pkg, repo)), Dedup(MultilibOf(es, pkg, repo)))
  }

  /** What the loop state holds after the events `es`: every list is the
      first-seen de-duplication of what the events offered it. */
  ghost predicate Characterised(s: Scan, es: seq<Event>) {
    ArchesSeen(s, es) && PackagesIndexed(s, es) && ReposIndexed(s, es) && EntriesIndexed(s, es)
  }
}
