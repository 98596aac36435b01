/**
 Stage three of the catalog synthesis (`pungicatalog.py`, lines 126-151): the
 records of stage two, folded per repository and architecture into
 `repo_arch_index`, then turned into one exclude rule per repository.

 The nested loops of lines 128-138 are a fold of `MarkStep` over `Marks`, the
 sequence of things their bodies see: a record's repository (`Open`, lines
 130-131) and one missing artifact on one architecture (`Miss`, lines 135-138).
 */
module ExcludeRules {
  import opened Seqs
  import opened Text
  import opened Assoc
  import opened Catalog
  import opened NoarchExcludes

  datatype Mark =
    | Open(repo: string)
    | Miss(repo: string, arch: string, na: string)

  /** `repo_arch_index`: repository, then architecture, then artifact names. */
  type RepoArchIndex = Assoc<string, Assoc<string, seq<string>>>

  /** The marks of one record: its repository, then each missing artifact on each
      of its architectures, in table order. */
  function RecordMarks(rec: Asymmetry): seq<Mark> {
    [Open(rec.repo)]
    + ConcatMap(rec.missing, (nm: (string, seq<string>)) => ConcatMap(nm.1, (a: string) => [Miss(rec.repo, a, nm.0)]))
  }

  /** The walk of lines 128-138 over all records. */
  function Marks(recs: seq<Asymmetry>): seq<Mark> {
    ConcatMap(recs, RecordMarks)
  }

  /** `repo_arch_index.get(repo, {})`. */
  function ArchTable(rai: RepoArchIndex, repo: string): Assoc<string, seq<string>> {
    GetOr(rai, repo, [])
  }

  /** `repo_arch_index[repo][arch]`, empty where there is none. */
  function NamesAt(rai: RepoArchIndex, repo: string, arch: string): seq<string> {
    GetOr(ArchTable(rai, repo), arch, [])
  }

  function MarkStep(rai: RepoArchIndex, m: Mark): RepoArchIndex {
    match m
    case Open(repo) => if repo in Keys(rai) then rai else Put(rai, repo, [])
    case Miss(repo, arch, na) =>
      var t := ArchTable(rai, repo);
      var t' := if arch in Keys(t) then t else Put(t, arch, []);
      Put(rai, repo, Put(t', arch, AppendUnique(GetOr(t', arch, []), na)))
  }

  function RunMarks(ms: seq<Mark>): RepoArchIndex {
    if ms == [] then [] else MarkStep(RunMarks(ms[..|ms| - 1]), ms[|ms| - 1])
  }

  /** Lines 127-138. */
  function RepoArchIndexOf(recs: seq<Asymmetry>): RepoArchIndex {
    RunMarks(Marks(recs))
  }

  /** `na.removesuffix(".noarch")` for every name. */
  function Stripped(names: seq<string>): (r: seq<string>)
    ensures |r| == |names|
    ensures forall i :: 0 <= i < |names| ==> r[i] == RemoveSuffix(names[i], ".noarch")
  {
    seq(|names|, i requires 0 <= i < |names| => RemoveSuffix(names[i], ".noarch"))
  }

  /** Lines 143-150: `filter_tuple` for one repository's architecture table. */
  function FilterTuple(t: Assoc<string, seq<string>>): Assoc<string, seq<string>> {
    if t == [] then []
    else
      var ft := FilterTuple(t[..|t| - 1]);
      var arch, names := t[|t| - 1].0, t[|t| - 1].1;
      var ft' := if arch in Keys(ft) then ft else Put(ft, arch, []);
      Put(ft', arch, AppendAll(GetOr(ft', arch, []), Stripped(names)))
  }

  /** Reference for `filter_tuple`: each architecture with its names stripped of
      `.noarch` and de-duplicated, in table order. */
  function StrippedTable(t: Assoc<string, seq<string>>): (r: Assoc<string, seq<string>>)
    ensures |r| == |t|
    ensures forall i :: 0 <= i < |t| ==> r[i] == (t[i].0, Dedup(Stripped(t[i].1)))
  {
    seq(|t|, i requires 0 <= i < |t| => (t[i].0, Dedup(Stripped(t[i].1))))
  }

  /** `(f"^{repo}$", filter_tuple)`. */
  function RepoRule(repo: string, t: Assoc<string, seq<string>>): FilterRule {
    FilterRule("^" + repo + "$", FilterTuple(t))
  }

  /** Lines 141-151: one rule per repository of `repo_arch_index`, in key order. */
  function Rules(rai: RepoArchIndex): (r: seq<FilterRule>)
    ensures |r| == |rai|
    ensures forall i :: 0 <= i < |r| ==>
              r[i].repoMatch == "^" + rai[i].0 + "$" && r[i].arches == FilterTuple(rai[i].1)
  {
    seq(|rai|, i requires 0 <= i < |rai| => RepoRule(rai[i].0, rai[i].1))
  }

  // ---------------------------------------------------------------------------
  // Projections of the marks
  // ---------------------------------------------------------------------------

  /** The repositories marked, in order. */
  function ReposMarked(ms: seq<Mark>): seq<string> {
    ConcatMap(ms, (m: Mark) => [m.repo])
  }

  /** The architectures marked for `repo`, in order. */
  function ArchesMarked(ms: seq<Mark>, repo: string): seq<string> {
    ConcatMap(ms, (m: Mark) => if m.Miss? && m.repo == repo then [m.arch] else [])
  }

  /** The artifact names marked for `repo` and `arch`, in order. */
  function NamesMarked(ms: seq<Mark>, repo: string, arch: string): seq<string> {
    ConcatMap(ms, (m: Mark) => if m.Miss? && m.repo == repo && m.arch == arch then [m.na] else [])
  }

  ghost predicate RaiRepos(rai: RepoArchIndex, ms: seq<Mark>) {
    Keys(rai) == Dedup(ReposMarked(ms)) && UniqueKeys(rai)
  }

  ghost predicate RaiArches(rai: RepoArchIndex, ms: seq<Mark>) {
    forall repo :: Keys(ArchTable(rai, repo)) == Dedup(ArchesMarked(ms, repo)) && UniqueKeys(ArchTable(rai, repo))
  }

  ghost predicate RaiNames(rai: RepoArchIndex, ms: seq<Mark>) {
    forall repo, arch :: NamesAt(rai, repo, arch) == Dedup(NamesMarked(ms, repo, arch))
  }

  /** Every list of `repo_arch_index` is the first-seen de-duplication of what the
      marks offered it. */
  ghost predicate RaiCharacterised(rai: RepoArchIndex, ms: seq<Mark>) {
    RaiRepos(rai, ms) && RaiArches(rai, ms) && RaiNames(rai, ms)
  }
}
