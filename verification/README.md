# pungicatalog catalog synthesis, in Dafny

This project models the part of `pungicatalog` that turns a Pungi
`gather_prepopulate` document into a Peridot `CatalogSync` document. The
document is a map repository → architecture → package → artifact names
(`name.arch`). Four stages follow the configured passthrough lists:

1. **Artifact index.** The artifact index (`package_index`) records, for every
   package and repository, two lists:
   - `include_filter`: the artifact names it lists, each once;
   - `multilib`: the architectures under which it lists an artifact of a
     foreign architecture.

   It also records every architecture in first-seen order (`all_arches`).
2. **Noarch asymmetries.** For every package and repository, the stage lists
   the `.noarch` artifacts that some architecture of `all_arches` does not
   list, and where (`arch_specific_excludes`).
3. **Exclude rules.** The asymmetries are folded per repository and
   architecture (`repo_arch_index`). The fold yields one exclude rule
   `("^repo$", {arch: [names without .noarch]})` per affected repository.
4. **Package entries.** Each indexed package becomes one catalog package. Its
   type is `PACKAGE_TYPE_NORMAL_SRC` for `rocky-` names and
   `PACKAGE_TYPE_NORMAL_FORK` otherwise.

The catalog records, `add_package` and the text renderer `to_prototxt` are
modelled exactly, fragment by fragment. A second reading of the rendered
text, as a list of lines, states its structure.

Modelling choices:

- **Dictionaries.** Python dictionaries are insertion-ordered association
  lists (module `Assoc`). Assigning to an existing key keeps its position;
  assigning a new key appends it.
- **Input.** The input document is a value of type `Gather`. Its keys are
  unique at every level (`WellFormed`), as they are in any decoded JSON
  object.
- **Loops.** Each nested loop of the source is a left fold of a step function.
  The fold runs over the sequence of things the loop body sees:
  - `Events` for lines 72-92;
  - the records of stage two for lines 94-124;
  - `Marks` for lines 127-138.
- **What is proved.** Every list a fold builds equals the first-seen
  de-duplication (`Dedup`) of a projection of that sequence. From this
  follow:
  - no repeats;
  - the order of first occurrence;
  - membership properties, stated back in terms of the input document (`Observed`, `Listed`).

The source is `pungicatalog/pungicatalog.py` (function `main`, lines 44-170)
and `pungicatalog/catalog.py`.

**Artifact names without a dot.** The
architecture of an artifact is `na.split(".")[-1]`. For a name without a dot,
that is the whole name, not an empty suffix. `ArtifactIndex.ArchSuffix` uses
the whole name. So a dot-free name counts as foreign to every architecture
except one spelled like the name itself, and the name `noarch`.

## Model

| member | source | states |
|---|---|---|
| Seqs.AppendUnique | pungicatalog/pungicatalog.py:74-75 | `if x not in l: l.append(x)`: afterwards `x` is in the list, no other new element appears, the old list is a prefix with at most one element after it, and a list without repeats keeps none |
| Seqs.AppendUniquePresent | pungicatalog/pungicatalog.py:74-75 | adding an element that is already in the list leaves the list unchanged |
| Seqs.AppendUniqueAbsent | pungicatalog/pungicatalog.py:74-75 | adding an element that is not in the list puts it at the end |
| Seqs.Dedup | pungicatalog/pungicatalog.py:74-75 | the first-seen de-duplication of a list has no repeats, holds exactly the elements of the list, and is no longer than it |
| Seqs.DedupFirstSeen | pungicatalog/pungicatalog.py:74-75 | the de-duplicated list keeps the elements in the order of their first occurrence |
| Seqs.AppendAllDedup | pungicatalog/pungicatalog.py:91-92 | adding the elements of `b` one by one, each only when absent, to the de-duplication of `a` gives the de-duplication of `a + b` |
| Assoc.Put | pungicatalog/pungicatalog.py:78-83 | dictionary assignment: a new key is appended to the keys, an existing key keeps its place; the key then maps to the value, every other key is unaffected, and unique keys stay unique |
| Text.RemoveSuffix | pungicatalog/pungicatalog.py:146 | `removesuffix(".noarch")`: when the name ends with the suffix, the result plus the suffix is the name; otherwise the name is unchanged |
| Text.LastField | pungicatalog/pungicatalog.py:86-87 | the last field holds no dot, is a suffix of the name, and is either the whole name or preceded by a dot |
| Text.LastFieldIsLastPiece | pungicatalog/pungicatalog.py:86-87 | the last field is the last element of splitting the name at every dot |
| Catalog.TypeName | pungicatalog/catalog.py:34-46 | every package type renders as a `PACKAGE_TYPE_` token |
| Catalog.TypeNameInjective | pungicatalog/catalog.py:34-46 | two package types render the same token exactly when they are the same member, so the rendered type identifies the member |
| Catalog.AddPackage | pungicatalog/catalog.py:101-102 | `add_package` puts the package at the end, keeps every earlier package in place and leaves the other four fields unchanged |
| Catalog.AddPackagesAppends | pungicatalog/pungicatalog.py:153-170 | adding packages one by one appends exactly them, in order, and changes nothing else |
| Rendering.RepositoryTextLines | pungicatalog/catalog.py:55-88 | a repository block is its opening and name lines, then one quoted `include_filter` line per element and one `multilib` line per element, in order and none for an empty list, then `  }` |
| Rendering.ArchBlockTextLines | pungicatalog/catalog.py:114-126 | an arch block is its opening and key lines, one `glob_match` line per name in order (none for an empty list), and its closing line |
| Rendering.FilterArchTextLines | pungicatalog/catalog.py:114-129 | the arch filter renders one arch block per key, in key order |
| Rendering.FilterRuleTextLines | pungicatalog/catalog.py:131-140 | a filter block is its kind line, a `repo_match` line carrying the rule's first component, its arch blocks, and `}` |
| Rendering.FilterRulesTextLines | pungicatalog/catalog.py:131-151 | the exclude and include filters render one block per rule, in list order |
| Rendering.ReposTextLines | pungicatalog/catalog.py:79-91 | a package's repository blocks are rendered one per repository, in order |
| Rendering.PackageTextLines | pungicatalog/catalog.py:163-171 | a package block is its opening, name and type lines, one `module_component` line per component (none when empty), its repository blocks, and `}` |
| Rendering.PackagesTextLines | pungicatalog/catalog.py:163-171 | the packages render as exactly one package block per package, in list order |
| Rendering.ToPrototxtLines | pungicatalog/catalog.py:153-173 | the document is, in order: the kind header, the `additional_multilib` lines, the `exclude_multilib_filter` lines, the exclude filter blocks, the include filter blocks, then the package blocks |
| Rendering.RenderedLines | pungicatalog/catalog.py:153-173 | splitting the rendered document at newlines gives back exactly that list of lines, followed by an empty last piece |
| PrepopulateFacts.VisitInEvents | pungicatalog/pungicatalog.py:72-84 | the walk visits a (repository, architecture, package, artifact list) exactly when the document holds that list there |
| PrepopulateFacts.ListedIffPair | pungicatalog/pungicatalog.py:109-113 | for a well-formed document, looking up repository, architecture and package finds a list exactly when the document holds it there |
| PrepopulateFacts.ArchesOfEvents | pungicatalog/pungicatalog.py:72-75 | the architectures the walk meets are the architecture keys of every repository, in walk order |
| PrepopulateFacts.PackagesOfEvents | pungicatalog/pungicatalog.py:76-77 | the packages the walk meets are the package keys of every repository and architecture, in walk order |
| ArtifactIndex.ObserveAll | pungicatalog/pungicatalog.py:84-92 | the `na_list` loop adds each new name to `include_filter`, and adds the architecture to `multilib` once when some name has a foreign architecture suffix |
| ArtifactIndexFacts.StepCharacterised | pungicatalog/pungicatalog.py:72-92 | one loop step keeps `all_arches`, the package and repository keys and every entry equal to the de-duplication of what the walk has offered them |
| ArtifactIndexFacts.RunCharacterised | pungicatalog/pungicatalog.py:71-92 | after the walk, `all_arches`, the package keys, each package's repository keys and each entry's `include_filter` and `multilib` are the first-seen de-duplications of what the walk offered them, and keys are unique |
| IndexTheorems.VisitListed | pungicatalog/pungicatalog.py:72-84 | a walk visit is a lookup that succeeds in the input |
| IndexTheorems.AllArches | pungicatalog/pungicatalog.py:71-75 | `all_arches` is the first-seen de-duplication of every architecture key, has no repeats, and holds exactly the architectures some repository has |
| IndexTheorems.IndexedPackages | pungicatalog/pungicatalog.py:76-78 | the package keys are the first-seen de-duplication of every package key, unique, and hold exactly the packages the input lists somewhere |
| IndexTheorems.IndexedRepos | pungicatalog/pungicatalog.py:79-83 | a package's repositories are unique and are exactly those listing it under some architecture, even with an empty artifact list |
| IndexTheorems.IncludeFilter | pungicatalog/pungicatalog.py:84-92 | an entry's `include_filter` has no repeats and holds exactly the names listed for the package in the repository under any architecture |
| IndexTheorems.Multilib | pungicatalog/pungicatalog.py:85-90 | an entry's `multilib` has no repeats and holds architecture A exactly when, under A, the package lists an artifact whose suffix is neither A nor `noarch` |
| NoarchExcludes.NoarchOf | pungicatalog/pungicatalog.py:98-103 | the noarch filter keeps exactly the names ending in `.noarch`, and keeps a list without repeats so |
| NoarchExcludes.Missing | pungicatalog/pungicatalog.py:108-113 | an architecture is reported missing for an artifact exactly when it is one of the given architectures and does not list the artifact for the package in the repository; no repeats when the architectures have none |
| NoarchExcludes.MissingTable | pungicatalog/pungicatalog.py:106-116 | the reference `exclude_arches`: an artifact is a key exactly when it is missing somewhere; its value is where; keys are unique for distinct artifacts |
| NoarchFacts.NoarchOfAppend | pungicatalog/pungicatalog.py:98-103 | the noarch filter of a concatenation is the concatenation of the filters, so the kept names stay in input order |
| NoarchFacts.MissingAppend | pungicatalog/pungicatalog.py:108-113 | the missing architectures of a concatenation of architecture lists are the concatenation of theirs, so they follow the order of `all_arches` |
| NoarchFacts.MissingTableAppend | pungicatalog/pungicatalog.py:106-116 | the reference `exclude_arches` of a concatenation of artifact lists is the concatenation of the tables, so its keys follow the order of the noarch names |
| NoarchFacts.MarkMissingFresh | pungicatalog/pungicatalog.py:108-116 | the `all_arches` loop for a new artifact adds it once, with its missing architectures, or leaves the table alone |
| NoarchFacts.ExcludeArchesTable | pungicatalog/pungicatalog.py:106-117 | for distinct artifacts the loop builds exactly the reference table |
| NoarchFacts.PairAsymmetryIff | pungicatalog/pungicatalog.py:98-124 | a package and repository get a record exactly when one of their noarch artifacts is missing on an architecture of `all_arches`, and the record is then the reference table |
| NoarchFacts.PackageAsymmetriesMember | pungicatalog/pungicatalog.py:95-124 | the records of one package are exactly the records of its repositories |
| NoarchFacts.AsymmetriesMember | pungicatalog/pungicatalog.py:94-124 | a record is produced exactly when it is the record of a package and repository of the index |
| RecordTheorems.ObservedArch | pungicatalog/pungicatalog.py:72-75 | an architecture under which a package lists anything is in `all_arches` |
| RecordTheorems.RecordFrom | pungicatalog/pungicatalog.py:98-124 | a record's artifact ends in `.noarch` and is listed somewhere; its architecture list is where it is missing, is not empty, has no repeats, and leaves out some architecture of `all_arches` |
| RecordTheorems.RecordTo | pungicatalog/pungicatalog.py:98-124 | a listed noarch artifact missing on some architecture appears in its pair's record with the list of where |
| RecordTheorems.RecordIff | pungicatalog/pungicatalog.py:94-124 | a record of a package and repository lists an artifact with given architectures exactly when it is a listed noarch artifact and those are the architectures missing it, of which there is one at least |
| ExcludeRules.Stripped | pungicatalog/pungicatalog.py:145-146 | each name loses its `.noarch` suffix, in place |
| ExcludeRules.StrippedTable | pungicatalog/pungicatalog.py:143-150 | the reference `filter_tuple`: each architecture in table order with its names stripped and de-duplicated |
| ExcludeRules.Rules | pungicatalog/pungicatalog.py:141-151 | one rule per repository of `repo_arch_index`, in key order; rule i matches `^repo$` for the i-th repository and carries that repository's `filter_tuple` |
| ExcludeRulesFacts.MarkStepTables | pungicatalog/pungicatalog.py:128-138 | one fold step adds the repository key once, and adds the architecture and name once to that repository only |
| ExcludeRulesFacts.RunMarksCharacterised | pungicatalog/pungicatalog.py:127-138 | `repo_arch_index` keys, architecture keys and name lists are the first-seen de-duplications of what the records offered them |
| ExcludeRulesFacts.FilterTupleStripped | pungicatalog/pungicatalog.py:143-150 | for a table with unique keys, `filter_tuple` is the reference table |
| RulesTheorems.AnchoredInjective | pungicatalog/pungicatalog.py:142 | different repositories get different `^repo$` keys |
| RulesTheorems.MissInMarks | pungicatalog/pungicatalog.py:128-138 | the fold sees an artifact missing on an architecture of a repository exactly when some record of that repository says so |
| RulesTheorems.ReposMarkedRecords | pungicatalog/pungicatalog.py:128-131 | the repositories the fold meets, de-duplicated, are those of the records |
| RulesTheorems.RulesRepos | pungicatalog/pungicatalog.py:127-151 | one rule per repository that has a record, each repository once, in order of first record, with key `^repo$`; repositories without a record get none |
| RulesTheorems.RuleTable | pungicatalog/pungicatalog.py:141-150 | each rule's table is the stripped, de-duplicated reference table, with no architecture twice |
| RulesTheorems.RuleNames | pungicatalog/pungicatalog.py:143-150 | a rule excludes a name under an architecture exactly when a name of that architecture stripped of `.noarch` equals it |
| RulesTheorems.ExcludesFrom | pungicatalog/pungicatalog.py:127-151 | whatever a rule excludes comes from a missing artifact of that repository and architecture |
| RulesTheorems.ExcludesTo | pungicatalog/pungicatalog.py:127-151 | every missing artifact is excluded, stripped, under its architecture by its repository's rule |
| RulesTheorems.ExcludesIff | pungicatalog/pungicatalog.py:127-151 | the rules exclude a name on an architecture of a repository exactly when a record of that repository lists an artifact missing there whose stripped name it is |
| RulesTheorems.RuleGlobsNonEmpty | pungicatalog/pungicatalog.py:133-138 | no rule lists an architecture with an empty name list |
| RulesTheorems.RuleHasArch | pungicatalog/pungicatalog.py:127-151 | a rule has an architecture when its repository's records list a missing artifact |
| Synthesis.Classify | pungicatalog/pungicatalog.py:157-159 | stage four only ever assigns one of the two plain types, and a package is a Rocky source exactly when its name starts with `rocky-` |
| Synthesis.RepoRecords | pungicatalog/pungicatalog.py:161-168 | a package gets one repository record per repository of its index entry, in order, each named after the repository and carrying its `include_filter` and `multilib` |
| Synthesis.PackageEntries | pungicatalog/pungicatalog.py:153-170 | stage four produces one package per index key, in key order, named after the key, typed by `Classify`, without module components, with the repository records of its entry |
| SynthesisTheorems.SynthesizedParts | pungicatalog/pungicatalog.py:52-170 | the multilib lists and `additional_packages` are copied in unchanged; `exclude_filter` is `filter_packages` followed by the noarch rules; the packages are the index's |
| SynthesisTheorems.SynthesizedPackages | pungicatalog/pungicatalog.py:153-170 | the catalog has one package per package the input lists anywhere, once, in first-seen order; `rocky-` names are sources and all others forks; no module components |
| SynthesisTheorems.PackageEntriesNames | pungicatalog/pungicatalog.py:153-160 | stage four names its packages after the index keys, in order, and types them by the `rocky-` prefix |
| SynthesisTheorems.PackageFromIndex | pungicatalog/pungicatalog.py:161-168 | a catalog package's repositories are made from its own index entry |
| SynthesisTheorems.RepositoryFromIndex | pungicatalog/pungicatalog.py:161-168 | each repository record carries its repository's `include_filter` and `multilib` |
| SynthesisTheorems.RepoRecordsTable | pungicatalog/pungicatalog.py:161-168 | a table's repository records are one per key, with distinct names; the record of a repository carries that repository's `include_filter` and `multilib` |
| SynthesisTheorems.TableRepositories | pungicatalog/pungicatalog.py:161-168 | the repository records made from one package's index entry agree with the input (`RepositoriesListed`) |
| SynthesisTheorems.SynthesizedRepositories | pungicatalog/pungicatalog.py:153-170 | a package's repositories are those that list it, once each; in each, `include_filter` and `multilib` hold what the input lists, without repeats |
| SynthesisTheorems.NoarchExcludedFrom | pungicatalog/pungicatalog.py:71-151 | every exclusion of the noarch rules is a noarch gap of the input |
| SynthesisTheorems.NoarchExcludedTo | pungicatalog/pungicatalog.py:71-151 | a noarch artifact listed under one architecture and not another is excluded, stripped, on the other |
| SynthesisTheorems.NoarchExcludedWitness | pungicatalog/pungicatalog.py:71-151 | every noarch gap of the input is excluded |
| SynthesisTheorems.NoarchExcludedIff | pungicatalog/pungicatalog.py:71-151 | the noarch rules exclude exactly the noarch gaps: a name on an architecture of a repository where some package lists the name plus `.noarch` under another architecture but not this one |
| SynthesisTheorems.NoarchRulesAppended | pungicatalog/pungicatalog.py:64-151 | the rules after `filter_packages` in the catalog are the noarch rules |
| SynthesisTheorems.NoarchExcluded | pungicatalog/pungicatalog.py:64-151 | the catalog's exclude filter after `filter_packages` excludes exactly the noarch gaps of the input |
| SynthesisTheorems.NoarchRuleRepos | pungicatalog/pungicatalog.py:94-151 | no two noarch rules name the same repository, and a repository gets one exactly when it has a noarch gap |
| SynthesisTheorems.RecordHasMissing | pungicatalog/pungicatalog.py:94-124 | every record witnesses a noarch gap |
| SynthesisTheorems.RecordsNonEmpty | pungicatalog/pungicatalog.py:118-124 | every record lists some artifact with a non-empty list of architectures |
| SynthesisTheorems.NoarchRuleHasArch | pungicatalog/pungicatalog.py:126-151 | every noarch rule has at least one architecture |

## Left out

- Configuration loading with `kobo.conf`, fetching `gather_prepopulate` through `scm.py`, and writing the output file (`pungicatalog.py` lines 44-51 and 172-174) are I/O. The decoded document, the first values of `multilib_whitelist` and `multilib_blacklist`, `filter_packages` and `additional_packages` are parameters of `Synthesis.Synthesize`.
- `scm.py` only reads and decodes files. `comps2peridot` and `scripts/create-batch-task-list.py` are separate tools. None of them is part of this model.
- `Catalog.TypeName`: it renders the `type:` token as the enum member's name. What `f"{pkg.type}"` prints for a `str`-mixin enum depends on the Python version.
- The `PeridotCatalogSync` lists are class attributes, shared by every instance. The model has one document value, which starts empty as a fresh instance does in this program.
- `na_index` (`pungicatalog.py` line 117) is written and never read.
- `arch_specific_excludes[pkg][repo]` is a list, but each package and repository is reached once, so it only ever holds one table. The model keeps the records as one flat list in loop order.
- Input with repeated keys is not modelled: the theorems assume `Prepopulate.WellFormed`. Decoded JSON objects never repeat a key.
- Module streams, module-owned package types and the module platform block do not appear in the modelled files.
