/**
 The renderer of module Catalog, proved line by line against the reference
 line lists of module CatalogLines.

 Each block lemma goes in two small steps: the line list joins to its pieces
 (`JoinThen...`), and the renderer's literal text regroups into the same pieces
 (`...Literal`).
 */
module Rendering {
  import opened Text
  import opened Assoc
  import opened Catalog
  import opened CatalogLines

  lemma JoinPair(a: string, b: string)
    ensures Join([a, b], "\n") == a + "\n" + b
  {
    assert [a, b][..1] == [a];
  }

  lemma JoinTriple(a: string, b: string, c: string)
    ensures Join([a, b, c], "\n") == a + "\n" + b + "\n" + c
  {
    assert [a, b, c][..2] == [a, b];
    JoinPair(a, b);
  }

  /** Lines `head`, then `x`, then `last`, joined. */
  lemma JoinThenOne(head: seq<string>, x: seq<string>, last: string)
    requires |head| > 0
    ensures Join(head + x + [last], "\n") == Join(head, "\n") + Continuation(x) + ("\n" + last)
  {
    JoinContinuation(head + x, [last]);
    JoinContinuation(head, x);
  }

  /** Lines `head`, then `x`, then `y`, then `last`, joined. */
  lemma JoinThenTwo(head: seq<string>, x: seq<string>, y: seq<string>, last: string)
    requires |head| > 0
    ensures Join(head + x + y + [last], "\n") ==
              Join(head, "\n") + Continuation(x) + Continuation(y) + ("\n" + last)
  {
    JoinContinuation(head + x + y, [last]);
    JoinContinuation(head + x, y);
    JoinContinuation(head, x);
  }

  lemma RepositoryLiteral(q: string, x: string, y: string)
    ensures "  repository {\n    name: " + q + x + y + "\n  }" ==
              "  repository {" + "\n" + ("    name: " + q) + x + y + ("\n" + "  }")
  {
  }

  /** A repository block is its header line and name line, then one quoted
      `include_filter` line per include filter and one `multilib` line per multilib
      arch, in list order and none for an empty list, then its closing brace. */
  lemma RepositoryTextLines(r: Repository)
    ensures RepositoryText(r) == Join(RepositoryLines(r), "\n")
  {
    var q := Quote(r.name);
    var inc := QuotedLines("    include_filter: ", r.includeFilter);
    var ml := QuotedLines("    multilib: ", r.multilib);
    JoinThenTwo(["  repository {", "    name: " + q], inc, ml, "  }");
    JoinPair("  repository {", "    name: " + q);
    RepositoryLiteral(q, Continuation(inc), Continuation(ml));
  }

  /** The glob lines with the first one prefixed by a newline join to their continuation. */
  lemma GlobMatchContinuation(globs: seq<string>)
    ensures Join(GlobMatchLines(globs), "\n") == Continuation(QuotedLines("    glob_match: ", globs))
  {
    var gl := QuotedLines("    glob_match: ", globs);
    if |gl| > 0 {
      JoinFirst(gl);
    }
  }

  lemma ArchBlockLiteral(q: string, x: string)
    ensures "  arch {\n    key: " + q + x + "\n  }" ==
              "  arch {" + "\n" + ("    key: " + q) + x + ("\n" + "  }")
  {
  }

  /** An arch block is its header and key lines, one `glob_match` line per glob in
      order (none for an empty glob list), and its closing brace. */
  lemma ArchBlockTextLines(key: string, globs: seq<string>)
    ensures ArchBlockText(key, globs) == Join(ArchBlockLines(key, globs), "\n")
  {
    var q := Quote(key);
    var gl := QuotedLines("    glob_match: ", globs);
    JoinThenOne(["  arch {", "    key: " + q], gl, "  }");
    JoinPair("  arch {", "    key: " + q);
    GlobMatchContinuation(globs);
    ArchBlockLiteral(q, Continuation(gl));
  }

  /** The arch filter renders one arch block per key, in key order. */
  lemma FilterArchTextLines(arches: Assoc<string, seq<string>>)
    ensures FilterArchText(arches) == Join(FilterArchLines(arches), "\n")
  {
    var blocks := ArchBlocks(arches);
    var texts := ArchBlockTexts(arches);
    forall i | 0 <= i < |arches|
      ensures texts[i] == Join(blocks[i], "\n")
    {
      ArchBlockTextLines(arches[i].0, arches[i].1);
    }
    JoinFlatten(blocks, texts);
  }

  lemma FilterRuleLiteral(kind: string, q: string, x: string)
    ensures kind + " {\n  repo_match: " + q + "\n" + x + "\n}" ==
              kind + " {" + "\n" + ("  repo_match: " + q) + ("\n" + x) + ("\n" + "}")
  {
  }

  /** A filter block is its kind line, a `repo_match` line carrying the rule's first
      component, the rule's arch blocks (a blank line when it has none), and `}`. */
  lemma FilterRuleTextLines(kind: string, f: FilterRule)
    ensures FilterRuleText(kind, f) == Join(FilterRuleLines(kind, f), "\n")
  {
    var q := Quote(f.repoMatch);
    var body := OrBlank(FilterArchLines(f.arches));
    JoinThenOne([kind + " {", "  repo_match: " + q], body, "}");
    JoinPair(kind + " {", "  repo_match: " + q);
    JoinOrBlank(FilterArchLines(f.arches));
    FilterArchTextLines(f.arches);
    FilterRuleLiteral(kind, q, FilterArchText(f.arches));
  }

  /** The filter list renders one filter block per rule, in list order. */
  lemma FilterRulesTextLines(kind: string, rules: seq<FilterRule>)
    ensures FilterRulesText(kind, rules) == "\n" + Join(FilterRulesLines(kind, rules), "\n")
  {
    var blocks := FilterRuleBlocks(kind, rules);
    var texts := FilterRuleTexts(kind, rules);
    forall i | 0 <= i < |rules|
      ensures texts[i] == Join(blocks[i], "\n")
    {
      FilterRuleTextLines(kind, rules[i]);
    }
    JoinFlatten(blocks, texts);
  }

  /** The repository blocks of a package, read as lines. */
  lemma ReposTextLines(p: Package)
    ensures ReposText(p) == Join(Flatten(RepositoryBlocks(p.repositories)), "\n")
  {
    var rs := p.repositories;
    var blocks := RepositoryBlocks(rs);
    var texts := RepositoryTexts(rs);
    forall i | 0 <= i < |rs|
      ensures texts[i] == Join(blocks[i], "\n")
    {
      RepositoryTextLines(rs[i]);
    }
    JoinFlatten(blocks, texts);
  }

  lemma PackageLiteral(q: string, t: string, m: string, x: string)
    ensures "package {\n  name: " + q + "\n  type: " + t + m + "\n" + x + "\n}\n" ==
              "package {" + "\n" + ("  name: " + q) + "\n" + ("  type: " + t) + m + ("\n" + x)
              + ("\n" + "}") + "\n"
  {
  }

  /** A package block is its header, name and type lines, one `module_component` line
      per component (none when there are none), the repository blocks in order (a
      blank line when there are none), and `}`, each line ended by a newline. */
  lemma PackageTextLines(p: Package)
    ensures PackageText(p) == Unlines(PackageLines(p))
  {
    var q := Quote(p.name);
    var t := TypeName(p.packageType);
    var mc := QuotedLines("  module_component: ", p.moduleComponents);
    var rs := p.repositories;
    var repoLines := Flatten(RepositoryBlocks(rs));
    var head := ["package {", "  name: " + q, "  type: " + t];
    var body := OrBlank(repoLines);
    UnlinesJoin(PackageLines(p));
    JoinThenTwo(head, mc, body, "}");
    JoinTriple("package {", "  name: " + q, "  type: " + t);
    JoinOrBlank(repoLines);
    ReposTextLines(p);
    PackageLiteral(q, t, Continuation(mc), ReposText(p));
  }

  lemma {:induction false} PackagesTextLines(ps: seq<Package>)
    ensures PackagesText(ps) == Unlines(Flatten(PackageBlocks(ps)))
  {
    var blocks := PackageBlocks(ps);
    if ps != [] {
      var n := |ps| - 1;
      PackagesTextLines(ps[..n]);
      assert blocks[..n] == PackageBlocks(ps[..n]);
      FlattenLast(blocks);
      PackageTextLines(ps[n]);
      UnlinesAppend(Flatten(blocks[..n]), blocks[n]);
    }
  }

  /** The head of the document before the packages, as pieces. */
  lemma DocumentHeadJoin(am: seq<string>, emf: seq<string>, ef: seq<string>, inf: seq<string>)
    requires |am| > 0 && |emf| > 0 && |ef| > 0 && |inf| > 0
    ensures Join([Header] + am + emf + ef + inf, "\n") ==
              Header + Continuation(am) + Continuation(emf) + Continuation(ef) + Continuation(inf)
  {
    JoinContinuation([Header] + am + emf + ef, inf);
    JoinContinuation([Header] + am + emf, ef);
    JoinContinuation([Header] + am, emf);
    JoinContinuation([Header], am);
  }

  lemma DocumentLiteral(a: string, e: string, f: string, i: string, p: string)
    ensures Header + "\n" + a + ("\n" + e) + ("\n" + f) + ("\n" + i) + "\n" + p ==
              Header + ("\n" + a) + ("\n" + e) + ("\n" + f) + ("\n" + i) + "\n" + p
  {
  }

  /** The document is, line by line: the kind header; the `additional_multilib` lines;
      the `exclude_multilib_filter` lines; the `exclude_filter` blocks; the
      `include_filter` blocks (each of these four a blank line when empty); then one
      package block per package, in list order. */
  lemma ToPrototxtLines(c: CatalogSync)
    ensures ToPrototxt(c) == Unlines(DocumentLines(c))
  {
    var am := QuotedLines("additional_multilib: ", c.additionalMultilib);
    var emf := QuotedLines("exclude_multilib_filter: ", c.excludeMultilibFilter);
    var ef := FilterRulesLines("exclude_filter", c.excludeFilter);
    var inf := FilterRulesLines("include_filter", c.includeFilter);
    var pkgs := Flatten(PackageBlocks(c.packages));
    var head := [Header] + OrBlank(am) + OrBlank(emf) + OrBlank(ef) + OrBlank(inf);
    assert DocumentLines(c) == head + pkgs;
    UnlinesAppend(head, pkgs);
    UnlinesJoin(head);
    DocumentHeadJoin(OrBlank(am), OrBlank(emf), OrBlank(ef), OrBlank(inf));
    JoinOrBlank(am);
    JoinOrBlank(emf);
    JoinOrBlank(ef);
    JoinOrBlank(inf);
    FilterRulesTextLines("exclude_filter", c.excludeFilter);
    FilterRulesTextLines("include_filter", c.includeFilter);
    PackagesTextLines(c.packages);
    DocumentLiteral(Join(am, "\n"), Join(emf, "\n"), Join(ef, "\n"), Join(inf, "\n"), PackagesText(c.packages));
  }

  /** Reading the rendered document back line by line gives exactly `DocumentLines`
      (and the empty piece after the final newline), provided no line holds a newline
      of its own. */
  lemma RenderedLines(c: CatalogSync)
    requires forall i :: 0 <= i < |DocumentLines(c)| ==> '\n' !in DocumentLines(c)[i]
    ensures Split(ToPrototxt(c), '\n') == DocumentLines(c) + [""]
  {
    var ls := DocumentLines(c);
    var ls' := ls + [""];
    assert forall i :: 0 <= i < |ls'| ==> '\n' !in ls'[i] by {
      forall i | 0 <= i < |ls'|
        ensures '\n' !in ls'[i]
      {
        if i < |ls| {
          assert ls'[i] == ls[i];
        }
      }
    }
    calc {
      ToPrototxt(c);
      { ToPrototxtLines(c); }
      Unlines(ls);
      { UnlinesJoin(ls); }
      Join(ls, "\n") + "\n";
      Join(ls, "\n") + "\n" + Join([""], "\n");
      { JoinAppend(ls, [""], "\n"); }
      Join(ls', "\n");
    }
    SplitJoin(ls', '\n');
  }
}
