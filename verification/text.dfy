/**
 The handful of Python `str` operations the catalog synthesis relies on:
 `startswith`, `endswith`, `removesuffix`, `split` and `join`.
 */
module Text {

  /** `s.startswith(p)`. */
  predicate StartsWith(s: string, p: string) {
    |p| <= |s| && s[..|p|] == p
  }

  /** `s.endswith(p)`. */
  predicate EndsWith(s: string, p: string) {
    |p| <= |s| && s[|s| - |p|..] == p
  }

  /** `s.removesuffix(p)`: drops `p` from the end of `s` when it is there. */
  function RemoveSuffix(s: string, p: string): (r: string)
    ensures EndsWith(s, p) ==> r + p == s
    ensures !EndsWith(s, p) ==> r == s
  {
    if EndsWith(s, p) then
      assert s == s[..|s| - |p|] + s[|s| - |p|..];
      s[..|s| - |p|]
    else s
  }

  /** `s.split(sep)` for a one-character separator: the pieces between separators,
      always at least one (an empty `s` gives one empty piece). */
  function Split(s: string, sep: char): (r: seq<string>)
    ensures |r| >= 1
    ensures forall i :: 0 <= i < |r| ==> sep !in r[i]
  {
    if s == [] then [[]]
    else
      var p := Split(s[..|s| - 1], sep);
      var c := s[|s| - 1];
      if c == sep then p + [[]]
      else p[..|p| - 1] + [p[|p| - 1] + [c]]
  }

  /** `s.split(sep)[-1]`: the text after the last separator, or all of `s` when it
      holds no separator. */
  function LastField(s: string, sep: char): (r: string)
    ensures sep !in r
    ensures |r| <= |s| && s[|s| - |r|..] == r
    ensures |r| == |s| || s[|s| - |r| - 1] == sep
  {
    if s == [] then []
    else if s[|s| - 1] == sep then []
    else
      var s', c := s[..|s| - 1], s[|s| - 1];
      var r' := LastField(s', sep);
      SuffixExtend(s, |r'|);
      r' + [c]
  }

  /** A suffix of `s` one longer than a suffix of `s` without its last character. */
  lemma SuffixExtend(s: string, k: nat)
    requires k < |s|
    ensures s[|s| - k - 1..] == s[..|s| - 1][|s| - 1 - k..] + [s[|s| - 1]]
  {
  }

  /** `sep.join(parts)`. */
  function Join(parts: seq<string>, sep: string): string {
    if |parts| == 0 then []
    else if |parts| == 1 then parts[0]
    else Join(parts[..|parts| - 1], sep) + sep + parts[|parts| - 1]
  }

  /** `LastField` is the last piece that `Split` produces. */
  lemma {:induction false} LastFieldIsLastPiece(s: string, sep: char)
    ensures LastField(s, sep) == Split(s, sep)[|Split(s, sep)| - 1]
  {
    if s != [] && s[|s| - 1] != sep {
      LastFieldIsLastPiece(s[..|s| - 1], sep);
    }
  }

  /** Joining two non-empty lists joins their joins. */
  lemma {:induction false} JoinAppend(a: seq<string>, b: seq<string>, sep: string)
    requires |a| > 0 && |b| > 0
    ensures Join(a + b, sep) == Join(a, sep) + sep + Join(b, sep)
  {
    var ab := a + b;
    if |b| == 1 {
      assert ab[..|ab| - 1] == a;
    } else {
      var b' := b[..|b| - 1];
      JoinAppend(a, b', sep);
      assert ab[..|ab| - 1] == a + b';
    }
  }

  /** A separator-free string splits into itself alone. */
  lemma {:induction false} SplitNoSep(x: string, sep: char)
    requires sep !in x
    ensures Split(x, sep) == [x]
  {
    if x != [] {
      var x' := x[..|x| - 1];
      assert sep !in x' by { assert forall i :: 0 <= i < |x'| ==> x'[i] == x[i]; }
      SplitNoSep(x', sep);
      assert x == x' + [x[|x| - 1]];
    }
  }

  /** Splitting `a`, a separator, and a separator-free `x` adds `x` as the last piece. */
  lemma {:induction false} SplitAfterSep(a: string, x: string, sep: char)
    requires sep !in x
    ensures Split(a + [sep] + x, sep) == Split(a, sep) + [x]
  {
    var s := a + [sep] + x;
    if x == [] {
      assert s[..|s| - 1] == a;
    } else {
      var x' := x[..|x| - 1];
      assert sep !in x' by { assert forall i :: 0 <= i < |x'| ==> x'[i] == x[i]; }
      SplitAfterSep(a, x', sep);
      assert s[..|s| - 1] == a + [sep] + x';
      assert x == x' + [x[|x| - 1]];
    }
  }

  /** Round trip: when no part holds the separator, splitting the joined text
      gives the parts back. */
  lemma {:induction false} SplitJoin(parts: seq<string>, sep: char)
    requires |parts| > 0
    requires forall i :: 0 <= i < |parts| ==> sep !in parts[i]
    ensures Split(Join(parts, [sep]), sep) == parts
  {
    if |parts| == 1 {
      SplitNoSep(parts[0], sep);
      assert parts == [parts[0]];
    } else {
      var ps, x := parts[..|parts| - 1], parts[|parts| - 1];
      assert forall i :: 0 <= i < |ps| ==> ps[i] == parts[i];
      SplitJoin(ps, sep);
      assert Join(parts, [sep]) == Join(ps, [sep]) + [sep] + x;
      SplitAfterSep(Join(ps, [sep]), x, sep);
      assert parts == ps + [x];
    }
  }
}
