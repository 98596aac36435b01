/**
 Sequence helpers shared by the whole model: the duplicate-free list that the
 catalog synthesis builds with its `if x not in l: l.append(x)` idiom, and the
 "first seen" order such a list keeps.
 */
module Seqs {

  /** No element occurs twice. */
  predicate NoDup<T(==)>(s: seq<T>) {
    forall i, j :: 0 <= i < j < |s| ==> s[i] != s[j]
  }

  /** Position of the first occurrence of `x` in `s`. */
  function FirstIndex<T(==)>(s: seq<T>, x: T): (r: nat)
    requires x in s
    ensures r < |s| && s[r] == x
    ensures x !in s[..r]
  {
    if s[0] == x then 0 else FirstIndex(s[1..], x) + 1
  }

  /** `if x not in s: s.append(x)`: adds `x` at the end unless it is already present. */
  function AppendUnique<T(==,!new)>(s: seq<T>, x: T): (r: seq<T>)
    ensures forall y :: y in r <==> y in s || y == x
    ensures NoDup(s) ==> NoDup(r)
    ensures |s| <= |r| <= |s| + 1 && r[..|s|] == s
  {
    if x in s then s else s + [x]
  }

  /** Adding an element that is already present leaves the list as it is. */
  lemma AppendUniquePresent<T(!new)>(s: seq<T>, x: T)
    requires x in s
    ensures AppendUnique(s, x) == s
  {
  }

  /** Adding an absent element puts it at the end. */
  lemma AppendUniqueAbsent<T(!new)>(s: seq<T>, x: T)
    requires x !in s
    ensures AppendUnique(s, x) == s + [x]
  {
  }

  /** The elements of `s` with repetitions removed, in the order they are first seen. */
  function Dedup<T(==,!new)>(s: seq<T>): (r: seq<T>)
    ensures NoDup(r)
    ensures forall x :: x in r <==> x in s
    ensures |r| <= |s|
  {
    if s == [] then []
    else
      assert s == s[..|s| - 1] + [s[|s| - 1]];
      AppendUnique(Dedup(s[..|s| - 1]), s[|s| - 1])
  }

  /** Appends every element of `xs` in turn with `AppendUnique`. */
  function AppendAll<T(==,!new)>(acc: seq<T>, xs: seq<T>): (r: seq<T>)
    ensures forall y :: y in r <==> y in acc || y in xs
    ensures NoDup(acc) ==> NoDup(r)
  {
    if xs == [] then acc
    else
      assert xs == xs[..|xs| - 1] + [xs[|xs| - 1]];
      AppendUnique(AppendAll(acc, xs[..|xs| - 1]), xs[|xs| - 1])
  }

  /** Removing the last element of a sequence and putting it back. */
  lemma SplitLast<T>(s: seq<T>)
    requires s != []
    ensures s == s[..|s| - 1] + [s[|s| - 1]]
  {
  }

  lemma AppendAssoc<T>(a: seq<T>, b: seq<T>, c: seq<T>)
    ensures a + (b + c) == (a + b) + c
  {
  }

  /** One step of an induction over the right operand of a concatenation. */
  lemma ConcatStep<T>(whole: seq<T>, whole': seq<T>, a: seq<T>, b': seq<T>, b: seq<T>, t: seq<T>)
    requires whole == whole' + t && whole' == a + b' && b == b' + t
    ensures whole == a + b
  {
  }

  /** Unfolds `Dedup` at its last element. */
  lemma DedupLast<T(!new)>(s: seq<T>)
    requires s != []
    ensures Dedup(s) == AppendUnique(Dedup(s[..|s| - 1]), s[|s| - 1])
  {
  }

  /** Unfolds `AppendAll` at its last element. */
  lemma AppendAllLast<T(!new)>(acc: seq<T>, xs: seq<T>)
    requires xs != []
    ensures AppendAll(acc, xs) == AppendUnique(AppendAll(acc, xs[..|xs| - 1]), xs[|xs| - 1])
  {
  }

  /** Appending the elements of `b` one by one to the de-duplication of `a`
      is the de-duplication of `a + b`. */
  lemma {:induction false} AppendAllDedup<T(!new)>(a: seq<T>, b: seq<T>)
    ensures AppendAll(Dedup(a), b) == Dedup(a + b)
  {
    if b == [] {
      assert a + b == a;
    } else {
      var b', x := b[..|b| - 1], b[|b| - 1];
      var ab := a + b;
      assert ab[..|ab| - 1] == a + b';
      assert ab[|ab| - 1] == x;
      calc {
        AppendAll(Dedup(a), b);
        { AppendAllLast(Dedup(a), b); }
        AppendUnique(AppendAll(Dedup(a), b'), x);
        { AppendAllDedup(a, b'); }
        AppendUnique(Dedup(a + b'), x);
        AppendUnique(Dedup(ab[..|ab| - 1]), ab[|ab| - 1]);
        { DedupLast(ab); }
        Dedup(ab);
      }
    }
  }

  /** A list that already has no repetitions is its own de-duplication. */
  lemma {:induction false} DedupOfNoDup<T(!new)>(s: seq<T>)
    requires NoDup(s)
    ensures Dedup(s) == s
  {
    if s != [] {
      var s' := s[..|s| - 1];
      assert NoDup(s');
      DedupOfNoDup(s');
      assert s[|s| - 1] !in s';
      SplitLast(s);
    }
  }

  lemma FirstIndexAppend<T>(s: seq<T>, x: T, y: T)
    requires y in s
    ensures FirstIndex(s + [x], y) == FirstIndex(s, y)
  {
    var k := FirstIndex(s, y);
    assert (s + [x])[..k] == s[..k];
    FirstIndexUnique(s + [x], y, k);
  }

  /** The first index is the only index that holds `x` with no `x` before it. */
  lemma FirstIndexUnique<T>(s: seq<T>, x: T, k: nat)
    requires k < |s| && s[k] == x && x !in s[..k]
    ensures FirstIndex(s, x) == k
  {
    var f := FirstIndex(s, x);
    if f < k {
      assert false;
    } else if k < f {
      assert false;
    }
  }

  /** One pair of positions of `Dedup(s' + [x])`, given the order holds for `Dedup(s')`. */
  lemma DedupFirstSeenPair<T(!new)>(s': seq<T>, x: T, i: int, j: int)
    requires forall i, j :: 0 <= i < j < |Dedup(s')| ==>
               FirstIndex(s', Dedup(s')[i]) < FirstIndex(s', Dedup(s')[j])
    requires 0 <= i < j < |AppendUnique(Dedup(s'), x)|
    ensures var d := AppendUnique(Dedup(s'), x);
            FirstIndex(s' + [x], d[i]) < FirstIndex(s' + [x], d[j])
  {
    var d' := Dedup(s');
    var d := AppendUnique(d', x);
    assert d[i] == d'[i];
    FirstIndexAppend(s', x, d[i]);
    if j < |d'| {
      assert d[j] == d'[j];
      FirstIndexAppend(s', x, d[j]);
    } else {
      assert d[j] == x && x !in s';
      FirstIndexUnique(s' + [x], x, |s'|);
    }
  }

  /** `Dedup` keeps the elements in the order of their first occurrence in the input. */
  lemma {:induction false} DedupFirstSeen<T(!new)>(s: seq<T>)
    ensures forall x :: x in Dedup(s) ==> x in s
    ensures forall i, j :: 0 <= i < j < |Dedup(s)| ==>
              FirstIndex(s, Dedup(s)[i]) < FirstIndex(s, Dedup(s)[j])
  {
    if s != [] {
      var s' := s[..|s| - 1];
      var x := s[|s| - 1];
      SplitLast(s);
      DedupFirstSeen(s');
      assert Dedup(s) == AppendUnique(Dedup(s'), x);
      forall i, j | 0 <= i < j < |Dedup(s)|
        ensures FirstIndex(s, Dedup(s)[i]) < FirstIndex(s, Dedup(s)[j])
      {
        DedupFirstSeenPair(s', x, i, j);
      }
    }
  }

  /** `[y for x in s for y in f(x)]`: the images of the elements of `s`, concatenated in order. */
  function ConcatMap<A, B>(s: seq<A>, f: A -> seq<B>): seq<B> {
    if s == [] then [] else ConcatMap(s[..|s| - 1], f) + f(s[|s| - 1])
  }

  /** `ConcatMap` distributes over concatenation. */
  lemma {:induction false} ConcatMapAppend<A, B>(a: seq<A>, b: seq<A>, f: A -> seq<B>)
    ensures ConcatMap(a + b, f) == ConcatMap(a, f) + ConcatMap(b, f)
  {
    if b == [] {
      assert a + b == a;
    } else {
      var b' := b[..|b| - 1];
      var ab := a + b;
      assert ab[..|ab| - 1] == a + b';
      ConcatMapAppend(a, b', f);
    }
  }

  /** An element of `ConcatMap(s, f)` comes from the image of some element of `s`. */
  lemma {:induction false} ConcatMapMember<A, B>(s: seq<A>, f: A -> seq<B>, y: B)
    ensures y in ConcatMap(s, f) <==> exists x :: x in s && y in f(x)
  {
    if s != [] {
      var s', x := s[..|s| - 1], s[|s| - 1];
      ConcatMapMember(s', f, y);
      SplitLast(s);
      if y in f(x) {
        assert x in s;
      }
      if z :| z in s && y in f(z) {
        if z != x {
          assert z in s';
        }
      }
    }
  }

  /** Unfolds `ConcatMap` at an appended element. */
  lemma ConcatMapSnoc<A, B>(s: seq<A>, x: A, f: A -> seq<B>)
    ensures ConcatMap(s + [x], f) == ConcatMap(s, f) + f(x)
  {
    assert (s + [x])[..|s|] == s;
  }

  /** Unfolds `Dedup` at an appended element. */
  lemma DedupSnoc<T(!new)>(s: seq<T>, x: T)
    ensures Dedup(s + [x]) == AppendUnique(Dedup(s), x)
  {
    assert (s + [x])[..|s|] == s;
  }

  /** Appending elements that are all present already changes nothing. */
  lemma {:induction false} AppendAllPresent<T(!new)>(acc: seq<T>, xs: seq<T>)
    requires forall x :: x in xs ==> x in acc
    ensures AppendAll(acc, xs) == acc
  {
    if xs != [] {
      var xs' := xs[..|xs| - 1];
      assert forall x :: x in xs' ==> x in xs;
      AppendAllPresent(acc, xs');
    }
  }

  /** Repeats of elements already seen leave the de-duplication alone. */
  lemma DedupAbsorb<T(!new)>(s: seq<T>, t: seq<T>)
    requires forall x :: x in t ==> x in s
    ensures Dedup(s + t) == Dedup(s)
  {
    AppendAllDedup(s, t);
    AppendAllPresent(Dedup(s), t);
  }
}
