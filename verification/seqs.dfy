/** List helpers the merges over a module and its library closure share. */
module Seqs {

  /** The lists one after the other (`for M in ...: for x in M: ...`). */
  function Concat<T>(xss: seq<seq<T>>): seq<T> {
    if xss == [] then [] else xss[0] + Concat(xss[1..])
  }

  lemma ConcatFrom<T>(xss: seq<seq<T>>, i: nat)
    requires i < |xss|
    ensures Concat(xss[i..]) == xss[i] + Concat(xss[i + 1..])
  {
    assert xss[i..][0] == xss[i];
    assert xss[i..][1..] == xss[i + 1..];
  }

  lemma ConcatTail<T>(x: T, xs: seq<T>, rest: seq<T>)
    ensures ([x] + xs + rest)[0] == x && ([x] + xs + rest)[1..] == xs + rest
  {
  }

  lemma Assoc<T>(a: seq<T>, b: seq<T>, c: seq<T>)
    ensures a + (b + c) == a + b + c
  {
  }

  lemma AppendNil<T>(a: seq<T>)
    ensures a + [] == a && [] + a == a
  {
  }

  /** Dropping the head of a suffix leaves a suffix. */
  lemma SuffixCons<T>(r: seq<T>, x: T, p: seq<T>)
    requires |p| + 1 <= |r| && r[|r| - |p| - 1..] == [x] + p
    ensures r[|r| - |p|..] == p
  {
    assert r[|r| - |p|..] == r[|r| - |p| - 1..][1..];
  }

  /** The items of `xs` that satisfy `p`, in their order. */
  function Filter<T(==, !new)>(p: T -> bool, xs: seq<T>): (r: seq<T>)
    ensures |r| <= |xs|
    ensures forall x :: x in r <==> x in xs && p(x)
  {
    if xs == [] then [] else (if p(xs[0]) then [xs[0]] else []) + Filter(p, xs[1..])
  }

  predicate Distinct<T(==)>(xs: seq<T>) {
    forall i, j :: 0 <= i < j < |xs| ==> xs[i] != xs[j]
  }

  lemma DistinctAppend<T>(a: seq<T>, b: seq<T>)
    requires Distinct(a) && Distinct(b)
    requires forall x :: x in a ==> x !in b
    ensures Distinct(a + b)
  {
    var c := a + b;
    forall i, j | 0 <= i < j < |c| ensures c[i] != c[j] {
      if j < |a| {
        assert c[i] == a[i] && c[j] == a[j];
      } else if i >= |a| {
        assert c[i] == b[i - |a|] && c[j] == b[j - |a|];
      } else {
        assert c[i] == a[i] && c[j] == b[j - |a|];
        assert a[i] in a && b[j - |a|] in b;
      }
    }
  }

  /** Appends the items of `xs` not yet in `acc`, in order (`if x in acc:
      continue; acc.append(x)`). */
  function Dedupe<T(==)>(acc: seq<T>, xs: seq<T>): (r: seq<T>)
    decreases |xs|
  {
    if xs == [] then acc
    else Dedupe(if xs[0] in acc then acc else acc + [xs[0]], xs[1..])
  }

  /** The result has no repetition, holds exactly what `acc` and `xs` hold, and
      starts with `acc`. */
  lemma {:induction false} DedupeSpec<T>(acc: seq<T>, xs: seq<T>)
    requires Distinct(acc)
    ensures var r := Dedupe(acc, xs);
            && Distinct(r)
            && (forall x :: x in r <==> x in acc || x in xs)
            && |acc| <= |r| && r[..|acc|] == acc
    decreases |xs|
  {
    if xs != [] {
      var acc' := if xs[0] in acc then acc else acc + [xs[0]];
      DedupeSpec(acc', xs[1..]);
      var r := Dedupe(acc', xs[1..]);
      assert r[..|acc|] == r[..|acc'|][..|acc|];
      assert forall x :: x in xs <==> x == xs[0] || x in xs[1..] by {
        assert xs == [xs[0]] + xs[1..];
      }
    }
  }

  /** Deduplicating a concatenation is deduplicating its parts in turn. */
  lemma {:induction false} DedupeAppend<T>(acc: seq<T>, a: seq<T>, b: seq<T>)
    ensures Dedupe(acc, a + b) == Dedupe(Dedupe(acc, a), b)
    decreases |a|
  {
    if a == [] {
      assert a + b == b;
    } else {
      assert (a + b)[0] == a[0] && (a + b)[1..] == a[1..] + b;
      DedupeAppend(if a[0] in acc then acc else acc + [a[0]], a[1..], b);
    }
  }
}
