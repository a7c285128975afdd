/** Source files and `_MatchBuildRuleOrder`: among the files that share a name up
    to their extension, only the one whose extension comes first in the
    build-rule order is built. */
module BuildOrder {
  import opened Wrappers
  import opened Dicts
  import opened Seqs

  /** A file of the module as its description lists it. Its path is `stem + ext`,
      and the build tool treats two files with the same path as the same file. */
  datatype File = File(
    stem: string,
    ext: string,
    dir: string,
    tagName: string,
    family: string,
    isBinary: bool,
    target: string,
    fileType: string)
  {
    function Path(): string { stem + ext }
  }

  /** No two files of the list share a path. */
  predicate DistinctPaths(fs: seq<File>) {
    forall i, j :: 0 <= i < j < |fs| ==> fs[i].Path() != fs[j].Path()
  }

  // ---- the build-rule order ----

  /** `order.index(e)`: the first position of `e`, or `|order|` when absent. */
  function Rank(order: seq<string>, e: string): (n: nat)
    ensures n <= |order|
    ensures n < |order| <==> e in order
    ensures n < |order| ==> order[n] == e
    ensures forall i :: 0 <= i < n ==> order[i] != e
  {
    if order == [] then 0
    else if order[0] == e then 0
    else 1 + Rank(order[1..], e)
  }

  /** Two extensions of the order with the same rank are the same extension. */
  lemma RankInjective(order: seq<string>, a: string, b: string)
    requires a in order && b in order && Rank(order, a) == Rank(order, b)
    ensures a == b
  {
  }

  predicate SortedByRank(order: seq<string>, s: seq<string>) {
    forall i, j :: 0 <= i < j < |s| ==> Rank(order, s[i]) <= Rank(order, s[j])
  }

  /** Puts `x` before the first element that does not rank ahead of it. */
  function Insert(order: seq<string>, x: string, s: seq<string>): seq<string> {
    if s == [] then [x]
    else if Rank(order, x) <= Rank(order, s[0]) then [x] + s
    else [s[0]] + Insert(order, x, s[1..])
  }

  /** `exts.sort(key=lambda i: order.index(i))`: a stable sort by rank. */
  function SortByRank(order: seq<string>, xs: seq<string>): seq<string> {
    if xs == [] then [] else Insert(order, xs[0], SortByRank(order, xs[1..]))
  }

  lemma {:induction false} InsertPerm(order: seq<string>, x: string, s: seq<string>)
    ensures multiset(Insert(order, x, s)) == multiset(s) + multiset{x}
    ensures |Insert(order, x, s)| == |s| + 1
    decreases |s|
  {
    if s != [] && Rank(order, x) > Rank(order, s[0]) {
      InsertPerm(order, x, s[1..]);
      assert s == [s[0]] + s[1..];
    }
  }

  lemma {:induction false} InsertMembers(order: seq<string>, x: string, s: seq<string>)
    ensures forall y :: y in Insert(order, x, s) <==> y == x || y in s
    decreases |s|
  {
    if s != [] && Rank(order, x) > Rank(order, s[0]) {
      InsertMembers(order, x, s[1..]);
      assert s == [s[0]] + s[1..];
    }
  }

  lemma SortedTail(order: seq<string>, s: seq<string>)
    requires s != [] && SortedByRank(order, s)
    ensures SortedByRank(order, s[1..])
    ensures forall y :: y in s[1..] ==> Rank(order, s[0]) <= Rank(order, y)
  {
    var t := s[1..];
    forall i, j | 0 <= i < j < |t| ensures Rank(order, t[i]) <= Rank(order, t[j]) {
      assert t[i] == s[i + 1] && t[j] == s[j + 1];
    }
    forall y | y in t ensures Rank(order, s[0]) <= Rank(order, y) {
      var k :| 0 <= k < |t| && t[k] == y;
      assert s[k + 1] == y;
    }
  }

  lemma SortedCons(order: seq<string>, a: string, r: seq<string>)
    requires SortedByRank(order, r)
    requires forall y :: y in r ==> Rank(order, a) <= Rank(order, y)
    ensures SortedByRank(order, [a] + r)
  {
    var u := [a] + r;
    forall i, j | 0 <= i < j < |u| ensures Rank(order, u[i]) <= Rank(order, u[j]) {
      assert u[j] == r[j - 1];
      if i > 0 {
        assert u[i] == r[i - 1];
      }
    }
  }

  lemma {:induction false} InsertSorted(order: seq<string>, x: string, s: seq<string>)
    requires SortedByRank(order, s)
    ensures SortedByRank(order, Insert(order, x, s))
    decreases |s|
  {
    if s == [] {
    } else if Rank(order, x) <= Rank(order, s[0]) {
      SortedTail(order, s);
      SortedCons(order, x, s);
    } else {
      SortedTail(order, s);
      InsertSorted(order, x, s[1..]);
      InsertMembers(order, x, s[1..]);
      SortedCons(order, s[0], Insert(order, x, s[1..]));
    }
  }

  /** The sort keeps every extension with its multiplicity. */
  lemma {:induction false} SortPerm(order: seq<string>, xs: seq<string>)
    ensures multiset(SortByRank(order, xs)) == multiset(xs)
    ensures |SortByRank(order, xs)| == |xs|
  {
    if xs != [] {
      SortPerm(order, xs[1..]);
      InsertPerm(order, xs[0], SortByRank(order, xs[1..]));
      assert xs == [xs[0]] + xs[1..];
    }
  }

  /** The sort orders the extensions by rank. */
  lemma {:induction false} SortSorted(order: seq<string>, xs: seq<string>)
    ensures SortedByRank(order, SortByRank(order, xs))
  {
    if xs != [] {
      SortSorted(order, xs[1..]);
      InsertSorted(order, xs[0], SortByRank(order, xs[1..]));
    }
  }

  lemma {:induction false} SortMembers(order: seq<string>, xs: seq<string>)
    ensures forall y :: y in SortByRank(order, xs) <==> y in xs
  {
    if xs != [] {
      SortMembers(order, xs[1..]);
      InsertMembers(order, xs[0], SortByRank(order, xs[1..]));
      assert xs == [xs[0]] + xs[1..];
    }
  }

  lemma SortDistinct(order: seq<string>, xs: seq<string>)
    requires Distinct(xs)
    ensures Distinct(SortByRank(order, xs))
  {
    SortPerm(order, xs);
    var s := SortByRank(order, xs);
    forall i, j | 0 <= i < j < |s| ensures s[i] != s[j] {
      DistinctCount(xs, s, i, j);
    }
  }

  /** For distinct extensions of the order, an extension is dropped by the sort's
      tail exactly when another of them ranks ahead of it. */
  lemma SortTail(order: seq<string>, xs: seq<string>, e: string)
    requires xs != [] && Distinct(xs)
    requires forall x :: x in xs ==> x in order
    ensures e in SortByRank(order, xs)[1..] <==> e in xs && exists x :: x in xs && Rank(order, x) < Rank(order, e)
  {
    var s := SortByRank(order, xs);
    SortMembers(order, xs);
    SortedHeadLeast(order, xs);
    if e in s[1..] {
      SortTailOutranked(order, xs, e);
    }
    if e in xs && exists x :: x in xs && Rank(order, x) < Rank(order, e) {
      var x :| x in xs && Rank(order, x) < Rank(order, e);
      assert s == [s[0]] + s[1..];
      assert Rank(order, s[0]) <= Rank(order, x);
    }
  }

  /** The head of the sorted list ranks no lower than any element. */
  lemma SortedHeadLeast(order: seq<string>, xs: seq<string>)
    requires xs != []
    ensures SortByRank(order, xs) != []
    ensures forall x :: x in xs ==> Rank(order, SortByRank(order, xs)[0]) <= Rank(order, x)
  {
    SortSorted(order, xs);
    SortMembers(order, xs);
    var s := SortByRank(order, xs);
    SortedTail(order, s);
    assert s == [s[0]] + s[1..];
  }

  /** An element of the sorted tail is outranked by the head. */
  lemma SortTailOutranked(order: seq<string>, xs: seq<string>, e: string)
    requires xs != [] && Distinct(xs)
    requires forall x :: x in xs ==> x in order
    requires e in SortByRank(order, xs)[1..]
    ensures e in xs && SortByRank(order, xs)[0] in xs
    ensures Rank(order, SortByRank(order, xs)[0]) < Rank(order, e)
  {
    SortSorted(order, xs);
    SortMembers(order, xs);
    SortDistinct(order, xs);
    var s := SortByRank(order, xs);
    SortedTail(order, s);
    assert s == [s[0]] + s[1..];
    var j :| 0 <= j < |s[1..]| && s[1..][j] == e;
    assert s[j + 1] == e;
    assert s[0] != e;
    assert s[0] in xs && e in xs;
    assert Rank(order, s[0]) <= Rank(order, e);
    assert order[Rank(order, e)] == e && order[Rank(order, s[0])] == s[0];
  }



  /** Two positions of a permutation of a distinct list hold different elements. */
  lemma DistinctCount(xs: seq<string>, s: seq<string>, i: nat, j: nat)
    requires Distinct(xs) && multiset(s) == multiset(xs)
    requires i < j < |s|
    ensures s[i] != s[j]
  {
    if s[i] == s[j] {
      var v := s[i];
      assert multiset(s)[v] >= 2 by {
        var t := s[..j] + s[j..];
        assert s == t;
        assert s[..j] == s[..i] + [v] + s[i + 1..j];
        assert s[j..] == [v] + s[j + 1..];
        assert multiset(s[..j])[v] >= 1;
        assert multiset(s[j..])[v] >= 1;
      }
      DistinctAtMostOnce(xs, v);
    }
  }

  lemma {:induction false} DistinctAtMostOnce(xs: seq<string>, v: string)
    requires Distinct(xs)
    ensures multiset(xs)[v] <= 1
  {
    if xs != [] {
      assert xs == [xs[0]] + xs[1..];
      assert Distinct(xs[1..]) by {
        forall i, j | 0 <= i < j < |xs[1..]| ensures xs[1..][i] != xs[1..][j] {
          assert xs[1..][i] == xs[i + 1] && xs[1..][j] == xs[j + 1];
        }
      }
      DistinctAtMostOnce(xs[1..], v);
      if xs[0] == v {
        assert v !in xs[1..] by {
          forall k | 0 <= k < |xs[1..]| ensures xs[1..][k] != v {
            assert xs[1..][k] == xs[k + 1];
          }
        }
      }
    }
  }

  // ---- grouping by stem ----

  /** `Order_Dict`: stem to the extensions met for it, in file order. */
  type Groups = Table<seq<string>>

  /** A file takes part when its extension is in both the build-rule order and
      the rule table. */
  predicate Eligible(order: seq<string>, rules: set<string>, f: File) {
    |order| > 0 && f.ext in order && f.ext in rules
  }

  /** The extensions recorded so far for `key`. */
  function GroupOf(gs: Groups, key: string): seq<string> {
    if Get(gs, key).Some? then Get(gs, key).value else []
  }

  function AddToGroup(gs: Groups, key: string, ext: string): (r: Groups)
    requires DistinctKeys(gs)
    ensures DistinctKeys(r)
  {
    Put(gs, key, GroupOf(gs, key) + [ext])
  }

  function GroupsFrom(order: seq<string>, rules: set<string>, gs: Groups, fs: seq<File>): (r: Groups)
    requires DistinctKeys(gs)
    ensures DistinctKeys(r)
    decreases |fs|
  {
    if fs == [] then gs
    else GroupsFrom(order, rules, if Eligible(order, rules, fs[0]) then AddToGroup(gs, fs[0].stem, fs[0].ext) else gs, fs[1..])
  }

  /** The first loop of `_MatchBuildRuleOrder`. */
  function GroupsOf(order: seq<string>, rules: set<string>, fs: seq<File>): (r: Groups)
    ensures DistinctKeys(r)
  {
    GroupsFrom(order, rules, [], fs)
  }

  /** The extensions of the eligible files named `stem`, in file order. */
  function ExtsOf(order: seq<string>, rules: set<string>, fs: seq<File>, stem: string): seq<string> {
    if fs == [] then []
    else (if Eligible(order, rules, fs[0]) && fs[0].stem == stem then [fs[0].ext] else []) + ExtsOf(order, rules, fs[1..], stem)
  }

  lemma {:induction false} GroupsFromGet(order: seq<string>, rules: set<string>, gs: Groups, fs: seq<File>, k: string)
    requires DistinctKeys(gs)
    ensures Get(GroupsFrom(order, rules, gs, fs), k)
         == if Get(gs, k).None? && ExtsOf(order, rules, fs, k) == [] then None else Some(GroupOf(gs, k) + ExtsOf(order, rules, fs, k))
    decreases |fs|
  {
    if fs == [] {
      AppendNil(GroupOf(gs, k));
    } else {
      var f := fs[0];
      var gs' := if Eligible(order, rules, f) then AddToGroup(gs, f.stem, f.ext) else gs;
      GroupsFromGet(order, rules, gs', fs[1..], k);
      var rest := ExtsOf(order, rules, fs[1..], k);
      if !(Eligible(order, rules, f) && f.stem == k) {
        assert ExtsOf(order, rules, fs, k) == [] + rest;
        AppendNil(rest);
      }
      if Eligible(order, rules, f) {
        GetPut(gs, f.stem, GroupOf(gs, f.stem) + [f.ext], k);
        if f.stem == k {
          assert GroupOf(gs', k) == GroupOf(gs, k) + [f.ext];
          assert ExtsOf(order, rules, fs, k) == [f.ext] + rest;
          Assoc(GroupOf(gs, k), [f.ext], rest);
        }
      }
    }
  }

  /** A stem with eligible files is grouped with exactly their extensions, in
      file order; other stems are absent. */
  lemma GroupsGet(order: seq<string>, rules: set<string>, fs: seq<File>, k: string)
    ensures Get(GroupsOf(order, rules, fs), k) == if ExtsOf(order, rules, fs, k) == [] then None else Some(ExtsOf(order, rules, fs, k))
  {
    GroupsFromGet(order, rules, [], fs, k);
    AppendNil(ExtsOf(order, rules, fs, k));
  }

  lemma {:induction false} ExtsOfMembers(order: seq<string>, rules: set<string>, fs: seq<File>, k: string, e: string)
    ensures e in ExtsOf(order, rules, fs, k) <==> exists f :: f in fs && Eligible(order, rules, f) && f.stem == k && f.ext == e
  {
    if fs != [] {
      ExtsOfMembers(order, rules, fs[1..], k, e);
      assert fs == [fs[0]] + fs[1..];
    }
  }

  lemma DistinctPathsTail(fs: seq<File>)
    requires fs != [] && DistinctPaths(fs)
    ensures DistinctPaths(fs[1..])
    ensures forall g :: g in fs[1..] ==> g.Path() != fs[0].Path()
  {
    forall i, j | 0 <= i < j < |fs[1..]| ensures fs[1..][i].Path() != fs[1..][j].Path() {
      assert fs[1..][i] == fs[i + 1] && fs[1..][j] == fs[j + 1];
    }
    forall g | g in fs[1..] ensures g.Path() != fs[0].Path() {
      var j :| 0 <= j < |fs[1..]| && fs[1..][j] == g;
      assert fs[j + 1] == g;
    }
  }

  /** Two files of a list with distinct paths that share a path are the same. */
  lemma SamePath(fs: seq<File>, f: File, g: File)
    requires DistinctPaths(fs) && f in fs && g in fs && f.Path() == g.Path()
    ensures f == g
  {
    var i :| 0 <= i < |fs| && fs[i] == f;
    var j :| 0 <= j < |fs| && fs[j] == g;
  }

  /** Files with distinct paths give a stem no extension twice. */
  lemma {:induction false} ExtsOfDistinct(order: seq<string>, rules: set<string>, fs: seq<File>, k: string)
    requires DistinctPaths(fs)
    ensures Distinct(ExtsOf(order, rules, fs, k))
  {
    if fs != [] {
      DistinctPathsTail(fs);
      ExtsOfDistinct(order, rules, fs[1..], k);
      var f := fs[0];
      var rest := ExtsOf(order, rules, fs[1..], k);
      if Eligible(order, rules, f) && f.stem == k {
        forall x | x in [f.ext] ensures x !in rest {
          ExtsOfMembers(order, rules, fs[1..], k, x);
        }
        DistinctAppend([f.ext], rest);
      }
    }
  }

  // ---- the removal list ----

  /** The (stem, extension) pairs of `es` under one stem. */
  function PairUp(key: string, es: seq<string>): (r: seq<(string, string)>)
    ensures forall p :: p in r <==> p.0 == key && p.1 in es
  {
    if es == [] then [] else [(key, es[0])] + PairUp(key, es[1..])
  }

  lemma {:induction false} PairUpDistinct(key: string, es: seq<string>)
    requires Distinct(es)
    ensures Distinct(PairUp(key, es))
  {
    if es != [] {
      assert Distinct(es[1..]) by {
        forall i, j | 0 <= i < j < |es[1..]| ensures es[1..][i] != es[1..][j] {
          assert es[1..][i] == es[i + 1] && es[1..][j] == es[j + 1];
        }
      }
      PairUpDistinct(key, es[1..]);
      assert es == [es[0]] + es[1..];
      DistinctAppend([(key, es[0])], PairUp(key, es[1..]));
    }
  }

  /** What one group contributes: every extension after the best-ranked one. */
  function GroupPairs(order: seq<string>, key: string, exts: seq<string>): seq<(string, string)> {
    if |exts| > 1 then PairUp(key, SortByRank(order, exts)[1..]) else []
  }

  function RemovalPairs(order: seq<string>, gs: Groups): seq<(string, string)> {
    if gs == [] then [] else GroupPairs(order, gs[0].0, gs[0].1) + RemovalPairs(order, gs[1..])
  }

  /** Group `g` drops the pair `p`: same stem, more than one extension, and the
      extension is not the best-ranked one. */
  predicate Drops(order: seq<string>, g: (string, seq<string>), p: (string, string)) {
    g.0 == p.0 && |g.1| > 1 && p.1 in SortByRank(order, g.1)[1..]
  }

  lemma {:induction false} RemovalPairsMembers(order: seq<string>, gs: Groups, p: (string, string))
    ensures p in RemovalPairs(order, gs) <==> exists i :: 0 <= i < |gs| && Drops(order, gs[i], p)
  {
    if gs != [] {
      RemovalPairsMembers(order, gs[1..], p);
      assert p in GroupPairs(order, gs[0].0, gs[0].1) <==> Drops(order, gs[0], p);
      if exists i :: 0 <= i < |gs| && Drops(order, gs[i], p) {
        var i :| 0 <= i < |gs| && Drops(order, gs[i], p);
        if i > 0 {
          assert gs[1..][i - 1] == gs[i];
        }
      }
      if p in RemovalPairs(order, gs[1..]) {
        var i :| 0 <= i < |gs[1..]| && Drops(order, gs[1..][i], p);
        assert gs[i + 1] == gs[1..][i];
      }
    }
  }

  /** Every pair of the removal list names a stem of the groups. */
  lemma {:induction false} RemovalPairsKeys(order: seq<string>, gs: Groups, p: (string, string))
    requires p in RemovalPairs(order, gs)
    ensures exists i :: 0 <= i < |gs| && gs[i].0 == p.0
  {
    RemovalPairsMembers(order, gs, p);
  }

  lemma {:induction false} RemovalPairsDistinct(order: seq<string>, gs: Groups)
    requires DistinctKeys(gs)
    requires forall i :: 0 <= i < |gs| ==> Distinct(gs[i].1)
    ensures Distinct(RemovalPairs(order, gs))
  {
    if gs != [] {
      var t := gs[1..];
      assert DistinctKeys(t) by {
        forall i, j | 0 <= i < j < |t| ensures t[i].0 != t[j].0 {
          assert t[i] == gs[i + 1] && t[j] == gs[j + 1];
        }
      }
      forall i | 0 <= i < |t| ensures Distinct(t[i].1) {
        assert t[i] == gs[i + 1];
      }
      RemovalPairsDistinct(order, t);
      var a := GroupPairs(order, gs[0].0, gs[0].1);
      if |gs[0].1| > 1 {
        SortDistinct(order, gs[0].1);
        var s := SortByRank(order, gs[0].1);
        assert Distinct(s[1..]) by {
          forall i, j | 0 <= i < j < |s[1..]| ensures s[1..][i] != s[1..][j] {
            assert s[1..][i] == s[i + 1] && s[1..][j] == s[j + 1];
          }
        }
        PairUpDistinct(gs[0].0, s[1..]);
      }
      forall p | p in a ensures p !in RemovalPairs(order, t) {
        if p in RemovalPairs(order, t) {
          RemovalPairsKeys(order, t, p);
        }
      }
      DistinctAppend(a, RemovalPairs(order, t));
    }
  }

  /** Each pair as the path `stem + ext` it names. */
  function Joined(ps: seq<(string, string)>): (r: seq<string>)
    ensures |r| == |ps|
    ensures forall i :: 0 <= i < |ps| ==> r[i] == ps[i].0 + ps[i].1
  {
    if ps == [] then [] else [ps[0].0 + ps[0].1] + Joined(ps[1..])
  }

  /** Distinct pairs that each name a file of a list with distinct paths give
      distinct paths. */
  lemma JoinedDistinct(fs: seq<File>, ps: seq<(string, string)>)
    requires DistinctPaths(fs) && Distinct(ps)
    requires forall p :: p in ps ==> exists f :: f in fs && f.stem == p.0 && f.ext == p.1
    ensures Distinct(Joined(ps))
  {
    var r := Joined(ps);
    forall i, j | 0 <= i < j < |r| ensures r[i] != r[j] {
      assert ps[i] in ps && ps[j] in ps;
      var f :| f in fs && f.stem == ps[i].0 && f.ext == ps[i].1;
      var g :| g in fs && g.stem == ps[j].0 && g.ext == ps[j].1;
      if r[i] == r[j] {
        SamePath(fs, f, g);
      }
    }
  }

  lemma {:induction false} JoinedAppend(a: seq<(string, string)>, b: seq<(string, string)>)
    ensures Joined(a + b) == Joined(a) + Joined(b)
  {
  }

  /** The inner loop: `key + ext` appended for each extension in turn. */
  function PushPaths(acc: seq<string>, key: string, es: seq<string>): seq<string>
    decreases |es|
  {
    if es == [] then acc else PushPaths(acc + [key + es[0]], key, es[1..])
  }

  function RemovalFrom(order: seq<string>, acc: seq<string>, gs: Groups): seq<string>
    decreases |gs|
  {
    if gs == [] then acc
    else RemovalFrom(order, if |gs[0].1| > 1 then PushPaths(acc, gs[0].0, SortByRank(order, gs[0].1)[1..]) else acc, gs[1..])
  }

  /** `RemoveList`: for each group of more than one extension, the paths of all
      but its best-ranked extension. */
  function Removals(order: seq<string>, gs: Groups): seq<string> {
    RemovalFrom(order, [], gs)
  }

  lemma {:induction false} PushPathsJoined(acc: seq<string>, key: string, es: seq<string>)
    ensures PushPaths(acc, key, es) == acc + Joined(PairUp(key, es))
    decreases |es|
  {
    if es != [] {
      PushPathsJoined(acc + [key + es[0]], key, es[1..]);
      Assoc(acc, [key + es[0]], Joined(PairUp(key, es[1..])));
    } else {
      AppendNil(acc);
    }
  }

  lemma {:induction false} RemovalFromJoined(order: seq<string>, acc: seq<string>, gs: Groups)
    ensures RemovalFrom(order, acc, gs) == acc + Joined(RemovalPairs(order, gs))
    decreases |gs|
  {
    if gs == [] {
      AppendNil(acc);
    } else {
      var a := GroupPairs(order, gs[0].0, gs[0].1);
      var acc' := if |gs[0].1| > 1 then PushPaths(acc, gs[0].0, SortByRank(order, gs[0].1)[1..]) else acc;
      if |gs[0].1| > 1 {
        PushPathsJoined(acc, gs[0].0, SortByRank(order, gs[0].1)[1..]);
      } else {
        AppendNil(acc);
      }
      assert acc' == acc + Joined(a);
      RemovalFromJoined(order, acc', gs[1..]);
      JoinedAppend(a, RemovalPairs(order, gs[1..]));
      Assoc(acc, Joined(a), Joined(RemovalPairs(order, gs[1..])));
    }
  }

  // ---- removal by path ----

  /** `fs.remove(p)`: drops the first file whose path is `p`; `None` is the
      `ValueError` of a path that is not there. */
  function Remove(fs: seq<File>, p: string): Option<seq<File>> {
    if fs == [] then None
    else if fs[0].Path() == p then Some(fs[1..])
    else
      var r := Remove(fs[1..], p);
      if r.None? then None else Some([fs[0]] + r.value)
  }

  function RemoveAll(fs: seq<File>, items: seq<string>): Option<seq<File>>
    decreases |items|
  {
    if items == [] then Some(fs)
    else
      var r := Remove(fs, items[0]);
      if r.None? then None else RemoveAll(r.value, items[1..])
  }

  /** The files whose path is not among `items`, in order. */
  function FilterOut(fs: seq<File>, items: seq<string>): (r: seq<File>)
    ensures forall f :: f in r <==> f in fs && f.Path() !in items
  {
    if fs == [] then []
    else (if fs[0].Path() in items then [] else [fs[0]]) + FilterOut(fs[1..], items)
  }

  lemma {:induction false} FilterOutDistinct(fs: seq<File>, items: seq<string>)
    requires DistinctPaths(fs)
    ensures DistinctPaths(FilterOut(fs, items))
  {
    if fs != [] {
      DistinctPathsTail(fs);
      FilterOutDistinct(fs[1..], items);
      var t := FilterOut(fs[1..], items);
      if fs[0].Path() !in items {
        var r := [fs[0]] + t;
        forall i, j | 0 <= i < j < |r| ensures r[i].Path() != r[j].Path() {
          assert r[j] == t[j - 1] && r[j] in t;
          if i > 0 {
            assert r[i] == t[i - 1];
          }
        }
      }
    }
  }

  lemma {:induction false} FilterOutNone(fs: seq<File>, items: seq<string>)
    requires forall f :: f in fs ==> f.Path() !in items
    ensures FilterOut(fs, items) == fs
  {
    if fs != [] {
      FilterOutNone(fs[1..], items);
      assert fs == [fs[0]] + fs[1..];
    }
  }

  lemma {:induction false} RemoveOne(fs: seq<File>, p: string)
    requires DistinctPaths(fs)
    requires exists f :: f in fs && f.Path() == p
    ensures Remove(fs, p) == Some(FilterOut(fs, [p]))
  {
    DistinctPathsTail(fs);
    if fs[0].Path() == p {
      FilterOutNone(fs[1..], [p]);
      assert FilterOut(fs, [p]) == [] + FilterOut(fs[1..], [p]);
      AppendNil(fs[1..]);
    } else {
      var f :| f in fs && f.Path() == p;
      assert f in fs[1..] by {
        assert fs == [fs[0]] + fs[1..];
      }
      RemoveOne(fs[1..], p);
    }
  }

  lemma {:induction false} FilterOutTwice(fs: seq<File>, a: string, rest: seq<string>)
    ensures FilterOut(FilterOut(fs, [a]), rest) == FilterOut(fs, [a] + rest)
  {
    if fs != [] {
      var f := fs[0];
      var t := FilterOut(fs[1..], [a]);
      FilterOutTwice(fs[1..], a, rest);
      assert f.Path() in [a] + rest <==> f.Path() == a || f.Path() in rest;
      if f.Path() == a {
        assert FilterOut(fs, [a]) == t;
      } else {
        assert FilterOut(fs, [a]) == [f] + t;
        assert ([f] + t)[0] == f && ([f] + t)[1..] == t;
      }
    }
  }

  /** Removing distinct paths that are all present removes exactly those files. */
  lemma {:induction false} RemoveAllSpec(fs: seq<File>, items: seq<string>)
    requires DistinctPaths(fs) && Distinct(items)
    requires forall x :: x in items ==> exists f :: f in fs && f.Path() == x
    ensures RemoveAll(fs, items) == Some(FilterOut(fs, items))
    decreases |items|
  {
    if items == [] {
      FilterOutNone(fs, items);
    } else {
      var a := items[0];
      assert a in items;
      RemoveOne(fs, a);
      var fs' := FilterOut(fs, [a]);
      FilterOutDistinct(fs, [a]);
      var rest := items[1..];
      assert Distinct(rest) by {
        forall i, j | 0 <= i < j < |rest| ensures rest[i] != rest[j] {
          assert rest[i] == items[i + 1] && rest[j] == items[j + 1];
        }
      }
      forall x | x in rest ensures exists f :: f in fs' && f.Path() == x {
        var k :| 0 <= k < |rest| && rest[k] == x;
        assert items[k + 1] == x && items[0] != items[k + 1];
        assert x in items;
        var f :| f in fs && f.Path() == x;
        assert f in fs';
      }
      RemoveAllSpec(fs', rest);
      FilterOutTwice(fs, a, rest);
      assert [a] + rest == items;
    }
  }

  // ---- the outcome ----

  /** `_MatchBuildRuleOrder` as a function of its inputs: group, list the paths
      to drop, drop them. `None` is the `ValueError` of a path that is not found.
      For files with distinct paths, the result is never the `ValueError` and
      holds exactly the files no other file shadows, in their original order. */
  function MatchedFiles(order: seq<string>, rules: set<string>, fs: seq<File>): (r: Option<seq<File>>)
    ensures DistinctPaths(fs) ==> r == Some(Survivors(order, rules, fs, fs))
  {
    SurvivorsRemain(order, rules, fs);
    RemoveAll(fs, Removals(order, GroupsOf(order, rules, fs)))
  }

  /** Another eligible file of the same stem has an extension ranked ahead. */
  predicate Shadowed(order: seq<string>, rules: set<string>, all: seq<File>, f: File) {
    && Eligible(order, rules, f)
    && exists g :: g in all && Eligible(order, rules, g) && g.stem == f.stem && Rank(order, g.ext) < Rank(order, f.ext)
  }

  /** The files of `fs` that no file of `all` shadows, in order. */
  function Survivors(order: seq<string>, rules: set<string>, all: seq<File>, fs: seq<File>): (r: seq<File>)
    ensures forall f :: f in r <==> f in fs && !Shadowed(order, rules, all, f)
  {
    if fs == [] then []
    else (if Shadowed(order, rules, all, fs[0]) then [] else [fs[0]]) + Survivors(order, rules, all, fs[1..])
  }

  lemma GetAt(gs: Groups, i: nat)
    requires DistinctKeys(gs) && i < |gs|
    ensures Get(gs, gs[i].0) == Some(gs[i].1)
  {
    IndexOfIs(gs, gs[i].0, i);
  }

  lemma TwoMembers(xs: seq<string>, a: string, b: string)
    requires a in xs && b in xs && a != b
    ensures |xs| > 1
  {
  }

  lemma RemovalsJoined(order: seq<string>, gs: Groups)
    ensures Removals(order, gs) == Joined(RemovalPairs(order, gs))
  {
    RemovalFromJoined(order, [], gs);
    AppendNil(Joined(RemovalPairs(order, gs)));
  }

  /** The extensions of one stem are distinct extensions of the order. */
  lemma ExtsOfWellFormed(order: seq<string>, rules: set<string>, fs: seq<File>, k: string)
    requires DistinctPaths(fs)
    ensures Distinct(ExtsOf(order, rules, fs, k))
    ensures forall x :: x in ExtsOf(order, rules, fs, k) ==> x in order
  {
    ExtsOfDistinct(order, rules, fs, k);
    forall x | x in ExtsOf(order, rules, fs, k) ensures x in order {
      ExtsOfMembers(order, rules, fs, k, x);
    }
  }

  lemma RemovedIsShadowed(order: seq<string>, rules: set<string>, fs: seq<File>, f: File)
    requires DistinctPaths(fs) && f in fs
    requires f.Path() in Removals(order, GroupsOf(order, rules, fs))
    ensures Shadowed(order, rules, fs, f)
  {
    var gs := GroupsOf(order, rules, fs);
    var ps := RemovalPairs(order, gs);
    RemovalsJoined(order, gs);
    var items := Joined(ps);
    var idx :| 0 <= idx < |items| && items[idx] == f.Path();
    assert ps[idx] in ps;
    var g, h := RemovedPairFiles(order, rules, fs, ps[idx]);
    SamePath(fs, f, g);
  }

  /** A removed stem and extension belong to an eligible file, and another
      eligible file of that stem ranks better. */
  lemma RemovedPairFiles(order: seq<string>, rules: set<string>, fs: seq<File>, p: (string, string)) returns (g: File, h: File)
    requires DistinctPaths(fs)
    requires p in RemovalPairs(order, GroupsOf(order, rules, fs))
    ensures g in fs && Eligible(order, rules, g) && g.stem == p.0 && g.ext == p.1
    ensures h in fs && Eligible(order, rules, h) && h.stem == p.0 && Rank(order, h.ext) < Rank(order, p.1)
  {
    var gs := GroupsOf(order, rules, fs);
    RemovalPairsMembers(order, gs, p);
    var i :| 0 <= i < |gs| && gs[i].0 == p.0 && |gs[i].1| > 1 && p.1 in SortByRank(order, gs[i].1)[1..];
    GetAt(gs, i);
    GroupsGet(order, rules, fs, p.0);
    var exts := ExtsOf(order, rules, fs, p.0);
    assert gs[i].1 == exts;
    ExtsOfWellFormed(order, rules, fs, p.0);
    SortTail(order, exts, p.1);
    var x :| x in exts && Rank(order, x) < Rank(order, p.1);
    ExtsOfMembers(order, rules, fs, p.0, p.1);
    ExtsOfMembers(order, rules, fs, p.0, x);
    g :| g in fs && Eligible(order, rules, g) && g.stem == p.0 && g.ext == p.1;
    h :| h in fs && Eligible(order, rules, h) && h.stem == p.0 && h.ext == x;
  }

  lemma ShadowedIsRemoved(order: seq<string>, rules: set<string>, fs: seq<File>, f: File)
    requires DistinctPaths(fs) && f in fs
    requires Shadowed(order, rules, fs, f)
    ensures f.Path() in Removals(order, GroupsOf(order, rules, fs))
  {
    var gs := GroupsOf(order, rules, fs);
    var ps := RemovalPairs(order, gs);
    RemovalsJoined(order, gs);
    ShadowedPair(order, rules, fs, f);
    var idx :| 0 <= idx < |ps| && ps[idx] == (f.stem, f.ext);
    assert Joined(ps)[idx] == f.Path();
  }

  lemma ShadowedPair(order: seq<string>, rules: set<string>, fs: seq<File>, f: File)
    requires DistinctPaths(fs) && f in fs
    requires Shadowed(order, rules, fs, f)
    ensures (f.stem, f.ext) in RemovalPairs(order, GroupsOf(order, rules, fs))
  {
    var gs := GroupsOf(order, rules, fs);
    var g :| g in fs && Eligible(order, rules, g) && g.stem == f.stem && Rank(order, g.ext) < Rank(order, f.ext);
    var exts := ExtsOf(order, rules, fs, f.stem);
    ExtsOfMembers(order, rules, fs, f.stem, f.ext);
    ExtsOfMembers(order, rules, fs, f.stem, g.ext);
    TwoMembers(exts, f.ext, g.ext);
    GroupsGet(order, rules, fs, f.stem);
    assert (f.stem, exts) in gs;
    var i :| 0 <= i < |gs| && gs[i] == (f.stem, exts);
    ExtsOfWellFormed(order, rules, fs, f.stem);
    SortTail(order, exts, f.ext);
    RemovalPairsMembers(order, gs, (f.stem, f.ext));
  }

  lemma {:induction false} FilterOutSurvivors(order: seq<string>, rules: set<string>, all: seq<File>, fs: seq<File>, items: seq<string>)
    requires forall f :: f in fs ==> (f.Path() in items <==> Shadowed(order, rules, all, f))
    ensures FilterOut(fs, items) == Survivors(order, rules, all, fs)
  {
    if fs != [] {
      assert fs[0] in fs;
      assert forall f :: f in fs[1..] ==> f in fs;
      FilterOutSurvivors(order, rules, all, fs[1..], items);
    }
  }

  /** Dropping the listed paths from files with distinct paths leaves the files
      no other file shadows. */
  lemma SurvivorsRemain(order: seq<string>, rules: set<string>, fs: seq<File>)
    ensures DistinctPaths(fs) ==>
              RemoveAll(fs, Removals(order, GroupsOf(order, rules, fs))) == Some(Survivors(order, rules, fs, fs))
  {
    if !DistinctPaths(fs) {
      return;
    }
    var gs := GroupsOf(order, rules, fs);
    var ps := RemovalPairs(order, gs);
    RemovalsJoined(order, gs);
    var items := Removals(order, gs);
    GroupsDistinct(order, rules, fs);
    RemovalPairsDistinct(order, gs);
    PairsFromFiles(order, rules, fs);
    JoinedDistinct(fs, ps);
    ItemsFromFiles(order, rules, fs);
    RemoveAllSpec(fs, items);
    ItemsAreShadowed(order, rules, fs);
    FilterOutSurvivors(order, rules, fs, fs, items);
  }

  lemma GroupsDistinct(order: seq<string>, rules: set<string>, fs: seq<File>)
    requires DistinctPaths(fs)
    ensures var gs := GroupsOf(order, rules, fs);
            forall i :: 0 <= i < |gs| ==> Distinct(gs[i].1)
  {
    var gs := GroupsOf(order, rules, fs);
    forall i | 0 <= i < |gs| ensures Distinct(gs[i].1) {
      GetAt(gs, i);
      GroupsGet(order, rules, fs, gs[i].0);
      ExtsOfDistinct(order, rules, fs, gs[i].0);
    }
  }

  lemma PairsFromFiles(order: seq<string>, rules: set<string>, fs: seq<File>)
    ensures forall p :: p in RemovalPairs(order, GroupsOf(order, rules, fs)) ==>
              exists f :: f in fs && f.stem == p.0 && f.ext == p.1
  {
    var gs := GroupsOf(order, rules, fs);
    var ps := RemovalPairs(order, gs);
    forall p | p in ps ensures exists f :: f in fs && f.stem == p.0 && f.ext == p.1 {
      RemovalPairsMembers(order, gs, p);
      var i :| 0 <= i < |gs| && gs[i].0 == p.0 && |gs[i].1| > 1 && p.1 in SortByRank(order, gs[i].1)[1..];
      GetAt(gs, i);
      GroupsGet(order, rules, fs, p.0);
      SortMembers(order, gs[i].1);
      assert p.1 in gs[i].1;
      ExtsOfMembers(order, rules, fs, p.0, p.1);
    }
  }

  lemma ItemsFromFiles(order: seq<string>, rules: set<string>, fs: seq<File>)
    ensures forall x :: x in Removals(order, GroupsOf(order, rules, fs)) ==>
              exists f :: f in fs && f.Path() == x
  {
    var gs := GroupsOf(order, rules, fs);
    var ps := RemovalPairs(order, gs);
    RemovalsJoined(order, gs);
    var items := Removals(order, gs);
    PairsFromFiles(order, rules, fs);
    forall x | x in items ensures exists f :: f in fs && f.Path() == x {
      var idx :| 0 <= idx < |items| && items[idx] == x;
      assert ps[idx] in ps;
      var f :| f in fs && f.stem == ps[idx].0 && f.ext == ps[idx].1;
      assert f.Path() == x;
    }
  }

  lemma ItemsAreShadowed(order: seq<string>, rules: set<string>, fs: seq<File>)
    requires DistinctPaths(fs)
    ensures forall f :: f in fs ==>
              (f.Path() in Removals(order, GroupsOf(order, rules, fs)) <==> Shadowed(order, rules, fs, f))
  {
    var items := Removals(order, GroupsOf(order, rules, fs));
    forall f | f in fs ensures f.Path() in items <==> Shadowed(order, rules, fs, f) {
      if f.Path() in items {
        RemovedIsShadowed(order, rules, fs, f);
      }
      if Shadowed(order, rules, fs, f) {
        ShadowedIsRemoved(order, rules, fs, f);
      }
    }
  }

  /** After the match, the eligible files left for one stem all have the same
      extension: the best-ranked one. */
  lemma OneExtensionPerStem(order: seq<string>, rules: set<string>, fs: seq<File>, f: File, g: File)
    requires f in Survivors(order, rules, fs, fs) && g in Survivors(order, rules, fs, fs)
    requires Eligible(order, rules, f) && Eligible(order, rules, g) && f.stem == g.stem
    ensures f.ext == g.ext
  {
    if Rank(order, f.ext) == Rank(order, g.ext) {
      RankInjective(order, f.ext, g.ext);
    }
  }

  // ---- the operation ----

  /** The innermost loop of `_MatchBuildRuleOrder`: every extension after the
      best-ranked one, joined to the stem. */
  method PushAfterFirst(items: seq<string>, key: string, sorted: seq<string>) returns (r: seq<string>)
    requires |sorted| > 1
    ensures r == PushPaths(items, key, sorted[1..])
  {
    r := items;
    var j := 1;
    assert sorted[1..][0..] == sorted[1..];
    while j < |sorted|
      invariant 1 <= j <= |sorted|
      invariant PushPaths(r, key, sorted[j..]) == PushPaths(items, key, sorted[1..])
    {
      assert sorted[j..][0] == sorted[j] && sorted[j..][1..] == sorted[j + 1..];
      r := r + [key + sorted[j]];
      j := j + 1;
    }
    assert sorted[j..] == [];
  }

  /** `_MatchBuildRuleOrder`: groups the eligible files by stem, lists every
      extension after the best-ranked one of each group, and removes those
      paths from the list. */
  method MatchBuildRuleOrder(order: seq<string>, rules: set<string>, fileList: seq<File>) returns (r: Option<seq<File>>)
    ensures r == MatchedFiles(order, rules, fileList)
  {
    var groups: Groups := [];
    var i := 0;
    while i < |fileList|
      invariant 0 <= i <= |fileList|
      invariant DistinctKeys(groups)
      invariant GroupsFrom(order, rules, groups, fileList[i..]) == GroupsOf(order, rules, fileList)
    {
      var f := fileList[i];
      assert fileList[i..][0] == f && fileList[i..][1..] == fileList[i + 1..];
      if |order| > 0 && f.ext in order && f.ext in rules {
        var g := Get(groups, f.stem);
        if g.Some? {
          groups := Put(groups, f.stem, g.value + [f.ext]);
        } else {
          assert [] + [f.ext] == [f.ext];
          groups := Put(groups, f.stem, [f.ext]);
        }
      }
      i := i + 1;
    }
    assert fileList[i..] == [];

    var items: seq<string> := [];
    var k := 0;
    assert groups[0..] == groups;
    while k < |groups|
      invariant 0 <= k <= |groups|
      invariant RemovalFrom(order, items, groups[k..]) == Removals(order, GroupsOf(order, rules, fileList))
    {
      var key := groups[k].0;
      var exts := groups[k].1;
      assert groups[k..][0] == groups[k] && groups[k..][1..] == groups[k + 1..];
      if |exts| > 1 {
        var sorted := SortByRank(order, exts);
        SortPerm(order, exts);
        items := PushAfterFirst(items, key, sorted);
      }
      k := k + 1;
    }
    assert groups[k..] == [];

    var files := fileList;
    var n := 0;
    assert items[0..] == items;
    while n < |items|
      invariant 0 <= n <= |items|
      invariant RemoveAll(files, items[n..]) == MatchedFiles(order, rules, fileList)
    {
      assert items[n..][0] == items[n] && items[n..][1..] == items[n + 1..];
      var next := Remove(files, items[n]);
      if next.None? {
        return None;
      }
      files := next.value;
      n := n + 1;
    }
    assert items[n..] == [];
    return Some(files);
  }
}
