/** What a module collects from itself and its library closure: the PCDs its
    libraries declare (`LibraryPcdList`) and the packages all of them depend on
    (`DerivedPackageList`). `libs` is the library closure in the order the
    platform resolves it; each library is given by the PCDs or packages it
    declares, in declaration order. */
module LibraryMerge {
  import opened Wrappers
  import opened PcdTypes
  import opened Pcds
  import opened Seqs

  /** Walks `ps` keeping each PCD whose key the module does not declare and no
      PCD kept so far has. */
  function TakeFrom(own: set<Key>, acc: seq<Pcd>, ps: seq<Pcd>): seq<Pcd>
    decreases |ps|
  {
    if ps == [] then acc
    else
      var p := ps[0];
      TakeFrom(own, if p.Key() in own || Lookup(acc, p.Key()).Some? then acc else acc + [p], ps[1..])
  }

  /** What `LibraryPcdList` selects: nothing for a library, otherwise the PCDs of
      the closure that pass the duplicate check. */
  function LibraryPcds(isLibrary: bool, own: set<Key>, libs: seq<seq<Pcd>>): seq<Pcd> {
    if isLibrary then [] else TakeFrom(own, [], Concat(libs))
  }

  /** `LibraryPcdList`, with the platform's per-library PCD settings left to the
      caller. */
  method LibraryPcdList(isLibrary: bool, own: set<Key>, libs: seq<seq<Pcd>>) returns (r: seq<Pcd>)
    ensures r == LibraryPcds(isLibrary, own, libs)
  {
    if isLibrary {
      return [];
    }
    r := [];
    var taken: set<Key> := {};
    var i := 0;
    while i < |libs|
      invariant 0 <= i <= |libs|
      invariant taken == KeySet(r)
      invariant TakeFrom(own, r, Concat(libs[i..])) == LibraryPcds(false, own, libs)
    {
      ConcatFrom(libs, i);
      TakeFromAppend(own, r, libs[i], Concat(libs[i + 1..]));
      var inLibrary;
      inLibrary, taken := TakeLibrary(own, r, taken, libs[i]);
      r := r + inLibrary;
      i := i + 1;
    }
  }

  /** The loop over one library's PCDs: what it adds to `r`, and the keys taken
      so far afterwards. */
  method TakeLibrary(own: set<Key>, r: seq<Pcd>, taken: set<Key>, lib: seq<Pcd>)
    returns (inLibrary: seq<Pcd>, taken': set<Key>)
    requires taken == KeySet(r)
    ensures r + inLibrary == TakeFrom(own, r, lib)
    ensures taken' == KeySet(r + inLibrary)
  {
    inLibrary := [];
    taken' := taken;
    ghost var acc := r;
    ghost var goal := TakeFrom(own, r, lib);
    assert r + inLibrary == r && lib[0..] == lib;
    var j := 0;
    while j < |lib|
      invariant 0 <= j <= |lib|
      invariant acc == r + inLibrary && taken' == KeySet(acc)
      invariant TakeFrom(own, acc, lib[j..]) == goal
    {
      var p := lib[j];
      assert lib[j..] == [p] + lib[j + 1..];
      TakeLoopStep(own, acc, taken', p, lib[j + 1..]);
      if !(p.Key() in own || p.Key() in taken') {
        taken' := taken' + {p.Key()};
        Assoc(r, inLibrary, [p]);
        inLibrary := inLibrary + [p];
        acc := acc + [p];
      }
      j := j + 1;
    }
    assert lib[j..] == [];
  }

  /** The keys of a list of PCDs (the `Pcds` set of the loop). */
  function KeySet(ps: seq<Pcd>): (r: set<Key>)
    ensures forall k :: k in r <==> Lookup(ps, k).Some?
  {
    set p | p in ps :: p.Key()
  }

  /** One PCD of the loop: the set of taken keys grows with the kept list, and
      what is left to walk still ends at the same list. */
  lemma TakeLoopStep(own: set<Key>, acc: seq<Pcd>, taken: set<Key>, p: Pcd, rest: seq<Pcd>)
    requires taken == KeySet(acc)
    ensures p.Key() in taken <==> Lookup(acc, p.Key()).Some?
    ensures KeySet(acc + [p]) == taken + {p.Key()}
    ensures TakeFrom(own, acc, [p] + rest)
         == TakeFrom(own, if p.Key() in own || p.Key() in taken then acc else acc + [p], rest)
  {
    TakeStep(own, acc, p, rest);
    LookupSnocSome(acc, p);
  }

  lemma {:induction false} TakeFromAppend(own: set<Key>, acc: seq<Pcd>, a: seq<Pcd>, b: seq<Pcd>)
    ensures TakeFrom(own, acc, a + b) == TakeFrom(own, TakeFrom(own, acc, a), b)
    decreases |a|
  {
    if a == [] {
      assert a + b == b;
    } else {
      TakeStep(own, acc, a[0], a[1..] + b);
      assert a + b == [a[0]] + (a[1..] + b);
      assert a == [a[0]] + a[1..];
      TakeStep(own, acc, a[0], a[1..]);
      TakeFromAppend(own, if a[0].Key() in own || Lookup(acc, a[0].Key()).Some? then acc else acc + [a[0]], a[1..], b);
    }
  }

  lemma TakeStep(own: set<Key>, acc: seq<Pcd>, p: Pcd, ps: seq<Pcd>)
    ensures TakeFrom(own, acc, [p] + ps)
         == TakeFrom(own, if p.Key() in own || Lookup(acc, p.Key()).Some? then acc else acc + [p], ps)
  {
    assert ([p] + ps)[0] == p && ([p] + ps)[1..] == ps;
  }

  lemma LookupSnocSome(acc: seq<Pcd>, p: Pcd)
    ensures forall k :: Lookup(acc + [p], k).Some? <==> Lookup(acc, k).Some? || p.Key() == k
  {
    forall k ensures Lookup(acc + [p], k).Some? <==> Lookup(acc, k).Some? || p.Key() == k {
      LookupSnoc(acc, p, k);
    }
  }

  lemma {:induction false} TakeFromSpec(own: set<Key>, acc: seq<Pcd>, ps: seq<Pcd>)
    requires DistinctPcdKeys(acc)
    ensures var r := TakeFrom(own, acc, ps);
            && DistinctPcdKeys(r)
            && (forall k :: Lookup(r, k) == if Lookup(acc, k).Some? then Lookup(acc, k) else if k in own then None else Lookup(ps, k))
    decreases |ps|
  {
    if ps != [] {
      var p := ps[0];
      var acc' := if p.Key() in own || Lookup(acc, p.Key()).Some? then acc else acc + [p];
      TakeFromSpec(own, acc', ps[1..]);
      forall k ensures Lookup(acc', k) == if Lookup(acc, k).Some? then Lookup(acc, k) else if p.Key() == k && k !in own then Some(p) else None {
        if acc' != acc {
          LookupSnoc(acc, p, k);
        }
      }
      forall k ensures Lookup(ps, k) == if p.Key() == k then Some(p) else Lookup(ps[1..], k) {
        LookupCons(p, ps[1..], k);
        assert [p] + ps[1..] == ps;
      }
    }
  }

  /** No key appears twice; a key the module declares is never taken from a
      library; every other key holds the declaration met first in closure order.
      A library module takes nothing. */
  lemma LibraryPcdsSpec(isLibrary: bool, own: set<Key>, libs: seq<seq<Pcd>>)
    ensures var r := LibraryPcds(isLibrary, own, libs);
            && DistinctPcdKeys(r)
            && (isLibrary ==> r == [])
            && (!isLibrary ==> forall k :: Lookup(r, k) == if k in own then None else Lookup(Concat(libs), k))
  {
    TakeFromSpec(own, [], Concat(libs));
  }

  /** The declaration met first in closure order is the one of the earliest
      library that declares the key. */
  lemma {:induction false} FirstLibraryWins(libs: seq<seq<Pcd>>, i: nat, k: Key)
    requires i < |libs| && Lookup(libs[i], k).Some?
    requires forall j :: 0 <= j < i ==> Lookup(libs[j], k).None?
    ensures Lookup(Concat(libs), k) == Lookup(libs[i], k)
  {
    LookupConcat(libs[0], Concat(libs[1..]), k);
    if i > 0 {
      FirstLibraryWins(libs[1..], i - 1, k);
    }
  }

  lemma {:induction false} LookupConcat(a: seq<Pcd>, b: seq<Pcd>, k: Key)
    ensures Lookup(a + b, k) == if Lookup(a, k).Some? then Lookup(a, k) else Lookup(b, k)
  {
    if a != [] {
      assert (a + b)[1..] == a[1..] + b;
      LookupConcat(a[1..], b, k);
    } else {
      assert a + b == b;
    }
  }

  /** What `DerivedPackageList` lists: the packages of the module and then of
      each library, each package once, in order of first appearance. */
  function DerivedPackages(own: seq<string>, libs: seq<seq<string>>): seq<string> {
    Dedupe([], Concat([own] + libs))
  }

  method DerivedPackageList(own: seq<string>, libs: seq<seq<string>>) returns (r: seq<string>)
    ensures r == DerivedPackages(own, libs)
  {
    var mods := [own] + libs;
    r := [];
    var i := 0;
    while i < |mods|
      invariant 0 <= i <= |mods|
      invariant Dedupe(r, Concat(mods[i..])) == DerivedPackages(own, libs)
    {
      var pkgs := mods[i];
      var rest := Concat(mods[i + 1..]);
      ConcatFrom(mods, i);
      assert pkgs[0..] == pkgs;
      var j := 0;
      while j < |pkgs|
        invariant 0 <= j <= |pkgs|
        invariant Dedupe(r, pkgs[j..] + rest) == DerivedPackages(own, libs)
      {
        var p := pkgs[j];
        ConcatTail(p, pkgs[j + 1..], rest);
        assert pkgs[j..] == [p] + pkgs[j + 1..];
        if p !in r {
          r := r + [p];
        }
        j := j + 1;
      }
      assert pkgs[j..] + rest == rest;
      i := i + 1;
    }
  }

  /** Each package appears once; exactly the packages of the module and its
      libraries appear; and the module's own packages come first, in their
      declared order. */
  lemma DerivedPackagesSpec(own: seq<string>, libs: seq<seq<string>>)
    ensures var r := DerivedPackages(own, libs);
            && Distinct(r)
            && (forall p :: p in r <==> p in own || p in Concat(libs))
            && var first := Dedupe([], own); |first| <= |r| && r[..|first|] == first
  {
    var all := Concat([own] + libs);
    ConcatFrom([own] + libs, 0);
    assert ([own] + libs)[1..] == libs;
    DedupeAppend([], own, Concat(libs));
    DedupeSpec([], all);
    DedupeSpec([], own);
    DedupeSpec(Dedupe([], own), Concat(libs));
  }
}
