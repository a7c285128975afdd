/** The module's own FixedAtBuild PCDs (`FixedAtBuildPcds`) and the VOID* ones
    among them keyed by their dotted name (`FixedVoidTypePcds`). Two PCDs are
    the same PCD when their keys agree, which is how the PCD class compares them. */
module Pcds {
  import opened Wrappers
  import opened PcdTypes
  import opened Dicts

  type Key = (string, string)

  /** The first PCD of `ps` with key `k`: the declaration a first-wins merge keeps. */
  function Lookup(ps: seq<Pcd>, k: Key): (r: Option<Pcd>)
    ensures r.Some? ==> r.value in ps && r.value.Key() == k
    ensures r.None? <==> forall i :: 0 <= i < |ps| ==> ps[i].Key() != k
  {
    if ps == [] then None
    else if ps[0].Key() == k then Some(ps[0])
    else Lookup(ps[1..], k)
  }

  predicate DistinctPcdKeys(ps: seq<Pcd>) {
    forall i, j :: 0 <= i < j < |ps| ==> ps[i].Key() != ps[j].Key()
  }

  /** Looking up in a list with one more PCD at the end finds the earlier
      declaration when there is one. */
  lemma {:induction false} LookupSnoc(ps: seq<Pcd>, p: Pcd, k: Key)
    ensures Lookup(ps + [p], k) == if Lookup(ps, k).Some? then Lookup(ps, k) else if p.Key() == k then Some(p) else None
  {
    if ps != [] {
      assert (ps + [p])[1..] == ps[1..] + [p];
      LookupSnoc(ps[1..], p, k);
    }
  }

  lemma LookupCons(p: Pcd, ps: seq<Pcd>, k: Key)
    ensures Lookup([p] + ps, k) == if p.Key() == k then Some(p) else Lookup(ps, k)
  {
    assert ([p] + ps)[1..] == ps;
  }

  /** The PCDs of the given kind, in order. */
  function OfKind(ps: seq<Pcd>, kind: string): (r: seq<Pcd>)
    ensures forall i :: 0 <= i < |r| ==> r[i].kind == kind && r[i] in ps
  {
    if ps == [] then []
    else (if ps[0].kind == kind then [ps[0]] else []) + OfKind(ps[1..], kind)
  }

  function FixedFrom(acc: seq<Pcd>, ps: seq<Pcd>): seq<Pcd>
    decreases |ps|
  {
    if ps == [] then acc
    else
      var p := ps[0];
      FixedFrom(if p.kind == FixedAtBuild && Lookup(acc, p.Key()).None? then acc + [p] else acc, ps[1..])
  }

  /** `FixedAtBuildPcds`: the module's FixedAtBuild PCDs, each once. Every PCD of
      the result is a FixedAtBuild PCD, no key appears twice, and each key of a
      FixedAtBuild PCD maps to its first FixedAtBuild declaration. */
  function FixedAtBuildPcds(modulePcds: seq<Pcd>): (r: seq<Pcd>)
    ensures DistinctPcdKeys(r)
    ensures forall i :: 0 <= i < |r| ==> r[i].kind == FixedAtBuild
    ensures forall k :: Lookup(r, k) == Lookup(OfKind(modulePcds, FixedAtBuild), k)
  {
    FixedFromSpec([], modulePcds);
    FixedFrom([], modulePcds)
  }

  lemma {:induction false} FixedFromSpec(acc: seq<Pcd>, ps: seq<Pcd>)
    requires DistinctPcdKeys(acc)
    requires forall i :: 0 <= i < |acc| ==> acc[i].kind == FixedAtBuild
    ensures var r := FixedFrom(acc, ps);
            && DistinctPcdKeys(r)
            && (forall i :: 0 <= i < |r| ==> r[i].kind == FixedAtBuild)
            && (forall k :: Lookup(r, k) == if Lookup(acc, k).Some? then Lookup(acc, k) else Lookup(OfKind(ps, FixedAtBuild), k))
    decreases |ps|
  {
    if ps != [] {
      var p := ps[0];
      var acc' := if p.kind == FixedAtBuild && Lookup(acc, p.Key()).None? then acc + [p] else acc;
      FixedFromSpec(acc', ps[1..]);
      forall k ensures Lookup(acc', k) == if Lookup(acc, k).Some? then Lookup(acc, k) else if p.kind == FixedAtBuild && p.Key() == k then Some(p) else None {
        if acc' != acc {
          LookupSnoc(acc, p, k);
        }
      }
      forall k ensures Lookup(OfKind(ps, FixedAtBuild), k) == if p.kind == FixedAtBuild && p.Key() == k then Some(p) else Lookup(OfKind(ps[1..], FixedAtBuild), k) {
        if p.kind == FixedAtBuild {
          LookupCons(p, OfKind(ps[1..], FixedAtBuild), k);
        } else {
          assert OfKind(ps, FixedAtBuild) == OfKind(ps[1..], FixedAtBuild);
        }
      }
    }
  }

  /** The dictionary key a VOID* PCD is known by in a dependency expression. */
  function DottedName(p: Pcd): string {
    p.tokenSpace + "." + p.tokenName
  }

  /** The default value of the first VOID* PCD of `ps` whose dotted name is `name`. */
  function FirstVoidDefault(ps: seq<Pcd>, name: string): Option<string> {
    if ps == [] then None
    else if ps[0].datumType == Void && DottedName(ps[0]) == name then Some(ps[0].defaultValue)
    else FirstVoidDefault(ps[1..], name)
  }

  function VoidFrom(d: Dict, ps: seq<Pcd>): (r: Dict)
    requires DistinctKeys(d)
    ensures DistinctKeys(r)
    decreases |ps|
  {
    if ps == [] then d
    else
      var p := ps[0];
      VoidFrom(if p.datumType == Void && Get(d, DottedName(p)).None? then Put(d, DottedName(p), p.defaultValue) else d, ps[1..])
  }

  /** `FixedVoidTypePcds`: dotted name to default value of every VOID* PCD among
      the FixedAtBuild PCDs; the first declaration of a name wins. */
  function FixedVoidTypePcds(modulePcds: seq<Pcd>): (r: Dict)
    ensures DistinctKeys(r)
  {
    VoidFrom([], FixedAtBuildPcds(modulePcds))
  }

  lemma {:induction false} VoidFromGet(d: Dict, ps: seq<Pcd>, name: string)
    requires DistinctKeys(d)
    ensures Get(VoidFrom(d, ps), name) == if Get(d, name).Some? then Get(d, name) else FirstVoidDefault(ps, name)
    decreases |ps|
  {
    if ps != [] {
      var p := ps[0];
      var d' := if p.datumType == Void && Get(d, DottedName(p)).None? then Put(d, DottedName(p), p.defaultValue) else d;
      VoidFromGet(d', ps[1..], name);
      if d' != d {
        GetPut(d, DottedName(p), p.defaultValue, name);
      }
    }
  }

  /** A dotted name reads the default of the first VOID* FixedAtBuild PCD with
      that name, and names no such PCD has are absent. */
  lemma FixedVoidTypePcdsGet(modulePcds: seq<Pcd>, name: string)
    ensures Get(FixedVoidTypePcds(modulePcds), name) == FirstVoidDefault(FixedAtBuildPcds(modulePcds), name)
  {
    VoidFromGet([], FixedAtBuildPcds(modulePcds), name);
  }
}
