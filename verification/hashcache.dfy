/** `GenModuleHash` and `CanSkipbyHash`: a module's hash covers the platform
    hash, its packages' hashes, its libraries' hashes, its metadata file and
    its source files, each list taken in sorted order; hashes are remembered
    per architecture and module name (`gModuleHash`), and so is each skip
    decision (`gBuildHashSkipTracking`). The digest is a parameter: feeding
    MD5 the pieces one after the other is the same as hashing their
    concatenation. */
module HashCache {
  import opened Text
  import opened Seqs

  // ---- sorted(..., key=...) ----

  /** Python's `<=` on strings: code point by code point, a prefix first. */
  predicate LexLe(a: string, b: string)
    decreases |a|
  {
    if a == [] then true
    else if b == [] then false
    else if a[0] != b[0] then a[0] < b[0]
    else LexLe(a[1..], b[1..])
  }

  lemma {:induction false} LexTotal(a: string, b: string)
    ensures LexLe(a, b) || LexLe(b, a)
    decreases |a|
  {
    if a != [] && b != [] && a[0] == b[0] {
      LexTotal(a[1..], b[1..]);
    }
  }

  lemma {:induction false} LexTrans(a: string, b: string, c: string)
    requires LexLe(a, b) && LexLe(b, c)
    ensures LexLe(a, c)
    decreases |a|
  {
    if a != [] && b != [] && c != [] && a[0] == b[0] && b[0] == c[0] {
      LexTrans(a[1..], b[1..], c[1..]);
    }
  }

  lemma {:induction false} LexAntisym(a: string, b: string)
    requires LexLe(a, b) && LexLe(b, a)
    ensures a == b
    decreases |a|
  {
    if a != [] {
      LexAntisym(a[1..], b[1..]);
      assert a == [a[0]] + a[1..] && b == [b[0]] + b[1..];
    }
  }

  predicate SortedBy<T>(xs: seq<T>, key: T -> string) {
    forall i, j :: 0 <= i < j < |xs| ==> LexLe(key(xs[i]), key(xs[j]))
  }

  /** Puts `x` before the first element whose key is not below its own. */
  function InsertBy<T>(x: T, xs: seq<T>, key: T -> string): (r: seq<T>)
    ensures |r| == |xs| + 1
  {
    if xs == [] then [x]
    else if LexLe(key(x), key(xs[0])) then [x] + xs
    else [xs[0]] + InsertBy(x, xs[1..], key)
  }

  /** `sorted(xs, key=key)`: stable, so elements of equal key keep their order. */
  function SortBy<T>(xs: seq<T>, key: T -> string): (r: seq<T>)
    ensures |r| == |xs|
  {
    if xs == [] then [] else InsertBy(xs[0], SortBy(xs[1..], key), key)
  }

  lemma {:induction false} InsertByPerm<T>(x: T, xs: seq<T>, key: T -> string)
    ensures multiset(InsertBy(x, xs, key)) == multiset(xs) + multiset{x}
  {
    if xs != [] && !LexLe(key(x), key(xs[0])) {
      InsertByPerm(x, xs[1..], key);
      assert xs == [xs[0]] + xs[1..];
    }
  }

  lemma {:induction false} InsertBySorted<T>(x: T, xs: seq<T>, key: T -> string)
    requires SortedBy(xs, key)
    ensures SortedBy(InsertBy(x, xs, key), key)
  {
    if xs != [] {
      if LexLe(key(x), key(xs[0])) {
        SortedCons(x, xs, key);
      } else {
        LexTotal(key(x), key(xs[0]));
        InsertBySorted(x, xs[1..], key);
        var t := InsertBy(x, xs[1..], key);
        InsertByPerm(x, xs[1..], key);
        forall j | 0 <= j < |t| ensures LexLe(key(xs[0]), key(t[j])) {
          assert t[j] in multiset(t);
          if t[j] != x {
            assert t[j] in multiset(xs[1..]);
            var k :| 0 <= k < |xs[1..]| && xs[1..][k] == t[j];
            assert xs[k + 1] == t[j];
          }
        }
        SortedPrepend(xs[0], t, key);
      }
    }
  }

  /** An element not above the head of a sorted list can go in front. */
  lemma SortedCons<T>(x: T, xs: seq<T>, key: T -> string)
    requires xs != [] && SortedBy(xs, key) && LexLe(key(x), key(xs[0]))
    ensures SortedBy([x] + xs, key)
  {
    var r := [x] + xs;
    forall i, j | 0 <= i < j < |r| ensures LexLe(key(r[i]), key(r[j])) {
      if i == 0 && j > 1 {
        LexTrans(key(x), key(xs[0]), key(xs[j - 1]));
      }
    }
  }

  /** An element not above any element of a sorted list can go in front. */
  lemma SortedPrepend<T>(x: T, t: seq<T>, key: T -> string)
    requires SortedBy(t, key)
    requires forall j :: 0 <= j < |t| ==> LexLe(key(x), key(t[j]))
    ensures SortedBy([x] + t, key)
  {
    var r := [x] + t;
    forall i, j | 0 <= i < j < |r| ensures LexLe(key(r[i]), key(r[j])) {
      if i == 0 {
        assert r[j] == t[j - 1];
      } else {
        assert r[i] == t[i - 1] && r[j] == t[j - 1];
      }
    }
  }

  /** The sorted list is a permutation of the input, in key order. */
  lemma {:induction false} SortBySpec<T>(xs: seq<T>, key: T -> string)
    ensures multiset(SortBy(xs, key)) == multiset(xs)
    ensures SortedBy(SortBy(xs, key), key)
  {
    if xs != [] {
      SortBySpec(xs[1..], key);
      InsertByPerm(xs[0], SortBy(xs[1..], key), key);
      InsertBySorted(xs[0], SortBy(xs[1..], key), key);
      assert xs == [xs[0]] + xs[1..];
    }
  }

  /** No element is repeated and no two elements share a key. */
  ghost predicate UniqueKeys<T>(xs: seq<T>, key: T -> string) {
    && (forall x :: x in multiset(xs) ==> multiset(xs)[x] == 1)
    && (forall x, y :: x in multiset(xs) && y in multiset(xs) && key(x) == key(y) ==> x == y)
  }

  /** Two key-sorted lists holding the same elements with unique keys start
      with the same element. */
  lemma SortedSameHead<T>(a: seq<T>, b: seq<T>, key: T -> string)
    requires SortedBy(a, key) && SortedBy(b, key) && a != []
    requires multiset(a) == multiset(b) && UniqueKeys(a, key)
    ensures b != [] && a[0] == b[0]
  {
    assert a[0] in multiset(b);
    assert b[0] in multiset(a);
    var j :| 0 <= j < |b| && b[j] == a[0];
    var i :| 0 <= i < |a| && a[i] == b[0];
    LexTotal(key(a[0]), key(b[0]));
    if j > 0 {
      assert LexLe(key(b[0]), key(b[j]));
    }
    if i > 0 {
      assert LexLe(key(a[0]), key(a[i]));
    }
    LexAntisym(key(a[0]), key(b[0]));
  }

  lemma UniqueKeysTail<T>(a: seq<T>, key: T -> string)
    requires a != [] && UniqueKeys(a, key)
    ensures UniqueKeys(a[1..], key)
  {
    assert a == [a[0]] + a[1..];
    forall x | x in multiset(a[1..]) ensures multiset(a[1..])[x] == 1 {
      assert multiset(a)[x] == multiset(a[1..])[x] + (if x == a[0] then 1 else 0);
    }
  }

  lemma SameTails<T>(a: seq<T>, b: seq<T>)
    requires a != [] && b != [] && a[0] == b[0] && multiset(a) == multiset(b)
    ensures multiset(a[1..]) == multiset(b[1..])
  {
    assert a == [a[0]] + a[1..] && b == [b[0]] + b[1..];
    assert multiset(a) == multiset{a[0]} + multiset(a[1..]);
    assert multiset(b) == multiset{b[0]} + multiset(b[1..]);
    assert multiset(a[1..]) == multiset(a) - multiset{a[0]};
    assert multiset(b[1..]) == multiset(b) - multiset{b[0]};
  }

  /** Two key-sorted lists holding the same elements with unique keys are the
      same list. */
  lemma {:induction false} SortedUnique<T>(a: seq<T>, b: seq<T>, key: T -> string)
    requires SortedBy(a, key) && SortedBy(b, key)
    requires multiset(a) == multiset(b) && UniqueKeys(a, key)
    ensures a == b
    decreases |a|
  {
    if a == [] {
      assert |b| == |multiset(b)| == 0;
    } else {
      SortedSameHead(a, b, key);
      SameTails(a, b);
      UniqueKeysTail(a, key);
      SortedTail(a, key);
      SortedTail(b, key);
      SortedUnique(a[1..], b[1..], key);
      SameHeadSameTail(a, b);
    }
  }

  lemma SameHeadSameTail<T>(a: seq<T>, b: seq<T>)
    requires a != [] && b != [] && a[0] == b[0] && a[1..] == b[1..]
    ensures a == b
  {
    assert a == [a[0]] + a[1..] && b == [b[0]] + b[1..];
  }

  lemma SortedTail<T>(a: seq<T>, key: T -> string)
    requires a != [] && SortedBy(a, key)
    ensures SortedBy(a[1..], key)
  {
    forall i, j | 0 <= i < j < |a| - 1 ensures LexLe(key(a[1..][i]), key(a[1..][j])) {
      assert a[1..][i] == a[i + 1] && a[1..][j] == a[j + 1];
    }
  }

  /** Sorting does not depend on the input order when keys are unique. */
  lemma SortByPermutation<T>(xs: seq<T>, ys: seq<T>, key: T -> string)
    requires multiset(xs) == multiset(ys) && UniqueKeys(xs, key)
    ensures SortBy(xs, key) == SortBy(ys, key)
  {
    SortBySpec(xs, key);
    SortBySpec(ys, key);
    SortedUnique(SortBy(xs, key), SortBy(ys, key), key);
  }

  // ---- GenModuleHash ----

  /** A source file: its path (`str(File)`) and its bytes. */
  datatype Source = Source(path: string, content: string)

  /** What a module or library contributes to its own hash: its name, its
      packages, its metadata file's bytes and its source files. */
  datatype Unit = Unit(name: string, packages: seq<string>, meta: string, sources: seq<Source>)

  function PackageName(p: string): string { p }
  function UnitName(u: Unit): string { u.name }
  function SourcePath(s: Source): string { s.path }

  /** The platform hash, each package's hash and the digest function. */
  datatype Ctx = Ctx(platformHash: string, packageHash: map<string, string>, md5: string -> string)

  /** `gModuleHash`: architecture, then module name, to hex digest. */
  type Memo = map<string, map<string, string>>

  /** Every digest already remembered stays, unchanged. */
  predicate Extends(m: Memo, m': Memo) {
    forall a :: a in m ==> a in m' && forall n :: n in m[a] ==> n in m'[a] && m'[a][n] == m[a][n]
  }

  lemma ExtendsTrans(m1: Memo, m2: Memo, m3: Memo)
    requires Extends(m1, m2) && Extends(m2, m3)
    ensures Extends(m1, m3)
  {
  }

  /** The hashes of the packages that have one, in the given order. */
  function PackageChunks(ctx: Ctx, pkgs: seq<string>): seq<string> {
    if pkgs == [] then []
    else (if pkgs[0] in ctx.packageHash then [ctx.packageHash[pkgs[0]]] else []) + PackageChunks(ctx, pkgs[1..])
  }

  function SourceChunks(srcs: seq<Source>): (r: seq<string>)
    ensures |r| == |srcs| && forall i :: 0 <= i < |srcs| ==> r[i] == srcs[i].content
  {
    if srcs == [] then [] else [srcs[0].content] + SourceChunks(srcs[1..])
  }

  /** What is fed to the digest, in order, given the library digests. */
  function Chunks(ctx: Ctx, u: Unit, libDigests: seq<string>): seq<string> {
    [ctx.platformHash] + PackageChunks(ctx, SortBy(u.packages, PackageName)) + libDigests
    + [u.meta] + SourceChunks(SortBy(u.sources, SourcePath))
  }

  datatype Hashed = Hashed(digest: string, memo: Memo)
  datatype Digests = Digests(memo: Memo, digests: seq<string>)

  /** `GenModuleHash` for unit `u` with libraries `libs`: the remembered digest
      if there is one, otherwise the digest of its pieces, each library hashed
      first when it is not yet remembered. The new digest is remembered. */
  function ModuleHash(ctx: Ctx, memo: Memo, arch: string, u: Unit, libs: seq<Unit>): (r: Hashed)
    ensures arch in r.memo && u.name in r.memo[arch] && r.memo[arch][u.name] == r.digest
    ensures Extends(memo, r.memo)
    decreases |libs|, 1
  {
    var m := if arch in memo then memo else memo[arch := map[]];
    if u.name in m[arch] then Hashed(m[arch][u.name], m)
    else
      var ld := LibDigests(ctx, m, arch, SortBy(libs, UnitName));
      var h := ctx.md5(Concat(Chunks(ctx, u, ld.digests)));
      Hashed(h, ld.memo[arch := ld.memo[arch][u.name := h]])
  }

  /** The library loop: each library not yet remembered is hashed (a library
      has no libraries of its own), and its remembered digest is fed in. */
  function LibDigests(ctx: Ctx, memo: Memo, arch: string, libs: seq<Unit>): (r: Digests)
    requires arch in memo
    ensures arch in r.memo && Extends(memo, r.memo)
    ensures |r.digests| == |libs|
    decreases |libs|, 0
  {
    if libs == [] then Digests(memo, [])
    else
      var lib := libs[0];
      var m := if lib.name in memo[arch] then memo else ModuleHash(ctx, memo, arch, lib, []).memo;
      var rest := LibDigests(ctx, m, arch, libs[1..]);
      Digests(rest.memo, [m[arch][lib.name]] + rest.digests)
  }

  /** Each library's digest is the one remembered for it afterwards. */
  lemma {:induction false} LibDigestsRemembered(ctx: Ctx, memo: Memo, arch: string, libs: seq<Unit>)
    requires arch in memo
    ensures var r := LibDigests(ctx, memo, arch, libs);
            forall i :: 0 <= i < |libs| ==> libs[i].name in r.memo[arch] && r.digests[i] == r.memo[arch][libs[i].name]
    decreases |libs|
  {
    if libs != [] {
      var lib := libs[0];
      var m := if lib.name in memo[arch] then memo else ModuleHash(ctx, memo, arch, lib, []).memo;
      LibDigestsRemembered(ctx, m, arch, libs[1..]);
      var rest := LibDigests(ctx, m, arch, libs[1..]);
      assert Extends(m, rest.memo);
      forall i | 1 <= i < |libs| ensures libs[i] == libs[1..][i - 1] {
      }
    }
  }

  lemma LibDigestsCons(ctx: Ctx, memo: Memo, arch: string, libs: seq<Unit>)
    requires arch in memo && libs != []
    ensures var m := if libs[0].name in memo[arch] then memo else ModuleHash(ctx, memo, arch, libs[0], []).memo;
            var rest := LibDigests(ctx, m, arch, libs[1..]);
            LibDigests(ctx, memo, arch, libs) == Digests(rest.memo, [m[arch][libs[0].name]] + rest.digests)
  {
  }

  /** One turn of the library loop: after the library is hashed (or found),
      what is collected plus what the rest of the loop gives is unchanged. */
  lemma LibDigestsStep(ctx: Ctx, before: Memo, after: Memo, arch: string, libs: seq<Unit>, i: nat,
                       digests: seq<string>, goal: Digests)
    requires arch in before && i < |libs|
    requires after == if libs[i].name in before[arch] then before else ModuleHash(ctx, before, arch, libs[i], []).memo
    requires var rest := LibDigests(ctx, before, arch, libs[i..]);
             rest.memo == goal.memo && digests + rest.digests == goal.digests
    ensures arch in after && libs[i].name in after[arch]
    ensures var rest := LibDigests(ctx, after, arch, libs[i + 1..]);
            rest.memo == goal.memo && digests + [after[arch][libs[i].name]] + rest.digests == goal.digests
  {
    assert libs[i..][0] == libs[i] && libs[i..][1..] == libs[i + 1..];
    LibDigestsCons(ctx, before, arch, libs[i..]);
    var rest := LibDigests(ctx, after, arch, libs[i + 1..]);
    Assoc(digests, [after[arch][libs[i].name]], rest.digests);
  }

  /** The hash does not depend on the order in which packages, libraries and
      sources are listed, as long as names and paths are unique. */
  lemma HashIgnoresOrder(ctx: Ctx, memo: Memo, arch: string, u: Unit, libs: seq<Unit>, u': Unit, libs': seq<Unit>)
    requires u'.name == u.name && u'.meta == u.meta
    requires multiset(u'.packages) == multiset(u.packages) && UniqueKeys(u.packages, PackageName)
    requires multiset(u'.sources) == multiset(u.sources) && UniqueKeys(u.sources, SourcePath)
    requires multiset(libs') == multiset(libs) && UniqueKeys(libs, UnitName)
    ensures ModuleHash(ctx, memo, arch, u', libs') == ModuleHash(ctx, memo, arch, u, libs)
  {
    SortByPermutation(u.packages, u'.packages, PackageName);
    SortByPermutation(u.sources, u'.sources, SourcePath);
    SortByPermutation(libs, libs', UnitName);
  }

  // ---- CanSkipbyHash ----

  /** What the build remembers across modules: the hashes, the skip decisions
      per architecture and module name, and the saved hash files. */
  datatype Store = Store(memo: Memo, tracking: map<string, map<string, bool>>, files: map<string, string>)

  /** A module as `CanSkipbyHash` sees it. */
  datatype Module = Module(unit: Unit, libs: seq<Unit>, isBinary: bool, isLibrary: bool, buildDir: string)

  /** The switches: `gUseHashCache`, `gBinCacheSource`, and whether copying
      the module from the binary cache succeeded. */
  datatype Flags = Flags(useHashCache: bool, binCacheSource: bool, cacheCopied: bool)

  datatype Skip = Skip(skip: bool, store: Store)

  function HashFile(m: Module): string {
    JoinPath(m.buildDir, m.unit.name + ".hash")
  }

  /** Some source path contains `.inc`. */
  predicate HasInc(srcs: seq<Source>) {
    exists s :: s in srcs && Contains(s.path, ".inc")
  }

  /** The loop of `CanSkipbyHash` over the module's source files. */
  method IncludesInc(srcs: seq<Source>) returns (r: bool)
    ensures r <==> HasInc(srcs)
  {
    var i := 0;
    while i < |srcs|
      invariant 0 <= i <= |srcs|
      invariant forall k :: 0 <= k < i ==> !Contains(srcs[k].path, ".inc")
    {
      if Contains(srcs[i].path, ".inc") {
        assert srcs[i] in srcs;
        return true;
      }
      i := i + 1;
    }
    return false;
  }

  /** `SaveFileOnChange`: writes unless the file already holds `content`, and
      says whether it wrote. */
  function SaveOnChange(files: map<string, string>, path: string, content: string): (bool, map<string, string>) {
    if path in files && files[path] == content then (false, files) else (true, files[path := content])
  }

  /** `CanSkipbyHash`: never skip without the hash cache, for a binary module or
      for one with a `.inc` source; skip a module copied from the binary cache;
      otherwise answer with the remembered decision, and decide afresh only when
      there is none. */
  function SkipByHash(ctx: Ctx, flags: Flags, s: Store, arch: string, m: Module): (r: Skip)
    ensures !flags.useHashCache ==> r == Skip(false, s)
    ensures r.skip ==> flags.useHashCache && !m.isBinary && !HasInc(m.unit.sources)
    ensures flags.useHashCache && !m.isBinary && !HasInc(m.unit.sources) && flags.binCacheSource && flags.cacheCopied
            ==> r.skip
    ensures && flags.useHashCache && !m.isBinary && !HasInc(m.unit.sources)
            && !(flags.binCacheSource && flags.cacheCopied) && !(m.isLibrary && HashFile(m) !in s.files)
            && arch in s.tracking && m.unit.name in s.tracking[arch]
            ==> r == Skip(s.tracking[arch][m.unit.name], s)
  {
    if !flags.useHashCache then Skip(false, s)
    else
      var s1 := if arch in s.tracking then s else s.(tracking := s.tracking[arch := map[]]);
      var name := m.unit.name;
      var hf := HashFile(m);
      if m.isBinary || HasInc(m.unit.sources) then Skip(false, s1)
      else if flags.binCacheSource && flags.cacheCopied then Skip(true, s1)
      else if m.isLibrary && hf !in s1.files then Skip(false, s1)
      else if name in s1.tracking[arch] then Skip(s1.tracking[arch][name], s1)
      else Decide(ctx, s1, arch, m)
  }

  /** The decision made afresh: hash the module, save the hash file unless it
      already holds that hash, and remember whether it did. */
  function Decide(ctx: Ctx, s: Store, arch: string, m: Module): (r: Skip)
    requires arch in s.tracking
    ensures var h := ModuleHash(ctx, s.memo, arch, m.unit, m.libs).digest;
            && (r.skip <==> HashFile(m) in s.files && s.files[HashFile(m)] == h)
            && HashFile(m) in r.store.files && r.store.files[HashFile(m)] == h
            && (forall p :: p in s.files && p != HashFile(m) ==> p in r.store.files && r.store.files[p] == s.files[p])
    ensures arch in r.store.tracking && m.unit.name in r.store.tracking[arch]
            && r.store.tracking[arch][m.unit.name] == r.skip
    ensures Extends(s.memo, r.store.memo)
  {
    var h := ModuleHash(ctx, s.memo, arch, m.unit, m.libs);
    var saved := SaveOnChange(s.files, HashFile(m), h.digest);
    Skip(!saved.0, Store(h.memo, s.tracking[arch := s.tracking[arch][m.unit.name := !saved.0]], saved.1))
  }

  /** When the decision is made afresh, the module is skipped exactly when its
      saved hash file already held its hash; afterwards the file holds it and
      the decision is remembered. */
  lemma SkipByHashFresh(ctx: Ctx, flags: Flags, s: Store, arch: string, m: Module)
    requires flags.useHashCache && !m.isBinary && !HasInc(m.unit.sources)
    requires !(flags.binCacheSource && flags.cacheCopied)
    requires !(m.isLibrary && HashFile(m) !in s.files)
    requires arch !in s.tracking || m.unit.name !in s.tracking[arch]
    ensures var r := SkipByHash(ctx, flags, s, arch, m);
            var h := ModuleHash(ctx, s.memo, arch, m.unit, m.libs).digest;
            && (r.skip <==> HashFile(m) in s.files && s.files[HashFile(m)] == h)
            && HashFile(m) in r.store.files && r.store.files[HashFile(m)] == h
            && arch in r.store.tracking && r.store.tracking[arch][m.unit.name] == r.skip
            && Extends(s.memo, r.store.memo)
  {
  }

  /** Asking again gives the same answer and changes nothing. */
  lemma SkipByHashStable(ctx: Ctx, flags: Flags, s: Store, arch: string, m: Module)
    ensures var r := SkipByHash(ctx, flags, s, arch, m);
            SkipByHash(ctx, flags, r.store, arch, m) == r
  {
    if flags.useHashCache {
      var s1 := if arch in s.tracking then s else s.(tracking := s.tracking[arch := map[]]);
      if !m.isBinary && !HasInc(m.unit.sources) && !(flags.binCacheSource && flags.cacheCopied)
         && !(m.isLibrary && HashFile(m) !in s1.files) && m.unit.name !in s1.tracking[arch] {
        FreshDecisionRemembered(ctx, flags, s1, arch, m);
      } else {
        assert SkipByHash(ctx, flags, s, arch, m).store == s1;
      }
    }
  }

  /** A fresh decision leaves the tracking table holding it and the hash file
      present, so the next query stops at the remembered decision. */
  lemma FreshDecisionRemembered(ctx: Ctx, flags: Flags, s1: Store, arch: string, m: Module)
    requires flags.useHashCache && !m.isBinary && !HasInc(m.unit.sources)
    requires !(flags.binCacheSource && flags.cacheCopied)
    requires arch in s1.tracking && !(m.isLibrary && HashFile(m) !in s1.files)
    requires m.unit.name !in s1.tracking[arch]
    ensures var r := SkipByHash(ctx, flags, s1, arch, m);
            SkipByHash(ctx, flags, r.store, arch, m) == r
  {
    var name := m.unit.name;
    var hf := HashFile(m);
    var h := ModuleHash(ctx, s1.memo, arch, m.unit, m.libs);
    var saved := SaveOnChange(s1.files, hf, h.digest);
    var t := s1.tracking[arch := s1.tracking[arch][name := !saved.0]];
    var st := Store(h.memo, t, saved.1);
    assert SkipByHash(ctx, flags, s1, arch, m) == Skip(!saved.0, st);
    assert hf in st.files && arch in st.tracking && name in st.tracking[arch];
    assert SkipByHash(ctx, flags, st, arch, m) == Skip(st.tracking[arch][name], st);
  }

  // ---- the registry ----

  /** The build-wide hash state (`gModuleHash`, `gBuildHashSkipTracking`) and
      the saved hash files. */
  class HashRegistry {
    var memo: Memo
    var tracking: map<string, map<string, bool>>
    var files: map<string, string>

    function Now(): Store
      reads this
    {
      Store(memo, tracking, files)
    }

    constructor (files: map<string, string>)
      ensures Now() == Store(map[], map[], files)
    {
      memo := map[];
      tracking := map[];
      this.files := files;
    }

    /** `GenModuleHash`. */
    method GenModuleHash(ctx: Ctx, arch: string, u: Unit, libs: seq<Unit>) returns (h: string)
      modifies this
      ensures Hashed(h, memo) == ModuleHash(ctx, old(memo), arch, u, libs)
      ensures tracking == old(tracking) && files == old(files)
      decreases |libs|, 1
    {
      if arch !in memo {
        memo := memo[arch := map[]];
      }
      if u.name in memo[arch] {
        return memo[arch][u.name];
      }
      // platform and packages
      var chunks := [ctx.platformHash] + PackageChunks(ctx, SortBy(u.packages, PackageName));
      // libraries
      var libDigests := HashLibraries(ctx, arch, SortBy(libs, UnitName));
      chunks := chunks + libDigests;
      // metadata file and sources
      chunks := chunks + [u.meta] + SourceChunks(SortBy(u.sources, SourcePath));
      h := ctx.md5(Concat(chunks));
      memo := memo[arch := memo[arch][u.name := h]];
    }

    /** The library loop of `GenModuleHash`: each library is hashed unless its
        hash is remembered, and the remembered hashes are collected in order. */
    method HashLibraries(ctx: Ctx, arch: string, libList: seq<Unit>) returns (digests: seq<string>)
      requires arch in memo
      modifies this
      ensures Digests(memo, digests) == LibDigests(ctx, old(memo), arch, libList)
      ensures tracking == old(tracking) && files == old(files)
      decreases |libList|, 0
    {
      ghost var goal := LibDigests(ctx, memo, arch, libList);
      digests := [];
      var i := 0;
      assert libList[0..] == libList;
      AppendNil(goal.digests);
      while i < |libList|
        invariant 0 <= i <= |libList| && arch in memo
        invariant tracking == old(tracking) && files == old(files)
        invariant var rest := LibDigests(ctx, memo, arch, libList[i..]);
                  rest.memo == goal.memo && digests + rest.digests == goal.digests
      {
        var lib := libList[i];
        ghost var before := memo;
        if lib.name !in memo[arch] {
          var libHash := GenModuleHash(ctx, arch, lib, []);
          assert memo == ModuleHash(ctx, before, arch, lib, []).memo;
        }
        LibDigestsStep(ctx, before, memo, arch, libList, i, digests, goal);
        digests := digests + [memo[arch][lib.name]];
        i := i + 1;
      }
      assert libList[i..] == [];
      AppendNil(digests);
    }

    /** The fresh branch of `CanSkipbyHash`. */
    method DecideAfresh(ctx: Ctx, arch: string, m: Module) returns (r: bool)
      requires arch in tracking
      modifies this
      ensures Skip(r, Now()) == Decide(ctx, old(Now()), arch, m)
    {
      var hf := HashFile(m);
      var h := GenModuleHash(ctx, arch, m.unit, m.libs);
      var wrote: bool;
      if hf in files && files[hf] == h {
        wrote := false;
      } else {
        files := files[hf := h];
        wrote := true;
      }
      tracking := tracking[arch := tracking[arch][m.unit.name := !wrote]];
      return !wrote;
    }

    /** `CanSkipbyHash`. */
    method CanSkipbyHash(ctx: Ctx, flags: Flags, arch: string, m: Module) returns (r: bool)
      modifies this
      ensures Skip(r, Now()) == SkipByHash(ctx, flags, old(Now()), arch, m)
    {
      if !flags.useHashCache {
        return false;
      }
      if arch !in tracking {
        tracking := tracking[arch := map[]];
      }
      if m.isBinary {
        return false;
      }
      var inc := IncludesInc(m.unit.sources);
      if inc {
        return false;
      }
      if flags.binCacheSource && flags.cacheCopied {
        return true;
      }
      var hf := HashFile(m);
      if m.isLibrary && hf !in files {
        return false;
      }
      var name := m.unit.name;
      if name !in tracking[arch] {
        r := DecideAfresh(ctx, arch, m);
        return;
      }
      return tracking[arch][name];
    }
  }
}
