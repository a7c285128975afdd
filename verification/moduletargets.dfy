/** The module object's file lists and target graph: `SourceFileList`,
    `BinaryFileList` (both cached on first use) and `_ApplyBuildRule`, which
    fills `_BuildTargets`, `_FileTypes` and the intro and final target lists. */
module ModuleTargets {
  import opened Wrappers
  import opened Seqs
  import opened BuildOrder
  import opened TargetGraph

  /** The target graph together with the `BinaryFileList` cache. */
  datatype Build = Build(graph: Graph, binaries: Option<seq<File>>)

  // ---- BinaryFileList ----

  /** A binary is kept when it is for every target or for the build target. */
  predicate KeepBinary(c: Config, f: File) {
    !(f.target !in [ArchCommon, Star] && f.target != c.buildTarget)
  }

  /** The kept binaries of `bins`, appended to `acc`. */
  function BinariesFrom(c: Config, acc: seq<File>, bins: seq<File>): seq<File>
    decreases |bins|
  {
    if bins == [] then acc
    else BinariesFrom(c, if KeepBinary(c, bins[0]) then acc + [bins[0]] else acc, bins[1..])
  }

  /** Each kept binary is appended and then run through its chain, with the
      list so far as the binary list. */
  function BinaryGraph(c: Config, g: Graph, acc: seq<File>, bins: seq<File>): Graph
    requires LibraryRulesOk(c)
    decreases |bins|
  {
    if bins == [] then g
    else
      var f := bins[0];
      if KeepBinary(c, f) then BinaryGraph(c, Chain(c, g, f, acc + [f], Start(f, f.fileType)), acc + [f], bins[1..])
      else BinaryGraph(c, g, acc, bins[1..])
  }

  /** `BinaryFileList` read from build state `b`: the cached list, or else the
      kept binaries with their chains applied, which are then cached. */
  function Binaries(c: Config, b: Build): (r: Build)
    requires LibraryRulesOk(c)
    ensures r.binaries.Some?
  {
    if b.binaries.Some? then b
    else Build(BinaryGraph(c, b.graph, [], c.binaries), Some(BinariesFrom(c, [], c.binaries)))
  }

  /** `_ApplyBuildRule(file, fileType, bl)`: an empty binary list is replaced
      by `BinaryFileList`, then the file's chain runs. */
  function Applied(c: Config, b: Build, file: File, fileType: string, bl: seq<File>): Build
    requires LibraryRulesOk(c)
  {
    if bl == [] then
      var b' := Binaries(c, b);
      b'.(graph := Chain(c, b'.graph, file, b'.binaries.value, Start(file, fileType)))
    else b.(graph := Chain(c, b.graph, file, bl, Start(file, fileType)))
  }

  // ---- SourceFileList ----

  /** The file's tool chain tag and family match the module's. */
  predicate SourceKept(c: Config, f: File) {
    && f.tagName in {"", Star, c.toolChain}
    && f.family in {"", Star, c.toolChainFamily, c.buildRuleFamily}
  }

  /** The kept sources of `fs`, appended to `acc`. */
  function SourcesFrom(c: Config, acc: seq<File>, fs: seq<File>): seq<File>
    decreases |fs|
  {
    if fs == [] then acc
    else SourcesFrom(c, if SourceKept(c, fs[0]) then acc + [fs[0]] else acc, fs[1..])
  }

  /** The include path list after the directory of each kept source not yet
      in it is put in front. */
  function IncludeFrom(c: Config, paths: seq<string>, fs: seq<File>): seq<string>
    decreases |fs|
  {
    if fs == [] then paths
    else IncludeFrom(c, if SourceKept(c, fs[0]) && fs[0].dir !in paths then [fs[0].dir] + paths else paths, fs[1..])
  }

  /** `_ApplyBuildRule(F, TAB_UNKNOWN_FILE)` for each file in turn. */
  function ApplyAll(c: Config, b: Build, fs: seq<File>): Build
    requires LibraryRulesOk(c)
    decreases |fs|
  {
    if fs == [] then b else ApplyAll(c, Applied(c, b, fs[0], UnknownFile, []), fs[1..])
  }

  // ---- what the lists hold ----

  /** `KeepBinary` as a filter. */
  function BinaryFilter(c: Config): File -> bool {
    f => KeepBinary(c, f)
  }

  /** `SourceKept` as a filter. */
  function SourceFilter(c: Config): File -> bool {
    f => SourceKept(c, f)
  }

  /** The kept binaries follow `acc`: exactly the binaries for every target or for
      the build target, in their order and with their repetitions. */
  lemma {:induction false} BinariesFromSpec(c: Config, acc: seq<File>, bins: seq<File>)
    ensures BinariesFrom(c, acc, bins) == acc + Filter(BinaryFilter(c), bins)
    decreases |bins|
  {
    if bins == [] {
      assert acc + [] == acc;
    } else {
      var keep := if KeepBinary(c, bins[0]) then [bins[0]] else [];
      BinariesFromSpec(c, acc + keep, bins[1..]);
      assert Filter(BinaryFilter(c), bins) == keep + Filter(BinaryFilter(c), bins[1..]);
      Assoc(acc, keep, Filter(BinaryFilter(c), bins[1..]));
      if keep == [] {
        assert acc + keep == acc;
      }
    }
  }

  /** The kept sources follow `acc`: exactly the sources whose tool chain tag and
      family match, in their order and with their repetitions. */
  lemma {:induction false} SourcesFromSpec(c: Config, acc: seq<File>, fs: seq<File>)
    ensures SourcesFrom(c, acc, fs) == acc + Filter(SourceFilter(c), fs)
    decreases |fs|
  {
    if fs == [] {
      assert acc + [] == acc;
    } else {
      var keep := if SourceKept(c, fs[0]) then [fs[0]] else [];
      SourcesFromSpec(c, acc + keep, fs[1..]);
      assert Filter(SourceFilter(c), fs) == keep + Filter(SourceFilter(c), fs[1..]);
      Assoc(acc, keep, Filter(SourceFilter(c), fs[1..]));
      if keep == [] {
        assert acc + keep == acc;
      }
    }
  }

  /** The directory of a kept source. */
  predicate KeptDir(c: Config, fs: seq<File>, d: string) {
    exists f :: f in fs && SourceKept(c, f) && f.dir == d
  }

  /** The old include paths stay, at the end and in order. */
  lemma {:induction false} IncludeFromKeeps(c: Config, paths: seq<string>, fs: seq<File>)
    ensures var r := IncludeFrom(c, paths, fs);
            |paths| <= |r| && r[|r| - |paths|..] == paths
    decreases |fs|
  {
    if fs != [] {
      var f := fs[0];
      var paths' := if SourceKept(c, f) && f.dir !in paths then [f.dir] + paths else paths;
      IncludeFromKeeps(c, paths', fs[1..]);
      var r := IncludeFrom(c, paths', fs[1..]);
      assert IncludeFrom(c, paths, fs) == r;
      if paths' != paths {
        assert |paths'| == |paths| + 1 && r[|r| - |paths'|..] == [f.dir] + paths;
        SuffixCons(r, f.dir, paths);
      }
    }
  }

  lemma KeptDirCons(c: Config, fs: seq<File>, d: string)
    requires fs != []
    ensures KeptDir(c, fs, d) <==> (SourceKept(c, fs[0]) && fs[0].dir == d) || KeptDir(c, fs[1..], d)
  {
    if KeptDir(c, fs, d) {
      var h :| h in fs && SourceKept(c, h) && h.dir == d;
      if h != fs[0] {
        assert h in fs[1..];
      }
    }
    if KeptDir(c, fs[1..], d) {
      var h :| h in fs[1..] && SourceKept(c, h) && h.dir == d;
      assert h in fs;
    }
  }

  /** The include paths are the old ones and the directories of the kept
      sources. */
  lemma {:induction false} IncludeFromMembers(c: Config, paths: seq<string>, fs: seq<File>)
    ensures forall d :: d in IncludeFrom(c, paths, fs) <==> d in paths || KeptDir(c, fs, d)
    decreases |fs|
  {
    if fs != [] {
      var f := fs[0];
      var paths' := if SourceKept(c, f) && f.dir !in paths then [f.dir] + paths else paths;
      IncludeFromMembers(c, paths', fs[1..]);
      forall d ensures d in IncludeFrom(c, paths, fs) <==> d in paths || KeptDir(c, fs, d) {
        KeptDirCons(c, fs, d);
      }
    }
  }

  /** No directory is listed twice. */
  lemma {:induction false} IncludeFromDistinct(c: Config, paths: seq<string>, fs: seq<File>)
    requires Distinct(paths)
    ensures Distinct(IncludeFrom(c, paths, fs))
    decreases |fs|
  {
    if fs != [] {
      var f := fs[0];
      var paths' := if SourceKept(c, f) && f.dir !in paths then [f.dir] + paths else paths;
      if paths' != paths {
        DistinctAppend([f.dir], paths);
      }
      IncludeFromDistinct(c, paths', fs[1..]);
    }
  }

  // ---- what the graph keeps ----

  lemma {:induction false} BinaryGraphValid(c: Config, g: Graph, acc: seq<File>, bins: seq<File>)
    requires LibraryRulesOk(c) && Valid(g)
    ensures Valid(BinaryGraph(c, g, acc, bins))
    decreases |bins|
  {
    if bins != [] {
      var f := bins[0];
      if KeepBinary(c, f) {
        ChainValid(c, g, f, acc + [f], Start(f, f.fileType));
        BinaryGraphValid(c, Chain(c, g, f, acc + [f], Start(f, f.fileType)), acc + [f], bins[1..]);
      } else {
        BinaryGraphValid(c, g, acc, bins[1..]);
      }
    }
  }

  /** A module that is not a library builds nothing from its binaries. */
  lemma {:induction false} NonLibraryBinariesIgnored(c: Config, g: Graph, acc: seq<File>, bins: seq<File>)
    requires LibraryRulesOk(c) && !c.isLibrary
    requires forall f :: f in bins ==> f.isBinary
    ensures BinaryGraph(c, g, acc, bins) == g
    decreases |bins|
  {
    if bins != [] {
      var f := bins[0];
      if KeepBinary(c, f) {
        assert f in acc + [f];
        BinaryOfNonLibraryIgnored(c, g, f, f.fileType, acc + [f]);
        NonLibraryBinariesIgnored(c, g, acc + [f], bins[1..]);
      } else {
        NonLibraryBinariesIgnored(c, g, acc, bins[1..]);
      }
    }
  }

  /** `_ApplyBuildRule` keeps the graph's invariant. */
  lemma AppliedValid(c: Config, b: Build, file: File, fileType: string, bl: seq<File>)
    requires LibraryRulesOk(c) && Valid(b.graph)
    ensures Valid(Applied(c, b, file, fileType, bl).graph)
  {
    var b' := if bl == [] then Binaries(c, b) else b;
    if b.binaries.None? && bl == [] {
      BinaryGraphValid(c, b.graph, [], c.binaries);
    }
    ChainValid(c, b'.graph, file, if bl == [] then b'.binaries.value else bl, Start(file, fileType));
  }

  lemma {:induction false} ApplyAllValid(c: Config, b: Build, fs: seq<File>)
    requires LibraryRulesOk(c) && Valid(b.graph)
    ensures Valid(ApplyAll(c, b, fs).graph)
    decreases |fs|
  {
    if fs != [] {
      AppliedValid(c, b, fs[0], UnknownFile, []);
      ApplyAllValid(c, Applied(c, b, fs[0], UnknownFile, []), fs[1..]);
    }
  }

  /** Once any source has been applied, the binary list is the one computed at
      the first application, and it is never computed again. */
  lemma {:induction false} ApplyAllCachesBinaries(c: Config, b: Build, fs: seq<File>)
    requires LibraryRulesOk(c) && fs != []
    ensures ApplyAll(c, b, fs).binaries == Binaries(c, b).binaries
    decreases |fs|
  {
    var b1 := Applied(c, b, fs[0], UnknownFile, []);
    assert b1.binaries == Binaries(c, b).binaries;
    if |fs| > 1 {
      ApplyAllCachesBinaries(c, b1, fs[1..]);
    }
  }

  // ---- the module object ----

  class ModuleAutoGen {
    const cfg: Config
    var buildTargets: map<string, set<Target>>
    var fileTypes: map<string, set<File>>
    var introTargets: set<Target>
    var finalTargets: set<Target>
    /** The `BinaryFileList` cache. */
    var binaryList: Option<seq<File>>
    /** The `SourceFileList` cache. */
    var sourceList: Option<seq<File>>
    var includePaths: seq<string>

    function Now(): Build
      reads this
    {
      Build(Graph(buildTargets, fileTypes, introTargets, finalTargets), binaryList)
    }

    constructor (cfg: Config, includePaths: seq<string>)
      ensures this.cfg == cfg && this.includePaths == includePaths
      ensures Now() == Build(EmptyGraph, None) && sourceList == None
    {
      this.cfg := cfg;
      buildTargets := map[];
      fileTypes := map[];
      introTargets := {};
      finalTargets := {};
      binaryList := None;
      sourceList := None;
      this.includePaths := includePaths;
    }

    /** `_ApplyBuildRule`: an empty binary list is replaced by
        `BinaryFileList`, then the file's chain runs. */
    method ApplyBuildRule(file: File, fileType: string, binaryFiles: seq<File>)
      requires LibraryRulesOk(cfg)
      modifies this
      ensures Now() == Applied(cfg, old(Now()), file, fileType, binaryFiles)
      ensures sourceList == old(sourceList) && includePaths == old(includePaths)
      decreases if binaryFiles == [] then 2 else 0
    {
      var bl := binaryFiles;
      if bl == [] {
        bl := BinaryFileList();
      }
      RunChain(file, fileType, bl);
    }

    /** The work list of `_ApplyBuildRule`: takes the rule for each source in
        turn, registers the target it builds and queues that target's outputs,
        until no rule applies, a library reaches a static library, the rule
        builds nothing, or a file type comes round again. */
    method RunChain(file: File, fileType: string, bl: seq<File>)
      requires LibraryRulesOk(cfg)
      modifies this
      ensures Now() == old(Now()).(graph := Chain(cfg, old(Now()).graph, file, bl, Start(file, fileType)))
      ensures sourceList == old(sourceList) && includePaths == old(includePaths)
    {
      ghost var goal := Chain(cfg, Now().graph, file, bl, Start(file, fileType));
      var w := Start(file, fileType);
      while w.index < |w.sources|
        invariant Chain(cfg, Now().graph, file, bl, w) == goal
        invariant binaryList == old(binaryList) && sourceList == old(sourceList) && includePaths == old(includePaths)
        decreases |RuleTypes(cfg) - w.chain|, |w.sources| - w.index
      {
        ChainStep(cfg, Now().graph, file, bl, w);
        var done, next := Turn(file, bl, w);
        if done {
          break;
        }
        w := next;
      }
    }

    /** One pass of the loop body: the source at `w.index` with the file
        type carried over from the previous pass. */
    method Turn(file: File, bl: seq<File>, w: Walk) returns (done: bool, next: Walk)
      requires LibraryRulesOk(cfg) && w.index < |w.sources|
      modifies this
      ensures var o := Advance(cfg, old(Now()).graph, file, bl, w);
              && Now() == old(Now()).(graph := o.graph)
              && (done <==> o.Done?)
              && (!done ==> next == o.walk)
      ensures sourceList == old(sourceList) && includePaths == old(includePaths)
    {
      var source := w.sources[w.index];
      var step := StepOf(cfg, file, bl, source, w.fileType);
      if step.Skip? {
        return false, w.(index := w.index + 1);
      } else if step.NoRule? {
        if w.last.Some? {
          MarkFinal(w.last.value);
        }
        return true, w;
      }
      done, next := TurnBy(file, w, cfg.rules[step.key]);
    }

    /** The rest of the pass once a rule is found for the source. */
    method TurnBy(file: File, w: Walk, rule: Rule) returns (done: bool, next: Walk)
      requires w.index < |w.sources| && rule.sourceFileType in RuleTypes(cfg)
      modifies this
      ensures var o := AdvanceBy(cfg, old(Now()).graph, file, w, rule);
              && Now() == old(Now()).(graph := o.graph)
              && (done <==> o.Done?)
              && (!done ==> next == o.walk)
      ensures sourceList == old(sourceList) && includePaths == old(includePaths)
    {
      var source := w.sources[w.index];
      var ft := rule.sourceFileType;
      fileTypes := AddTo(fileTypes, ft, source);
      if cfg.isLibrary && ft == StaticLibrary {
        if w.last.Some? {
          MarkFinal(w.last.value);
        }
        return true, w;
      }
      var target := Apply(cfg, rule, source);
      if target.None? {
        if w.last.Some? {
          MarkFinal(w.last.value);
        }
        return true, w;
      }
      Register(ft, source, file, target.value);
      if ft in w.chain {
        return true, w;
      }
      return false, Walk(w.sources + target.value.outputs, w.index + 1, w.chain + {ft}, target, UnknownFile);
    }

    /** The previous target ends its chain. */
    method MarkFinal(t: Target)
      modifies this
      ensures Now() == old(Now()).(graph := Finish(old(Now()).graph, Some(t)))
      ensures sourceList == old(sourceList) && includePaths == old(includePaths)
    {
      finalTargets := finalTargets + {t};
    }

    /** Registers target `t` of file type `ft` built from `source`: final when
        it has no outputs, intro when built from the original file itself. */
    method Register(ft: string, source: File, file: File, t: Target)
      modifies this
      ensures Now() == old(Now()).(graph := Record(old(Now()).graph, ft, source, file, t))
      ensures sourceList == old(sourceList) && includePaths == old(includePaths)
    {
      if t.outputs == [] {
        finalTargets := finalTargets + {t};
      }
      buildTargets := AddTo(buildTargets, ft, t);
      if !source.isBinary && source.Path() == file.Path() {
        introTargets := introTargets + {t};
      }
    }

    /** `BinaryFileList`: the module's binaries for every target or for the
        build target, each run through `_ApplyBuildRule` with the list so far;
        computed once and then cached. */
    method BinaryFileList() returns (r: seq<File>)
      requires LibraryRulesOk(cfg)
      modifies this
      ensures Now() == Binaries(cfg, old(Now())) && binaryList == Some(r)
      ensures sourceList == old(sourceList) && includePaths == old(includePaths)
      decreases 1
    {
      if binaryList.Some? {
        return binaryList.value;
      }
      ghost var g0 := Now().graph;
      r := [];
      var i := 0;
      while i < |cfg.binaries|
        invariant 0 <= i <= |cfg.binaries|
        invariant BinaryGraph(cfg, Now().graph, r, cfg.binaries[i..]) == BinaryGraph(cfg, g0, [], cfg.binaries)
        invariant BinariesFrom(cfg, r, cfg.binaries[i..]) == BinariesFrom(cfg, [], cfg.binaries)
        invariant binaryList == None && sourceList == old(sourceList) && includePaths == old(includePaths)
      {
        var f := cfg.binaries[i];
        assert cfg.binaries[i..][0] == f && cfg.binaries[i..][1..] == cfg.binaries[i + 1..];
        i := i + 1;
        if f.target !in [ArchCommon, Star] && f.target != cfg.buildTarget {
          continue;
        }
        r := r + [f];
        ApplyBuildRule(f, f.fileType, r);
      }
      binaryList := Some(r);
    }

    /** `SourceFileList`: the sources whose tool chain tag and family match,
        each adding its directory to the include paths, then filtered by the
        build-rule order, then each run through `_ApplyBuildRule`; computed
        once and then cached. `None` is the `ValueError` of the filter. */
    method SourceFileList() returns (r: Option<seq<File>>)
      requires LibraryRulesOk(cfg)
      modifies this
      ensures old(sourceList).Some? ==>
                r == old(sourceList) && sourceList == old(sourceList)
                && Now() == old(Now()) && includePaths == old(includePaths)
      ensures old(sourceList).None? ==>
                && includePaths == IncludeFrom(cfg, old(includePaths), cfg.sources)
                && r == MatchedFiles(cfg.order, cfg.rules.Keys, SourcesFrom(cfg, [], cfg.sources))
                && sourceList == r
                && Now() == (if r.Some? then ApplyAll(cfg, old(Now()), r.value) else old(Now()))
    {
      if sourceList.Some? {
        return sourceList;
      }
      var retVal := CollectSources();
      r := MatchBuildRuleOrder(cfg.order, cfg.rules.Keys, retVal);
      if r.None? {
        return;
      }
      ApplyEach(r.value);
      sourceList := r;
    }

    /** The first loop of `SourceFileList`: keeps the sources built with this
        tool chain and puts each kept file's directory on the include path. */
    method CollectSources() returns (retVal: seq<File>)
      modifies this
      ensures retVal == SourcesFrom(cfg, [], cfg.sources)
      ensures includePaths == IncludeFrom(cfg, old(includePaths), cfg.sources)
      ensures Now() == old(Now()) && sourceList == old(sourceList)
    {
      ghost var paths0 := includePaths;
      retVal := [];
      var i := 0;
      while i < |cfg.sources|
        invariant 0 <= i <= |cfg.sources|
        invariant IncludeFrom(cfg, includePaths, cfg.sources[i..]) == IncludeFrom(cfg, paths0, cfg.sources)
        invariant SourcesFrom(cfg, retVal, cfg.sources[i..]) == SourcesFrom(cfg, [], cfg.sources)
        invariant Now() == old(Now()) && sourceList == old(sourceList)
      {
        var f := cfg.sources[i];
        assert cfg.sources[i..][0] == f && cfg.sources[i..][1..] == cfg.sources[i + 1..];
        i := i + 1;
        if f.tagName !in {"", Star, cfg.toolChain} {
          continue;
        }
        if f.family !in {"", Star, cfg.toolChainFamily, cfg.buildRuleFamily} {
          continue;
        }
        if f.dir !in includePaths {
          includePaths := [f.dir] + includePaths;
        }
        retVal := retVal + [f];
      }
    }

    /** The second loop of `SourceFileList`: applies the build rules to each
        file in turn. */
    method ApplyEach(files: seq<File>)
      requires LibraryRulesOk(cfg)
      modifies this
      ensures Now() == ApplyAll(cfg, old(Now()), files)
      ensures sourceList == old(sourceList) && includePaths == old(includePaths)
    {
      var j := 0;
      while j < |files|
        invariant 0 <= j <= |files|
        invariant ApplyAll(cfg, Now(), files[j..]) == ApplyAll(cfg, old(Now()), files)
        invariant sourceList == old(sourceList) && includePaths == old(includePaths)
      {
        assert files[j..][0] == files[j] && files[j..][1..] == files[j + 1..];
        ApplyBuildRule(files[j], UnknownFile, []);
        j := j + 1;
      }
    }
  }
}
