/** The module's target graph: `SourceFileList`, `BinaryFileList` and the
    rule-chain work list `_ApplyBuildRule` that registers, for each file, the
    targets its build rules produce and which of them start ("intro") or end
    ("final") a chain. The rule table and `RuleObject.Apply` are inputs. */
module TargetGraph {
  import opened Wrappers
  import opened Seqs
  import opened BuildOrder

  // Names from the build tool's common data-type table.
  const UnknownFile := "UNKNOWN-TYPE-FILE"
  const StaticLibrary := "STATIC-LIBRARY-FILE"
  const DefaultBinaryFile := "_BINARY_FILE_"
  const ArchCommon := "COMMON"
  const Star := "*"

  /** A build rule: the file type it consumes, under a name of its own. */
  datatype Rule = Rule(name: string, sourceFileType: string)

  /** What applying a rule to a file yields: the files it outputs, which feed
      the next step of the chain. */
  datatype Target = Target(name: string, outputs: seq<File>)

  /** What the module gives the work list: whether it is a library, the rule
      table (`BuildRules`, keyed by file type and by extension), what
      `RuleObject.Apply` builds from each rule and source, the build-rule order, the build target, the tool chain and
      its families, and the module's source and binary files. */
  datatype Config = Config(
    isLibrary: bool,
    rules: map<string, Rule>,
    built: map<(Rule, File), Target>,
    order: seq<string>,
    buildTarget: string,
    toolChain: string,
    toolChainFamily: string,
    buildRuleFamily: string,
    sources: seq<File>,
    binaries: seq<File>)

  /** `RuleObject.Apply(Source)`: the target the rule builds from the source,
      or `None` when it builds nothing. */
  function Apply(c: Config, rule: Rule, source: File): (t: Option<Target>)
    ensures t.Some? <==> (rule, source) in c.built
  {
    if (rule, source) in c.built then Some(c.built[(rule, source)]) else None
  }

  /** A library's binary files are built with the default binary rule; the
      table must have it (`BuildRules[TAB_DEFAULT_BINARY_FILE]`). */
  predicate LibraryRulesOk(c: Config) {
    c.isLibrary ==> DefaultBinaryFile in c.rules
  }

  /** `_BuildTargets`, `_FileTypes`, `_IntroBuildTargetList` and
      `_FinalBuildTargetList`. */
  datatype Graph = Graph(
    buildTargets: map<string, set<Target>>,
    fileTypes: map<string, set<File>>,
    intro: set<Target>,
    final: set<Target>)

  const EmptyGraph := Graph(map[], map[], {}, {})

  /** `d[k].add(x)` on a `defaultdict(set)`. */
  function AddTo<T(==)>(m: map<string, set<T>>, k: string, x: T): (r: map<string, set<T>>)
    ensures k in r && x in r[k]
    ensures forall j :: j in m ==> j in r && m[j] <= r[j]
    ensures forall j :: j in r ==> j in m || j == k
  {
    m[k := (if k in m then m[k] else {}) + {x}]
  }

  /** `File in BinaryFileList`: list membership compares paths. */
  predicate InList(f: File, fs: seq<File>) {
    exists g :: g in fs && g.Path() == f.Path()
  }

  // ---- one chain ----

  /** The state of the work list: the sources so far, the next one to take, the
      file types met (`RuleChain`), the previous target and the file type to
      look up. */
  datatype Walk = Walk(sources: seq<File>, index: nat, chain: set<string>, last: Option<Target>, fileType: string)

  function Start(file: File, fileType: string): Walk {
    Walk([file], 0, {}, None, fileType)
  }

  /** The file types the rule table can produce. */
  function RuleTypes(c: Config): set<string> {
    set k | k in c.rules :: c.rules[k].sourceFileType
  }

  /** How the current source is looked up. */
  datatype Step = Skip | Use(key: string) | NoRule

  function StepOf(c: Config, file: File, bl: seq<File>, source: File, fileType: string): (r: Step)
    ensures LibraryRulesOk(c) && r.Use? ==> r.key in c.rules
  {
    if file.isBinary && source.Path() == file.Path() && InList(file, bl) then
      if c.isLibrary then Use(DefaultBinaryFile) else Skip
    else if fileType in c.rules then Use(fileType)
    else if source.ext in c.rules then Use(source.ext)
    else NoRule
  }

  /** The previous target, if any, becomes final. */
  function Finish(g: Graph, last: Option<Target>): Graph {
    if last.Some? then g.(final := g.final + {last.value}) else g
  }

  /** Registers target `t` of file type `ft` built from `source`. */
  function Record(g: Graph, ft: string, source: File, file: File, t: Target): Graph {
    var g1 := if t.outputs == [] then g.(final := g.final + {t}) else g;
    var g2 := g1.(buildTargets := AddTo(g1.buildTargets, ft, t));
    if !source.isBinary && source.Path() == file.Path() then g2.(intro := g2.intro + {t}) else g2
  }

  lemma DiffShrinks(s: set<string>, chain: set<string>, a: string)
    requires a in s && a !in chain
    ensures |s - (chain + {a})| < |s - chain|
  {
    assert s - (chain + {a}) == (s - chain) - {a};
  }

  /** After one step the work list either goes on from a new walk or is done. */
  datatype Outcome = Next(graph: Graph, walk: Walk) | Done(graph: Graph)

  /** The walk moved on: a file type not met before, or the same types and a
      later source. */
  predicate Closer(c: Config, w': Walk, w: Walk) {
    || |RuleTypes(c) - w'.chain| < |RuleTypes(c) - w.chain|
    || (|RuleTypes(c) - w'.chain| == |RuleTypes(c) - w.chain| && w'.index <= |w'.sources| && |w'.sources| - w'.index < |w.sources| - w.index)
  }

  /** One pass of the loop body of `_ApplyBuildRule`. */
  function Advance(c: Config, g: Graph, file: File, bl: seq<File>, w: Walk): (o: Outcome)
    requires LibraryRulesOk(c) && w.index < |w.sources|
    ensures o.Next? ==> Closer(c, o.walk, w)
  {
    var step := StepOf(c, file, bl, w.sources[w.index], w.fileType);
    if step.Skip? then Next(g, w.(index := w.index + 1))
    else if step.NoRule? then Done(Finish(g, w.last))
    else
      assert c.rules[step.key].sourceFileType in RuleTypes(c);
      AdvanceBy(c, g, file, w, c.rules[step.key])
  }

  /** The pass once a rule is found for the source: records its file type,
      then stops or registers the rule's target and queues its outputs. */
  function AdvanceBy(c: Config, g: Graph, file: File, w: Walk, rule: Rule): (o: Outcome)
    requires w.index < |w.sources| && rule.sourceFileType in RuleTypes(c)
    ensures o.Next? ==> Closer(c, o.walk, w)
  {
    var source := w.sources[w.index];
    var ft := rule.sourceFileType;
    var g1 := g.(fileTypes := AddTo(g.fileTypes, ft, source));
    if c.isLibrary && ft == StaticLibrary then Done(Finish(g1, w.last))
    else
      var t := Apply(c, rule, source);
      if t.None? then Done(Finish(g1, w.last))
      else
        var g2 := Record(g1, ft, source, file, t.value);
        if ft in w.chain then Done(g2)
        else
          DiffShrinks(RuleTypes(c), w.chain, ft);
          Next(g2, Walk(w.sources + t.value.outputs, w.index + 1, w.chain + {ft}, t, UnknownFile))
  }

  /** The work list of `_ApplyBuildRule` from walk `w` on. Each step that goes
      on either moves to the next source or adds a file type not met before,
      and the table has finitely many, so the chain ends. A chain only adds to
      the graph. */
  function Chain(c: Config, g: Graph, file: File, bl: seq<File>, w: Walk): (r: Graph)
    requires LibraryRulesOk(c)
    ensures Grows(g, r)
    decreases |RuleTypes(c) - w.chain|, |w.sources| - w.index
  {
    if w.index >= |w.sources| then g
    else
      var o := Advance(c, g, file, bl, w);
      AdvanceGrows(c, g, file, bl, w);
      if o.Done? then o.graph
      else
        var r := Chain(c, o.graph, file, bl, o.walk);
        GrowsTrans(g, o.graph, r);
        r
  }

  /** One step of the work list, unfolded. */
  lemma ChainStep(c: Config, g: Graph, file: File, bl: seq<File>, w: Walk)
    requires LibraryRulesOk(c) && w.index < |w.sources|
    ensures var o := Advance(c, g, file, bl, w);
            Chain(c, g, file, bl, w) == if o.Done? then o.graph else Chain(c, o.graph, file, bl, o.walk)
  {
  }

  // ---- what a chain keeps ----

  /** Every collection only gains entries. */
  predicate Grows(g: Graph, h: Graph) {
    && (forall k :: k in g.buildTargets ==> k in h.buildTargets && g.buildTargets[k] <= h.buildTargets[k])
    && (forall k :: k in g.fileTypes ==> k in h.fileTypes && g.fileTypes[k] <= h.fileTypes[k])
    && g.intro <= h.intro
    && g.final <= h.final
  }

  lemma GrowsTrans(a: Graph, b: Graph, c: Graph)
    requires Grows(a, b) && Grows(b, c)
    ensures Grows(a, c)
  {
  }

  /** The target is in the graph under some file type. */
  predicate Registered(g: Graph, t: Target) {
    exists k :: k in g.buildTargets && t in g.buildTargets[k]
  }

  /** The target graph's invariant: intro and final targets are registered
      targets, and a registered target without outputs is final. */
  predicate Valid(g: Graph) {
    && (forall t :: t in g.intro ==> Registered(g, t))
    && (forall t :: t in g.final ==> Registered(g, t))
    && (forall k, t :: k in g.buildTargets && t in g.buildTargets[k] && t.outputs == [] ==> t in g.final)
  }

  lemma RegisteredGrows(g: Graph, h: Graph, t: Target)
    requires Grows(g, h) && Registered(g, t)
    ensures Registered(h, t)
  {
    var k :| k in g.buildTargets && t in g.buildTargets[k];
    assert t in h.buildTargets[k];
  }

  lemma FinishSpec(g: Graph, last: Option<Target>)
    ensures Grows(g, Finish(g, last))
    ensures Valid(g) && (last.Some? ==> Registered(g, last.value)) ==> Valid(Finish(g, last))
  {
  }

  lemma RecordSpec(g: Graph, ft: string, source: File, file: File, t: Target)
    ensures Grows(g, Record(g, ft, source, file, t))
    ensures Registered(Record(g, ft, source, file, t), t)
    ensures Valid(g) ==> Valid(Record(g, ft, source, file, t))
  {
    var h := Record(g, ft, source, file, t);
    assert t in h.buildTargets[ft];
    if Valid(g) {
      forall u | u in h.intro ensures Registered(h, u) {
        if u != t {
          RegisteredGrows(g, h, u);
        }
      }
      forall u | u in h.final ensures Registered(h, u) {
        if u != t {
          RegisteredGrows(g, h, u);
        }
      }
    }
  }

  lemma FileTypeSpec(g: Graph, ft: string, source: File)
    ensures Grows(g, g.(fileTypes := AddTo(g.fileTypes, ft, source)))
    ensures Valid(g) ==> Valid(g.(fileTypes := AddTo(g.fileTypes, ft, source)))
  {
    var h := g.(fileTypes := AddTo(g.fileTypes, ft, source));
    if Valid(g) {
      forall u | u in h.intro ensures Registered(h, u) {
        assert Registered(g, u);
      }
      forall u | u in h.final ensures Registered(h, u) {
        assert Registered(g, u);
      }
    }
  }

  /** Filing the source under its file type keeps the invariant and the
      previous target's registration. */
  lemma FileTypeKeeps(g: Graph, ft: string, source: File, last: Option<Target>)
    requires Valid(g) && (last.Some? ==> Registered(g, last.value))
    ensures var g1 := g.(fileTypes := AddTo(g.fileTypes, ft, source));
            Valid(g1) && (last.Some? ==> Registered(g1, last.value)) && Valid(Finish(g1, last))
  {
    var g1 := g.(fileTypes := AddTo(g.fileTypes, ft, source));
    FileTypeSpec(g, ft, source);
    if last.Some? {
      RegisteredGrows(g, g1, last.value);
    }
    FinishSpec(g1, last);
  }

  lemma AdvanceGrows(c: Config, g: Graph, file: File, bl: seq<File>, w: Walk)
    requires LibraryRulesOk(c) && w.index < |w.sources|
    ensures Grows(g, Advance(c, g, file, bl, w).graph)
  {
    var step := StepOf(c, file, bl, w.sources[w.index], w.fileType);
    if step.NoRule? {
      FinishSpec(g, w.last);
    } else if step.Use? {
      var source := w.sources[w.index];
      var rule := c.rules[step.key];
      var ft := rule.sourceFileType;
      var g1 := g.(fileTypes := AddTo(g.fileTypes, ft, source));
      FileTypeSpec(g, ft, source);
      var t := Apply(c, rule, source);
      if (c.isLibrary && ft == StaticLibrary) || t.None? {
        FinishSpec(g1, w.last);
        GrowsTrans(g, g1, Finish(g1, w.last));
      } else {
        RecordSpec(g1, ft, source, file, t.value);
        GrowsTrans(g, g1, Record(g1, ft, source, file, t.value));
      }
    }
  }

  lemma AdvanceValid(c: Config, g: Graph, file: File, bl: seq<File>, w: Walk)
    requires LibraryRulesOk(c) && w.index < |w.sources|
    requires Valid(g) && (w.last.Some? ==> Registered(g, w.last.value))
    ensures var o := Advance(c, g, file, bl, w);
            Valid(o.graph) && (o.Next? && o.walk.last.Some? ==> Registered(o.graph, o.walk.last.value))
  {
    var step := StepOf(c, file, bl, w.sources[w.index], w.fileType);
    if step.NoRule? {
      FinishSpec(g, w.last);
    } else if step.Use? {
      var source := w.sources[w.index];
      var rule := c.rules[step.key];
      var ft := rule.sourceFileType;
      FileTypeKeeps(g, ft, source, w.last);
      var t := Apply(c, rule, source);
      if !(c.isLibrary && ft == StaticLibrary) && t.Some? {
        RecordSpec(g.(fileTypes := AddTo(g.fileTypes, ft, source)), ft, source, file, t.value);
      }
    }
  }

  /** A chain keeps the graph's invariant, given that its previous target is
      registered. */
  lemma {:induction false} ChainValid(c: Config, g: Graph, file: File, bl: seq<File>, w: Walk)
    requires LibraryRulesOk(c)
    requires Valid(g) && (w.last.Some? ==> Registered(g, w.last.value))
    ensures Valid(Chain(c, g, file, bl, w))
    decreases |RuleTypes(c) - w.chain|, |w.sources| - w.index
  {
    if w.index < |w.sources| {
      var o := Advance(c, g, file, bl, w);
      AdvanceValid(c, g, file, bl, w);
      if o.Next? {
        ChainValid(c, o.graph, file, bl, o.walk);
      }
    }
  }

  /** The static-library entry of the target table. */
  function StaticTargets(g: Graph): Option<set<Target>> {
    if StaticLibrary in g.buildTargets then Some(g.buildTargets[StaticLibrary]) else None
  }

  lemma AdvanceLibrary(c: Config, g: Graph, file: File, bl: seq<File>, w: Walk)
    requires LibraryRulesOk(c) && c.isLibrary && w.index < |w.sources|
    ensures StaticTargets(Advance(c, g, file, bl, w).graph) == StaticTargets(g)
  {
    var step := StepOf(c, file, bl, w.sources[w.index], w.fileType);
    if step.Use? {
      var source := w.sources[w.index];
      var ft := c.rules[step.key].sourceFileType;
      var g1 := g.(fileTypes := AddTo(g.fileTypes, ft, source));
      if ft != StaticLibrary {
        var t := Apply(c, c.rules[step.key], source);
        if t.Some? {
          RecordOtherType(g1, ft, source, file, t.value);
        }
      }
    }
  }

  lemma RecordOtherType(g: Graph, ft: string, source: File, file: File, t: Target)
    requires ft != StaticLibrary
    ensures StaticTargets(Record(g, ft, source, file, t)) == StaticTargets(g)
  {
    assert Record(g, ft, source, file, t).buildTargets == AddTo(g.buildTargets, ft, t);
  }

  /** A library's chain stops at the static-library file type: it never
      registers a target of that type. */
  lemma {:induction false} LibraryStopsAtStaticLibrary(c: Config, g: Graph, file: File, bl: seq<File>, w: Walk)
    requires LibraryRulesOk(c) && c.isLibrary
    ensures StaticTargets(Chain(c, g, file, bl, w)) == StaticTargets(g)
    decreases |RuleTypes(c) - w.chain|, |w.sources| - w.index
  {
    if w.index < |w.sources| {
      var o := Advance(c, g, file, bl, w);
      AdvanceLibrary(c, g, file, bl, w);
      if o.Next? {
        LibraryStopsAtStaticLibrary(c, o.graph, file, bl, o.walk);
      }
    }
  }

  /** The current step ends the chain without a further target: no rule
      applies, a library reaches the static-library type, or the rule yields no
      target. */
  predicate Stops(c: Config, file: File, bl: seq<File>, w: Walk) {
    && w.index < |w.sources|
    && var step := StepOf(c, file, bl, w.sources[w.index], w.fileType);
       || step.NoRule?
       || (&& step.Use? && step.key in c.rules
           && var rule := c.rules[step.key];
              (c.isLibrary && rule.sourceFileType == StaticLibrary) || Apply(c, rule, w.sources[w.index]).None?)
  }

  /** When the chain stops, the previous target is final. */
  lemma StopMarksLastFinal(c: Config, g: Graph, file: File, bl: seq<File>, w: Walk)
    requires LibraryRulesOk(c) && Stops(c, file, bl, w) && w.last.Some?
    ensures w.last.value in Chain(c, g, file, bl, w).final
  {
  }

  /** A target without outputs is final once its chain has run. */
  lemma NoOutputsFinal(c: Config, g: Graph, file: File, bl: seq<File>, w: Walk, k: string, t: Target)
    requires LibraryRulesOk(c) && Valid(g) && (w.last.Some? ==> Registered(g, w.last.value))
    requires var h := Chain(c, g, file, bl, w); k in h.buildTargets && t in h.buildTargets[k] && t.outputs == []
    ensures t in Chain(c, g, file, bl, w).final
  {
    ChainValid(c, g, file, bl, w);
  }

  /** The first target built from the original file, when it is not a binary,
      is an intro target. */
  lemma OriginalTargetIsIntro(c: Config, g: Graph, file: File, fileType: string, bl: seq<File>, key: string, t: Target)
    requires LibraryRulesOk(c) && !file.isBinary
    requires StepOf(c, file, bl, file, fileType) == Use(key) && key in c.rules
    requires !(c.isLibrary && c.rules[key].sourceFileType == StaticLibrary)
    requires Apply(c, c.rules[key], file) == Some(t)
    ensures t in Chain(c, g, file, bl, Start(file, fileType)).intro
  {
    var w := Start(file, fileType);
    var o := Advance(c, g, file, bl, w);
    assert t in o.graph.intro;
  }

  /** A binary file of a module that is not a library adds nothing. */
  lemma BinaryOfNonLibraryIgnored(c: Config, g: Graph, file: File, fileType: string, bl: seq<File>)
    requires LibraryRulesOk(c) && !c.isLibrary && file.isBinary && InList(file, bl)
    ensures Chain(c, g, file, bl, Start(file, fileType)) == g
  {
    var w := Start(file, fileType);
    assert StepOf(c, file, bl, w.sources[w.index], w.fileType) == Skip;
    assert Chain(c, g, file, bl, w) == Chain(c, g, file, bl, w.(index := 1));
  }
}
