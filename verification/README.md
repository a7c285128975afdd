# ModuleAutoGen, modelled in Dafny

This project models the core of `ModuleAutoGen`, the per-module part of the EDK II
build tool's AutoGen stage (`BaseTools/Source/Python/AutoGen/ModuleAutoGen.py`). For one
module, built for one architecture, it decides:

* **Source files and targets.** Which of the module's source files take part in the
  build (`SourceFileList`). Among files that share a name up to the extension, only the
  one whose extension comes first in the build-rule order is kept
  (`_MatchBuildRuleOrder`). Which binary files are kept (`BinaryFileList`). Which
  targets the build-rule chain registers for each file, and which of those targets start
  (intro) or end (final) a chain (`_ApplyBuildRule`).
* **PCD lists.** The FixedAtBuild PCDs of the module and their VOID* default values. The
  PCDs inherited from the dependent libraries (`LibraryPcdList`). The packages of the
  module and of its libraries (`DerivedPackageList`).
* **Dependency expression.** The merged dependency expression of the module and its
  libraries (`DepexList`), with FixedAtBuild VOID* PCD names replaced by their 16-byte
  GUID values.
* **As-built descriptor pieces.** The `[Binaries]` items, the `<Name>Offset.bin` record
  file of VFR/UNI offsets (`_GenOffsetBin`), and the `[PatchPcd]` lines. A patchable
  PCD's value is a zero-padded hex number, or a byte array padded to the maximum datum
  size (`_ConvertStringToByteArray` and the PatchPcd loop of `CreateAsBuiltInf`).
* **Incremental-build decisions.**
  * The module hash: md5 over the platform, package and library hashes, the module's
    metadata file and its sources (`GenModuleHash`).
  * Skip by hash (`CanSkipbyHash`).
  * Skip by time stamp (`CanSkip`), with the module-wide file-time cache `TimeDict` and
    the build-wide skipped-directory cache.

Pure computations are datatypes and functions, with lemmas about them. Code that
updates state step by step is a class with methods proved against those functions:

* `ModuleTargets.ModuleAutoGen` holds the target graph, the cached file lists and the
  include path list.
* `HashCache.HashRegistry` holds the build-wide hash dictionaries and the hash files on
  disk.
* `SkipCheck.SkipCache` holds the skipped directories and the remembered file times.
* The loops of `DepexList`, `LibraryPcdList`, `DerivedPackageList` and
  `_MatchBuildRuleOrder` are methods with loop invariants.

Python's dictionaries keep insertion order, so order-carrying dictionaries are
association lists (`Dicts.Table`).

Modules, from the bottom up:

* `Wrappers`, `Seqs`, `Dicts`: support definitions.
* `Text`: the string operations Python provides (strip, split, int parsing, hex
  formatting, `os.path.join`).
* `PcdTypes`, `Pcds`, `LibraryMerge`: PCD lists and package lists.
* `ByteArray`, `PatchPcd`: PCD value encoding.
* `AsBuilt`: `[Binaries]` items and the offset file.
* `Depex`: the dependency expression.
* `BuildOrder`, `TargetGraph`, `ModuleTargets`: file lists and the target graph.
* `SkipCheck`, `HashCache`: incremental-build decisions.

## Model

| member | source | states |
|---|---|---|
| Pcds.Lookup | BaseTools/Source/Python/AutoGen/ModuleAutoGen.py:277-281 | The PCD found for a key is one of the list with that key; none is found exactly when no PCD of the list has the key (the `Pcd not in RetVal` test). |
| Pcds.FixedAtBuildPcds | BaseTools/Source/Python/AutoGen/ModuleAutoGen.py:274-282 | The result holds only FixedAtBuild PCDs, no key twice, and for every key the same PCD as the first FixedAtBuild PCD of the module list with that key. |
| Pcds.FixedVoidTypePcds | BaseTools/Source/Python/AutoGen/ModuleAutoGen.py:284-291 | The dictionary has no key twice. |
| Pcds.FixedVoidTypePcdsGet | BaseTools/Source/Python/AutoGen/ModuleAutoGen.py:284-291 | A dotted name maps to the default value of the first VOID* FixedAtBuild PCD with that name; later ones do not override it. |
| LibraryMerge.LibraryPcdList | BaseTools/Source/Python/AutoGen/ModuleAutoGen.py:1026-1042 | The loop over libraries computes exactly `LibraryPcds`. |
| LibraryMerge.TakeLibrary | BaseTools/Source/Python/AutoGen/ModuleAutoGen.py:1033-1040 | One library's inner loop extends the list exactly as `TakeFrom` does and keeps the `Pcds` set equal to the keys taken so far. |
| LibraryMerge.KeySet | BaseTools/Source/Python/AutoGen/ModuleAutoGen.py:1031-1037 | A key is in the set exactly when the list holds a PCD with that key. |
| LibraryMerge.LibraryPcdsSpec | BaseTools/Source/Python/AutoGen/ModuleAutoGen.py:1026-1042 | A library module gets no PCDs. Otherwise no key appears twice, and each key maps to the first library PCD with that key, unless the module itself declares the key, in which case it maps to nothing. |
| LibraryMerge.FirstLibraryWins | BaseTools/Source/Python/AutoGen/ModuleAutoGen.py:1032-1037 | When library i is the first to declare a key, the merged list gives that library's PCD for it. |
| LibraryMerge.DerivedPackageList | BaseTools/Source/Python/AutoGen/ModuleAutoGen.py:464-472 | The nested loop computes exactly `DerivedPackages`. |
| LibraryMerge.DerivedPackagesSpec | BaseTools/Source/Python/AutoGen/ModuleAutoGen.py:464-472 | The package list has no duplicates, holds exactly the packages of the module and of its libraries, and starts with the module's own packages in their order. |
| Seqs.DedupeSpec | BaseTools/Source/Python/AutoGen/ModuleAutoGen.py:467-471 | Appending the items not yet present keeps the list duplicate-free, keeps the prefix, and holds exactly the old items and the new ones. |
| Seqs.DedupeAppend | BaseTools/Source/Python/AutoGen/ModuleAutoGen.py:467-471 | Deduplicating a concatenation is deduplicating the two parts one after the other, as the loop over modules does. |
| Dicts.Get | BaseTools/Source/Python/AutoGen/ModuleAutoGen.py:547-549 | A key has a value exactly when some entry has that key, and the value is that entry's. |
| Dicts.Put | BaseTools/Source/Python/AutoGen/ModuleAutoGen.py:289-290 | Assigning a new key appends an entry; assigning an existing key replaces that entry in place; keys stay distinct. |
| Dicts.GetPut | BaseTools/Source/Python/AutoGen/ModuleAutoGen.py:289-290 | After `d[key] = value`, `key` reads `value` and every other key reads what it read before. |
| Dicts.GetUpdate | BaseTools/Source/Python/AutoGen/ModuleAutoGen.py:547-549 | After `d.update(e)`, a key reads `e`'s value when `e` has it, and `d`'s otherwise. |
| ByteArray.ParseDecimals | BaseTools/Source/Python/AutoGen/ModuleAutoGen.py:174-180 | Decimal fields parse back to the values they print. |
| ByteArray.RenderReadsBack | BaseTools/Source/Python/AutoGen/ModuleAutoGen.py:174-180 | The `{v1,v2,...}` text the loop renders reads back as the same values. |
| ByteArray.RenderIsFixedPoint | BaseTools/Source/Python/AutoGen/ModuleAutoGen.py:147-181 | Converting a rendered byte array returns it unchanged. |
| ByteArray.ConvertIdempotent | BaseTools/Source/Python/AutoGen/ModuleAutoGen.py:147-181 | Converting the output of a successful conversion gives the same output. |
| ByteArray.ConvertStringToByteArray | BaseTools/Source/Python/AutoGen/ModuleAutoGen.py:147-181 | The conversion fails exactly for a blank value, a value opening with `{` that does not end with `}` or has a field `int(x, 0)` rejects, and any other value that is not a plainly quoted `"..."` or `L"..."` string. A successful result is a brace list whose fields all read as integers. |
| ByteArray.ConvertBraces | BaseTools/Source/Python/AutoGen/ModuleAutoGen.py:151-162 | A brace list converts exactly when it ends with `}` and every field parses, and the result stands for the integer values of its fields, in order. |
| ByteArray.ConvertQuoted | BaseTools/Source/Python/AutoGen/ModuleAutoGen.py:164-181 | A quoted value converts exactly when, after an `L` prefix is dropped, it is a plainly quoted string. The result stands for one entry per character (its code modulo 0x100, or 0x10000 for `L`) followed by 0. |
| ByteArray.QuotedStringEncoding | BaseTools/Source/Python/AutoGen/ModuleAutoGen.py:164-180 | A plainly quoted string converts to one entry per character plus a terminating 0. Each entry is the character's code modulo 0x100, or modulo 0x10000 for an `L"..."` string. |
| ByteArray.ConvertNarrow | BaseTools/Source/Python/AutoGen/ModuleAutoGen.py:164-180 | The exact text produced for a plain `"..."` string. |
| ByteArray.ConvertWide | BaseTools/Source/Python/AutoGen/ModuleAutoGen.py:164-180 | The exact text produced for a plain `L"..."` string. |
| PatchPcd.HexWidth | BaseTools/Source/Python/AutoGen/ModuleAutoGen.py:1486-1494 | UINT16 gets 4 hex digits, UINT32 8, UINT64 16, and every other type (UINT8, BOOLEAN) 2. |
| PatchPcd.EncodeNumeric | BaseTools/Source/Python/AutoGen/ModuleAutoGen.py:1479-1494 | A numeric value fails, as the exception `int(x, 0)` raises, exactly when its (BOOLEAN-rewritten) default does not parse. Otherwise it is `0x` followed by at least the type's width of hex digits. |
| PatchPcd.NumericLayout | BaseTools/Source/Python/AutoGen/ModuleAutoGen.py:1479-1494 | A numeric value that fits its type becomes `0x` and exactly the type's width of hex digits, and reads back as the same number. |
| PatchPcd.BooleanLayout | BaseTools/Source/Python/AutoGen/ModuleAutoGen.py:1479-1494 | A BOOLEAN `TRUE`/`FALSE` in any case becomes `0x01`/`0x00`. |
| PatchPcd.EncodeVoid | BaseTools/Source/Python/AutoGen/ModuleAutoGen.py:1496-1539 | A VOID* PCD fails as unknown-size exactly when MaxDatumSize is missing or empty. It fails as too-small only when the user set MaxDatumSize. |
| PatchPcd.EncodeString | BaseTools/Source/Python/AutoGen/ModuleAutoGen.py:1502-1529 | A string value fails as too-small only when the user set MaxDatumSize. |
| PatchPcd.EncodeBody | BaseTools/Source/Python/AutoGen/ModuleAutoGen.py:1512-1529 | Encoding a string body fails exactly when MaxDatumSize was set by the user and the size is below the body plus its terminator. The size is halved for a Unicode string. The only failure is the too-small error. |
| PatchPcd.StringLayout | BaseTools/Source/Python/AutoGen/ModuleAutoGen.py:1502-1529 | A successful string encoding reads back as the string's bytes (two per character for Unicode, low byte first) followed by zeros. Its length is the maximum of the body plus terminator and the (halved) MaxDatumSize, doubled for Unicode. |
| PatchPcd.LayoutReadsBack | BaseTools/Source/Python/AutoGen/ModuleAutoGen.py:1512-1529 | The rendered entries read back as the character bytes followed by the terminator and the padding zeros. |
| PatchPcd.EncodeBraces | BaseTools/Source/Python/AutoGen/ModuleAutoGen.py:1530-1539 | A brace list fails exactly when it has more fields than MaxDatumSize and the user set MaxDatumSize. Otherwise an over-long list is kept as is. |
| PatchPcd.BracePadding | BaseTools/Source/Python/AutoGen/ModuleAutoGen.py:1530-1532 | A brace list with at most MaxDatumSize fields is padded to exactly MaxDatumSize fields. |
| PatchPcd.PatchPcdValue | BaseTools/Source/Python/AutoGen/ModuleAutoGen.py:1478-1539 | The value fails as unknown-size exactly for a non-numeric PCD with a missing or empty MaxDatumSize. It fails as too-small only for a non-numeric PCD whose MaxDatumSize the user set. A numeric PCD gets a value exactly when its default parses. |
| PatchPcd.PatchPcdItem | BaseTools/Source/Python/AutoGen/ModuleAutoGen.py:1540-1541 | When neither the dotted name nor the value holds `|`, the `[PatchPcd]` line splits on `|` into the dotted PCD name, the value and `0x<offset>`, and the last field reads back as the offset. |
| AsBuilt.BinaryKind | BaseTools/Source/Python/AutoGen/ModuleAutoGen.py:1414-1421 | The item kind is ASL, ACPI, PE32 or BIN. It is ASL exactly for `.aml`, ACPI exactly for `.acpi` and PE32 exactly for `.efi`, in any case. |
| AsBuilt.BinaryKindIgnoresCase | BaseTools/Source/Python/AutoGen/ModuleAutoGen.py:1414-1421 | Extensions equal up to case give the same kind. |
| AsBuilt.BinaryItem | BaseTools/Source/Python/AutoGen/ModuleAutoGen.py:1414-1421 | An `.aml` file gives `ASL|<file>`, an `.acpi` file `ACPI|<file>`, an `.efi` file `PE32|<Name>.efi`, and any other extension `BIN|<file>`. |
| AsBuilt.BinaryItemFields | BaseTools/Source/Python/AutoGen/ModuleAutoGen.py:1414-1421 | The item splits on `|` back into its kind and its file. |
| AsBuilt.TargetItems | BaseTools/Source/Python/AutoGen/ModuleAutoGen.py:1410-1421 | There is one item per coda target, in order. |
| AsBuilt.DepexKind | BaseTools/Source/Python/AutoGen/ModuleAutoGen.py:1426-1432 | A depex item exists exactly for PEIM, DXE_DRIVER, DXE_RUNTIME_DRIVER, DXE_SAL_DRIVER, UEFI_DRIVER and DXE_SMM_DRIVER. It is PEI_DEPEX exactly for PEIM, SMM_DEPEX exactly for DXE_SMM_DRIVER, and DXE_DEPEX exactly for the other four. |
| AsBuilt.DeclaredModuleType | BaseTools/Source/Python/AutoGen/ModuleAutoGen.py:1352 | The declared type differs from the module type exactly for a UEFI_DRIVER with a generated depex, which is declared a DXE_DRIVER. |
| AsBuilt.PdbItems | BaseTools/Source/Python/AutoGen/ModuleAutoGen.py:1438-1441 | The items are exactly `DISPOSABLE|<file>` for each output file ending in `.pdb` (in any case), in order. |
| AsBuilt.BinaryItems | BaseTools/Source/Python/AutoGen/ModuleAutoGen.py:1410-1441 | The `[Binaries]` list is the item of each coda target in order, then the depex item when a depex was generated for a type that has one, then `BIN|<offset file>` when there is one, then exactly the PDB items. |
| AsBuilt.SymbolTable | BaseTools/Source/Python/AutoGen/ModuleAutoGen.py:1196-1207 | The symbol table has no key twice and no more entries than sources. |
| AsBuilt.SymbolTableGet | BaseTools/Source/Python/AutoGen/ModuleAutoGen.py:1196-1207 | A VFR source's base name `b` maps to `bBin`. `UniOffsetName` maps to `<Name>Strings` exactly when some source is a UNI file, unless a VFR source is named `UniOffsetName`. Every other key reads what it read before. |
| AsBuilt.SymbolTableEmpty | BaseTools/Source/Python/AutoGen/ModuleAutoGen.py:1196-1210 | The table is empty exactly when no source is a `.VFR` or `.UNI` file. |
| AsBuilt.UniGuidForm | BaseTools/Source/Python/AutoGen/ModuleAutoGen.py:1230-1235 | The 16 bytes written for a string package are the GUID {0x8913c5e0, 0x33f6, 0x4d86, {0x9b, 0xf1, 0x43, 0xef, 0x89, 0xfc, 0x06, 0x66}} in memory order. |
| AsBuilt.VfrGuidForm | BaseTools/Source/Python/AutoGen/ModuleAutoGen.py:1240-1245 | The 16 bytes written for a VFR binary are the GUID {0xd0bc7cb4, 0x6a47, 0x495f, {0xaa, 0x11, 0x71, 0x07, 0x46, 0xda, 0x06, 0xa2}} in memory order. |
| AsBuilt.LittleEndianRoundTrip | BaseTools/Source/Python/AutoGen/ModuleAutoGen.py:1236-1237 | `pack('Q', v)` reads back as `v` for every value below 2^64. |
| AsBuilt.OffsetRecord | BaseTools/Source/Python/AutoGen/ModuleAutoGen.py:1228-1248 | A record is 24 bytes. |
| AsBuilt.RecordLayout | BaseTools/Source/Python/AutoGen/ModuleAutoGen.py:1228-1248 | A record is the GUID chosen by whether the name contains `Strings`, followed by the hex offset as 8 little-endian bytes; the offset parses and is below 2^64. |
| AsBuilt.RecordsAt | BaseTools/Source/Python/AutoGen/ModuleAutoGen.py:1228-1248 | The k-th record is the record of the k-th offset. |
| AsBuilt.OffsetBinRecords | BaseTools/Source/Python/AutoGen/ModuleAutoGen.py:1228-1248 | The file is 24 bytes per offset, and bytes 24i to 24i+24 are the record of offset i. |
| AsBuilt.GenOffsetBin | BaseTools/Source/Python/AutoGen/ModuleAutoGen.py:1195-1260 | No file is produced when the lookup finds no offset or when no source is VFR or UNI. A produced file is named `<Name>Offset.bin` and holds exactly the records of the offsets looked up for the table's values; an error is the error of building those records. |
| Depex.MergedTableGet | BaseTools/Source/Python/AutoGen/ModuleAutoGen.py:547-549 | In the merged FixedAtBuild VOID* table, a name reads the value of the last module in walk order that declares it. |
| Depex.Substitute | BaseTools/Source/Python/AutoGen/ModuleAutoGen.py:558-569 | Corrected form. A token without a dot is kept. A dotted token succeeds exactly when the table has it with a 16-field value, and is replaced by that value. An error names the token. |
| Depex.SubstituteAsWritten | BaseTools/Source/Python/AutoGen/ModuleAutoGen.py:558-569 | As written: every failure, including a value of the wrong size, is reported as the not-FixedAtBuild-VOID* error. |
| Depex.SizeErrorSwallowed | BaseTools/Source/Python/AutoGen/ModuleAutoGen.py:563-569 | The two forms agree on success. Where the corrected form reports a wrong size, the written form reports not-FixedAtBuild-VOID* instead. |
| Depex.SizeErrorExample | BaseTools/Source/Python/AutoGen/ModuleAutoGen.py:563-569 | A one-field GUID value gives the size error in the corrected form and the other error as written. |
| Depex.SubstituteAll | BaseTools/Source/Python/AutoGen/ModuleAutoGen.py:557-569 | On success each token is replaced by its substitution, one for one. On failure the error is that of some token. |
| Depex.SubstituteTokens | BaseTools/Source/Python/AutoGen/ModuleAutoGen.py:557-569 | The token loop computes exactly `SubstituteAll`. |
| Depex.AddExpression | BaseTools/Source/Python/AutoGen/ModuleAutoGen.py:553-576 | Adding one expression (`AND`, `(`, the tokens, `END` dropped, `)`) computes exactly `AddExpr`. |
| Depex.DepexList | BaseTools/Source/Python/AutoGen/ModuleAutoGen.py:538-582 | The loop over the module and its libraries computes exactly `MergedDepex`. |
| Depex.StopAt | BaseTools/Source/Python/AutoGen/ModuleAutoGen.py:578-579 | The walk stops within the module list. |
| Depex.PieceOrder | BaseTools/Source/Python/AutoGen/ModuleAutoGen.py:557-576 | A bracketed piece holds `BEFORE`/`AFTER` exactly when the expression it comes from does. Substitution and the `END` drop keep these keywords. |
| Depex.PiecesOrder | BaseTools/Source/Python/AutoGen/ModuleAutoGen.py:552-579 | Some piece holds `BEFORE`/`AFTER` exactly when some expression does. |
| Depex.MergePieces | BaseTools/Source/Python/AutoGen/ModuleAutoGen.py:550-579 | The merge loop yields the pieces of all modules up to the stop point joined by `AND`, or the first substitution error. |
| Depex.MergedDepex | BaseTools/Source/Python/AutoGen/ModuleAutoGen.py:538-582 | A module with a DXS file, a library, or a module with a depex source gets nothing. Any other module gets `{ModuleType: pieces joined by AND}` over the modules up to the first one whose expressions hold `BEFORE`/`AFTER`, or the first substitution error. |
| BuildOrder.Rank | BaseTools/Source/Python/AutoGen/ModuleAutoGen.py:762 | `order.index(e)`: the first position of `e`, exactly when `e` is in the order. |
| BuildOrder.SortTail | BaseTools/Source/Python/AutoGen/ModuleAutoGen.py:762-765 | After sorting a group's extensions by rank, the ones after the first are exactly those with some extension of the group ranked ahead. |
| BuildOrder.RemoveAllSpec | BaseTools/Source/Python/AutoGen/ModuleAutoGen.py:767-768 | Removing distinct paths that all occur succeeds and filters them out. |
| BuildOrder.RemovedIsShadowed | BaseTools/Source/Python/AutoGen/ModuleAutoGen.py:752-765 | A file is listed for removal only if another eligible file with the same stem has a better-ranked extension. |
| BuildOrder.ShadowedIsRemoved | BaseTools/Source/Python/AutoGen/ModuleAutoGen.py:752-765 | Every such shadowed file is listed for removal. |
| BuildOrder.MatchedFiles | BaseTools/Source/Python/AutoGen/ModuleAutoGen.py:749-770 | With distinct paths, the result is never the `ValueError`: it is the input list, in order, without the shadowed files. |
| BuildOrder.OneExtensionPerStem | BaseTools/Source/Python/AutoGen/ModuleAutoGen.py:749-770 | Among the surviving eligible files, two with the same stem have the same extension. |
| BuildOrder.PushAfterFirst | BaseTools/Source/Python/AutoGen/ModuleAutoGen.py:764-765 | The inner loop appends the paths for every extension after the first, as `PushPaths`. |
| BuildOrder.MatchBuildRuleOrder | BaseTools/Source/Python/AutoGen/ModuleAutoGen.py:749-770 | The grouping, removal-list and removal loops compute exactly `MatchedFiles`. |
| TargetGraph.Apply | BaseTools/Source/Python/AutoGen/ModuleAutoGen.py:882 | A rule yields a target exactly when the given rule table builds one from that source. |
| TargetGraph.AddTo | BaseTools/Source/Python/AutoGen/ModuleAutoGen.py:873-874 | Adding a file under a type puts it there and removes nothing else. |
| TargetGraph.StepOf | BaseTools/Source/Python/AutoGen/ModuleAutoGen.py:852-871 | Under the rule-table invariant, a chosen rule key is in the table. |
| TargetGraph.Advance | BaseTools/Source/Python/AutoGen/ModuleAutoGen.py:851-903 | Every step that continues the work list brings it closer to its end: a new file type, or the same types with fewer sources left. |
| TargetGraph.AdvanceBy | BaseTools/Source/Python/AutoGen/ModuleAutoGen.py:873-903 | The same decrease for a step that found a rule. |
| TargetGraph.ChainStep | BaseTools/Source/Python/AutoGen/ModuleAutoGen.py:851-903 | The chain is one step followed by the chain from the resulting state. |
| TargetGraph.RecordSpec | BaseTools/Source/Python/AutoGen/ModuleAutoGen.py:891-894 | Registering a target only adds to the graph, makes the target registered, and keeps the graph invariant. |
| TargetGraph.FinishSpec | BaseTools/Source/Python/AutoGen/ModuleAutoGen.py:882-889 | Marking the last target final only adds to the graph and keeps the invariant. |
| TargetGraph.AdvanceGrows | BaseTools/Source/Python/AutoGen/ModuleAutoGen.py:851-903 | One step never removes a target, intro or final. |
| TargetGraph.AdvanceValid | BaseTools/Source/Python/AutoGen/ModuleAutoGen.py:851-903 | One step keeps the invariant: intro and final targets are registered, and a registered target without outputs is final. |
| TargetGraph.Chain | BaseTools/Source/Python/AutoGen/ModuleAutoGen.py:851-903 | Running the work list never removes a target, intro target, final target or file-type entry from the graph. |
| TargetGraph.ChainValid | BaseTools/Source/Python/AutoGen/ModuleAutoGen.py:829-903 | Applying the build rule keeps the graph invariant. |
| TargetGraph.AdvanceLibrary | BaseTools/Source/Python/AutoGen/ModuleAutoGen.py:877-880 | For a library, one step never changes the static-library targets. |
| TargetGraph.RecordOtherType | BaseTools/Source/Python/AutoGen/ModuleAutoGen.py:891 | Registering under another file type leaves the static-library targets alone. |
| TargetGraph.LibraryStopsAtStaticLibrary | BaseTools/Source/Python/AutoGen/ModuleAutoGen.py:877-880 | A library's chain never registers a static-library target. |
| TargetGraph.StopMarksLastFinal | BaseTools/Source/Python/AutoGen/ModuleAutoGen.py:866-889 | When the chain stops (no rule, a library's static library, no target), the previous target is final. |
| TargetGraph.NoOutputsFinal | BaseTools/Source/Python/AutoGen/ModuleAutoGen.py:887-889 | A registered target without outputs ends up final. |
| TargetGraph.OriginalTargetIsIntro | BaseTools/Source/Python/AutoGen/ModuleAutoGen.py:893-894 | The target built from the original source file is an intro target. |
| TargetGraph.BinaryOfNonLibraryIgnored | BaseTools/Source/Python/AutoGen/ModuleAutoGen.py:858-860 | A binary file of a non-library module that is in the binary list changes nothing. |
| ModuleTargets.Binaries | BaseTools/Source/Python/AutoGen/ModuleAutoGen.py:793-801 | After `BinaryFileList` the binary list is cached. |
| ModuleTargets.BinariesFromSpec | BaseTools/Source/Python/AutoGen/ModuleAutoGen.py:793-801 | The kept binaries follow the prefix and are exactly the binaries for every target or for the build target, in their order and with their repetitions. |
| ModuleTargets.SourcesFromSpec | BaseTools/Source/Python/AutoGen/ModuleAutoGen.py:725-741 | The kept sources follow the prefix and are exactly those whose tool chain tag and family match the module's, in their order and with their repetitions. |
| ModuleTargets.IncludeFromKeeps | BaseTools/Source/Python/AutoGen/ModuleAutoGen.py:739-740 | New directories go in front; the old include path list stays, in order, at the end. |
| ModuleTargets.IncludeFromMembers | BaseTools/Source/Python/AutoGen/ModuleAutoGen.py:739-740 | A directory is in the result exactly when it was already there or is the directory of a kept source. |
| ModuleTargets.IncludeFromDistinct | BaseTools/Source/Python/AutoGen/ModuleAutoGen.py:739-740 | A duplicate-free include path list stays duplicate-free. |
| ModuleTargets.NonLibraryBinariesIgnored | BaseTools/Source/Python/AutoGen/ModuleAutoGen.py:796-800 | For a non-library module, running the binaries through the rule chain changes nothing. |
| ModuleTargets.AppliedValid | BaseTools/Source/Python/AutoGen/ModuleAutoGen.py:829-903 | `_ApplyBuildRule` keeps the graph invariant. This includes the case of an empty binary list, which is replaced by `BinaryFileList`. |
| ModuleTargets.ApplyAllValid | BaseTools/Source/Python/AutoGen/ModuleAutoGen.py:745-746 | Applying the build rule to every source keeps the graph invariant. |
| ModuleTargets.ApplyAllCachesBinaries | BaseTools/Source/Python/AutoGen/ModuleAutoGen.py:836-837 | After applying the rule to at least one source, the binary list is the one `BinaryFileList` computes. |
| ModuleTargets.ModuleAutoGen.constructor | BaseTools/Source/Python/AutoGen/ModuleAutoGen.py:830-834 | A new module object has an empty target graph and nothing cached. |
| ModuleTargets.ModuleAutoGen.ApplyBuildRule | BaseTools/Source/Python/AutoGen/ModuleAutoGen.py:829-903 | The new graph and binary cache are `Applied` of the old ones; the source list and include paths are unchanged. |
| ModuleTargets.ModuleAutoGen.RunChain | BaseTools/Source/Python/AutoGen/ModuleAutoGen.py:851-903 | The work-list loop leaves the graph at `Chain` of the old one. |
| ModuleTargets.ModuleAutoGen.Turn | BaseTools/Source/Python/AutoGen/ModuleAutoGen.py:851-903 | One turn of the loop updates the graph as `Advance` does and reports whether it stopped and the next state. |
| ModuleTargets.ModuleAutoGen.TurnBy | BaseTools/Source/Python/AutoGen/ModuleAutoGen.py:873-903 | The same for a turn that found a rule, against `AdvanceBy`. |
| ModuleTargets.ModuleAutoGen.MarkFinal | BaseTools/Source/Python/AutoGen/ModuleAutoGen.py:888-889 | The graph becomes `Finish` of the old one. |
| ModuleTargets.ModuleAutoGen.Register | BaseTools/Source/Python/AutoGen/ModuleAutoGen.py:891-894 | The graph becomes `Record` of the old one. |
| ModuleTargets.ModuleAutoGen.BinaryFileList | BaseTools/Source/Python/AutoGen/ModuleAutoGen.py:793-801 | Returns and caches the binary list, and leaves the graph as `Binaries` says. |
| ModuleTargets.ModuleAutoGen.CollectSources | BaseTools/Source/Python/AutoGen/ModuleAutoGen.py:721-741 | The filter loop returns the kept sources and extends the include paths as `IncludeFrom` does. |
| ModuleTargets.ModuleAutoGen.ApplyEach | BaseTools/Source/Python/AutoGen/ModuleAutoGen.py:745-746 | Applying the build rule to each file leaves the state at `ApplyAll`. |
| ModuleTargets.ModuleAutoGen.SourceFileList | BaseTools/Source/Python/AutoGen/ModuleAutoGen.py:718-747 | A cached list is returned unchanged. Otherwise the list is the kept sources after `_MatchBuildRuleOrder`, the include paths are extended, the build rule is applied to each file, and the list is cached. |
| SkipCheck.CheckLinesSpec | BaseTools/Source/Python/AutoGen/ModuleAutoGen.py:1906-1915 | The manifest passes exactly when every listed file exists and its remembered (or else current) time is not after the manifest's. Remembered times only gain entries, at their time on disk. |
| SkipCheck.Decide | BaseTools/Source/Python/AutoGen/ModuleAutoGen.py:1896-1918 | The module is skipped exactly when its directory was skipped before, or when the manifest exists, is not older than the sources, and every listed file passes. A skip records the directory, and remembered times never change. |
| SkipCheck.SkipIsRemembered | BaseTools/Source/Python/AutoGen/ModuleAutoGen.py:1897-1898 | Once skipped, a later call skips again whatever the disk looks like, and changes nothing. |
| SkipCheck.RememberedTimeWins | BaseTools/Source/Python/AutoGen/ModuleAutoGen.py:1912-1915 | A listed file whose remembered time is after the manifest's prevents the skip, even if the file on disk is older now. |
| SkipCheck.SkipCache.constructor | BaseTools/Source/Python/AutoGen/ModuleAutoGen.py:198 | Nothing is skipped or remembered at the start. |
| SkipCheck.SkipCache.CanSkip | BaseTools/Source/Python/AutoGen/ModuleAutoGen.py:1896-1918 | The answer and the new caches are those of `Decide`. |
| HashCache.SortBySpec | BaseTools/Source/Python/AutoGen/ModuleAutoGen.py:1828 | Sorting by key gives a permutation sorted by the key. |
| HashCache.SortByPermutation | BaseTools/Source/Python/AutoGen/ModuleAutoGen.py:1828-1848 | With distinct keys, two orderings of the same items sort to the same list. |
| HashCache.ModuleHash | BaseTools/Source/Python/AutoGen/ModuleAutoGen.py:1811-1855 | The digest returned is the one remembered for the module afterwards, and no remembered digest changes. |
| HashCache.LibDigests | BaseTools/Source/Python/AutoGen/ModuleAutoGen.py:1833-1837 | One digest per library; no remembered digest changes. |
| HashCache.LibDigestsRemembered | BaseTools/Source/Python/AutoGen/ModuleAutoGen.py:1833-1837 | The digest fed in for each library is the one remembered for it afterwards. |
| HashCache.HashIgnoresOrder | BaseTools/Source/Python/AutoGen/ModuleAutoGen.py:1826-1851 | With distinct names, the hash does not depend on the order in which packages, libraries and sources are listed. |
| HashCache.IncludesInc | BaseTools/Source/Python/AutoGen/ModuleAutoGen.py:1872-1874 | The loop answers true exactly when some source path contains `.inc`. |
| HashCache.SkipByHash | BaseTools/Source/Python/AutoGen/ModuleAutoGen.py:1858-1891 | Without the hash cache nothing is skipped or changed. A skip needs the cache, a non-binary module and no `.inc` source; a module copied from the binary cache is then skipped; and a remembered decision is returned as it is, with the state unchanged. |
| HashCache.Decide | BaseTools/Source/Python/AutoGen/ModuleAutoGen.py:1881-1888 | A fresh decision skips exactly when the hash file already held the module hash. Afterwards that file holds the hash, every other file is unchanged, the decision is remembered, and no remembered digest changes. |
| HashCache.SkipByHashFresh | BaseTools/Source/Python/AutoGen/ModuleAutoGen.py:1858-1888 | When none of the earlier answers applies (cache on, not binary, no `.inc`, not copied, hash file present for a library, nothing remembered), `CanSkipbyHash` skips exactly when the hash file already held the module hash, and leaves that hash in the file and the decision remembered. |
| HashCache.FreshDecisionRemembered | BaseTools/Source/Python/AutoGen/ModuleAutoGen.py:1886-1891 | Asking again after a fresh decision gives the same answer and leaves the state alone. |
| HashCache.SkipByHashStable | BaseTools/Source/Python/AutoGen/ModuleAutoGen.py:1858-1891 | Asking twice in a row gives the same answer and state as asking once. |
| HashCache.HashRegistry.constructor | BaseTools/Source/Python/AutoGen/ModuleAutoGen.py:1812-1814 | The build starts with no remembered digests or decisions. |
| HashCache.HashRegistry.GenModuleHash | BaseTools/Source/Python/AutoGen/ModuleAutoGen.py:1811-1855 | Returns the digest and leaves the remembered digests as `ModuleHash` says. |
| HashCache.HashRegistry.HashLibraries | BaseTools/Source/Python/AutoGen/ModuleAutoGen.py:1833-1837 | The library loop returns the digests and memo of `LibDigests`. |
| HashCache.HashRegistry.DecideAfresh | BaseTools/Source/Python/AutoGen/ModuleAutoGen.py:1886-1888 | Hashes, saves on change and remembers, as `Decide`. |
| HashCache.HashRegistry.CanSkipbyHash | BaseTools/Source/Python/AutoGen/ModuleAutoGen.py:1858-1891 | The answer and the new state are those of `SkipByHash`. |
| Text.Strip | BaseTools/Source/Python/AutoGen/ModuleAutoGen.py:148 | The result neither starts nor ends with white space. A string without white space is unchanged. |
| Text.Split | BaseTools/Source/Python/AutoGen/ModuleAutoGen.py:155 | At least one piece, no piece holds the separator, and joining the pieces with it gives back the string. |
| Text.SplitJoin | BaseTools/Source/Python/AutoGen/ModuleAutoGen.py:155 | Splitting pieces joined by a separator they lack gives back the pieces. |
| Text.DecimalRoundTrip | BaseTools/Source/Python/AutoGen/ModuleAutoGen.py:174-180 | `int(str(n))` is `n`. |
| Text.HexPadFits | BaseTools/Source/Python/AutoGen/ModuleAutoGen.py:1486-1494 | A number with at most `width` hex digits prints as exactly `width` hex digits. |
| Text.JoinPath | BaseTools/Source/Python/AutoGen/ModuleAutoGen.py:1921-1922 | The joined path starts with the directory and ends with the name. |

## Left out

- The rule table (`BuildRules`), `RuleObject.Apply` and the file-type table are inputs of `TargetGraph.Config`; rule matching inside `BuildRule.py` is not part of this model.
- `ApplyPcdSetting` and `ApplyLibraryInstance` live on the platform object. `LibraryMerge.LibraryPcdList` returns the PCDs it would hand over, unchanged.
- `ByteArray.ConvertStringToByteArray`: Python's `eval` of a quoted string is modelled for plain bodies only (no backslash escapes, no embedded quotes or line breaks). Others are rejected (`None`) rather than decoded.
- Reading and writing files, creating directories, `os.walk`, logging and `EdkLogger` verbosity are left out. File contents, times and the list of PDB files are parameters.
- md5 is an uninterpreted function parameter of `HashCache.Ctx`. `AttemptModuleCacheCopy` is an input flag (`Flags.cacheCopied`).
- `GetVariableOffset` (the map-file parser) is a function parameter of `AsBuilt.GenOffsetBin`.
- `_MatchBuildRuleOrder` groups files by name without extension (`File.stem`). Two files are the same file when their paths are equal.
- `TargetGraph.LibraryRulesOk`: the default binary rule (`_BINARY_FILE_`) and the rules chosen for known types are assumed to be in the rule table. The source raises `KeyError` otherwise.
- `Text.JoinPath` is the POSIX form of `os.path.join` (one `/`). An absolute second component is not modelled.
- The include path list starts from the value given to `ModuleTargets.ModuleAutoGen.constructor`. `IncludePathList` itself is not part of this model.
- `HashCache.ModuleHash`: a library's own libraries are not hashed. Its `LibraryAutoGenList` is empty because `DependentLibraryList` returns `[]` for libraries (lines 997-1001).
- The as-built descriptor's template text (`gAsBuiltInfHeaderString`) and every section other than `[Binaries]` and `[PatchPcd]` are left out. So are `_GetDepexExpresionString`, `DepexExpressionDict`, the makefile, code and auto-generated file generation, and the cached-property plumbing.
- `GlobalData` globals (`gModuleHash`, `gBuildHashSkipTracking`, `gSikpAutoGenCache`) become the registry classes `HashCache.HashRegistry` and `SkipCheck.SkipCache`. `ModuleAutoGen.TimeDict` is the `times` field of `SkipCache`.
- `PatchPcd.EncodeNumeric`: a value that does not fit its type is printed with more digits, as `%0Nx` does. The model keeps this and proves the layout only for values that fit.
- At lines 877-880 a library's chain stops before a static-library target, and the previous target is marked final. At lines 897-898 the cycle guard stops without marking anything final. `TargetGraph.Advance` does the same.
- `PatchPcd.EvalQuoted`: a string literal with escapes, a `u`/`b`/`r` prefix or adjacent literals that concatenate gives `PythonException`. Python's `eval` at line 1507 decodes such literals.
- `Text.ParseIntLiteral` and `Text.ParseHex` reject `_` digit separators and non-ASCII digits, which Python's `int` accepts.
- `Text.Lower` and `Text.Upper` map ASCII letters only. Python's `upper()` at line 1480 also maps other letters, so a non-ASCII spelling such as `falſe` is not rewritten to `0`.
- `AsBuilt.LittleEndian`: `pack('Q', ...)` at lines 1236 and 1243 uses the host's native byte order. The model fixes it to little-endian, the order on the hosts that build EDK II.
- `AsBuilt.Target`: the rewriting of a target path relative to the output and debug directories at lines 1411-1413 is not modelled. `Target.file` is the relative path that rewriting produces.
- `PatchPcd.NormalizedDefault`: the BOOLEAN rewrite at lines 1479-1484 assigns `Pcd.DefaultValue` in place, so the PCD object keeps `1`/`0` afterwards. The model computes the rewritten text and does not update the PCD.

## Findings

| source | as written | input that shows it | evidently intended | confidence | as-written member | corrected member |
|---|---|---|---|---|---|---|
| BaseTools/Source/Python/AutoGen/ModuleAutoGen.py:563-569 | The size check's `EdkLogger.error` raises inside a bare `try`. The `except:` catches it, so after the 16-byte message the build fails with "should be used as FixedAtBuild type and VOID* datum type" | a `[Depex]` token `gTokenSpace.PcdGuid` whose FixedAtBuild VOID* value is `{0x01}` | a value of the wrong size reports the 16-byte error | not executed | Depex.SubstituteAsWritten (witness Depex.SizeErrorExample) | Depex.Substitute |
