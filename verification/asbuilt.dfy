/** The `[Binaries]` items of the as-built module descriptor (`CreateAsBuiltInf`)
    and the layout of the `<Name>Offset.bin` file (`_GenOffsetBin`) that records
    where the VFR binaries and the string package sit in the image. */
module AsBuilt {
  import opened Wrappers
  import opened Text
  import opened Dicts
  import opened Seqs

  // ---- binary items ----

  /** The section keyword of a final target, chosen by its extension in any
      letter case. */
  function BinaryKind(ext: string): (kind: string)
    ensures kind in {"ASL", "ACPI", "PE32", "BIN"}
    ensures kind == "ASL" <==> Lower(ext) == ".aml"
    ensures kind == "ACPI" <==> Lower(ext) == ".acpi"
    ensures kind == "PE32" <==> Lower(ext) == ".efi"
  {
    var e := Lower(ext);
    if e == ".aml" then "ASL"
    else if e == ".acpi" then "ACPI"
    else if e == ".efi" then "PE32"
    else "BIN"
  }

  /** One final target as a binary item: `<KIND>|<file>`, where an EFI image is
      always named after the module rather than after its own file. `file` is the
      target path already made relative to the output directory. */
  function BinaryItem(ext: string, file: string, moduleName: string): (item: string)
    ensures Lower(ext) == ".aml" ==> item == "ASL|" + file
    ensures Lower(ext) == ".acpi" ==> item == "ACPI|" + file
    ensures Lower(ext) == ".efi" ==> item == "PE32|" + moduleName + ".efi"
    ensures Lower(ext) !in {".aml", ".acpi", ".efi"} ==> item == "BIN|" + file
  {
    var kind := BinaryKind(ext);
    if kind == "ASL" then "ASL|" + file
    else if kind == "ACPI" then "ACPI|" + file
    else if kind == "PE32" then "PE32|" + moduleName + ".efi"
    else "BIN|" + file
  }

  /** The dependency section a module type's generated depex goes to, if any. */
  function DepexKind(moduleType: string): (kind: Option<string>)
    ensures kind.Some? <==> moduleType in {"PEIM", "DXE_DRIVER", "DXE_RUNTIME_DRIVER", "DXE_SAL_DRIVER", "UEFI_DRIVER", "DXE_SMM_DRIVER"}
    ensures kind == Some("PEI_DEPEX") <==> moduleType == "PEIM"
    ensures kind == Some("DXE_DEPEX") <==> moduleType in {"DXE_DRIVER", "DXE_RUNTIME_DRIVER", "DXE_SAL_DRIVER", "UEFI_DRIVER"}
    ensures kind == Some("SMM_DEPEX") <==> moduleType == "DXE_SMM_DRIVER"
  {
    if moduleType == "PEIM" then Some("PEI_DEPEX")
    else if moduleType in {"DXE_DRIVER", "DXE_RUNTIME_DRIVER", "DXE_SAL_DRIVER", "UEFI_DRIVER"} then Some("DXE_DEPEX")
    else if moduleType == "DXE_SMM_DRIVER" then Some("SMM_DEPEX")
    else None
  }

  /** The module type the descriptor declares: a UEFI driver whose depex was
      generated is declared as a DXE driver. */
  function DeclaredModuleType(moduleType: string, depexGenerated: bool): (t: string)
    ensures t != moduleType <==> moduleType == "UEFI_DRIVER" && depexGenerated
    ensures t == moduleType || t == "DXE_DRIVER"
  {
    if moduleType == "UEFI_DRIVER" && depexGenerated then "DXE_DRIVER" else moduleType
  }

  predicate EndsWith(s: string, suffix: string) {
    |suffix| <= |s| && s[|s| - |suffix|..] == suffix
  }

  /** A final target of the module's build: its extension and its path relative
      to the output directory. */
  datatype Target = Target(ext: string, file: string)

  function TargetItems(targets: seq<Target>, moduleName: string): (items: seq<string>)
    ensures |items| == |targets|
    ensures forall i :: 0 <= i < |targets| ==> items[i] == BinaryItem(targets[i].ext, targets[i].file, moduleName)
  {
    if targets == [] then [] else [BinaryItem(targets[0].ext, targets[0].file, moduleName)] + TargetItems(targets[1..], moduleName)
  }

  /** A program database: a `.pdb` file in any letter case. */
  predicate IsPdb(file: string) {
    EndsWith(Lower(file), ".pdb")
  }

  /** One `DISPOSABLE|<file>` item per program database, in the order found. */
  function PdbItems(files: seq<string>): (items: seq<string>)
    ensures var pdbs := Filter(IsPdb, files);
            |items| == |pdbs| && forall i :: 0 <= i < |items| ==> items[i] == "DISPOSABLE|" + pdbs[i]
  {
    if files == [] then []
    else
      var rest := PdbItems(files[1..]);
      assert Filter(IsPdb, files) == (if IsPdb(files[0]) then [files[0]] else []) + Filter(IsPdb, files[1..]);
      if IsPdb(files[0]) then ["DISPOSABLE|" + files[0]] + rest else rest
  }

  /** The whole `binary_item` list: one item per final target in order, then the
      depex file when one was generated for a module type that has a depex
      section, then the offset file when one was written, then every `.pdb` file
      found under the output directory. */
  function BinaryItems(targets: seq<Target>, moduleName: string, moduleType: string, depexGenerated: bool,
                       offsetBin: Option<string>, outputFiles: seq<string>): (items: seq<string>)
    ensures var hasDepex := depexGenerated && DepexKind(moduleType).Some?;
            var n := |targets| + (if hasDepex then 1 else 0) + (if offsetBin.Some? then 1 else 0);
            && |items| == n + |PdbItems(outputFiles)|
            && (forall i :: 0 <= i < |targets| ==> items[i] == BinaryItem(targets[i].ext, targets[i].file, moduleName))
            && (hasDepex ==> items[|targets|] == DepexKind(moduleType).value + "|" + moduleName + ".depex")
            && (offsetBin.Some? ==> items[n - 1] == "BIN|" + offsetBin.value)
            && items[n..] == PdbItems(outputFiles)
  {
    var depex := DepexKind(moduleType);
    TargetItems(targets, moduleName)
    + (if depexGenerated && depex.Some? then [depex.value + "|" + moduleName + ".depex"] else [])
    + (if offsetBin.Some? then ["BIN|" + offsetBin.value] else [])
    + PdbItems(outputFiles)
  }

  /** Classification looks at the extension's letters only, not their case. */
  lemma BinaryKindIgnoresCase(ext1: string, ext2: string)
    requires Lower(ext1) == Lower(ext2)
    ensures BinaryKind(ext1) == BinaryKind(ext2)
  {
  }

  /** An item splits on `|` into its kind and its file, as long as the file name
      holds no `|`. */
  lemma BinaryItemFields(ext: string, file: string, moduleName: string)
    requires '|' !in file && '|' !in moduleName
    ensures var f := Split(BinaryItem(ext, file, moduleName), '|');
            f == [BinaryKind(ext), if BinaryKind(ext) == "PE32" then moduleName + ".efi" else file]
  {
    var kind := BinaryKind(ext);
    var payload := if kind == "PE32" then moduleName + ".efi" else file;
    assert '|' !in kind;
    assert '|' !in payload;
    assert BinaryItem(ext, file, moduleName) == kind + ['|'] + payload;
    SplitAfterPiece(kind, payload, '|');
    SplitPlain(payload, '|');
  }

  // ---- the offset file ----

  /** What one source file contributes to the offset symbol table: a VFR file its
      base name and `<BaseName>Bin`, a string file the single key `UniOffsetName`
      and `<Name>Strings`. */
  datatype Source = Source(baseName: string, fileType: string)

  /** The symbol table built from the module's sources, in dictionary order. */
  function SymbolTable(sources: seq<Source>, moduleName: string): (d: Dict)
    ensures DistinctKeys(d)
    ensures |d| <= |sources|
  {
    SymbolTableFrom([], sources, moduleName)
  }

  function SymbolTableFrom(d: Dict, sources: seq<Source>, moduleName: string): (r: Dict)
    requires DistinctKeys(d)
    ensures DistinctKeys(r)
    ensures |r| <= |d| + |sources|
    decreases |sources|
  {
    if sources == [] then d
    else
      var s := sources[0];
      var kind := Upper(s.fileType);
      var d' := if kind == ".VFR" then Put(d, s.baseName, s.baseName + "Bin")
                else if kind == ".UNI" then Put(d, "UniOffsetName", moduleName + "Strings")
                else d;
      SymbolTableFrom(d', sources[1..], moduleName)
  }

  /** The table is empty exactly when no source is a VFR or string file, which is
      when no offset file is written. */
  lemma {:induction false} SymbolTableEmpty(d: Dict, sources: seq<Source>, moduleName: string)
    requires DistinctKeys(d)
    ensures SymbolTableFrom(d, sources, moduleName) == []
        <==> d == [] && forall i :: 0 <= i < |sources| ==> Upper(sources[i].fileType) !in {".VFR", ".UNI"}
    decreases |sources|
  {
    if sources != [] {
      var s := sources[0];
      var kind := Upper(s.fileType);
      var d' := if kind == ".VFR" then Put(d, s.baseName, s.baseName + "Bin")
                else if kind == ".UNI" then Put(d, "UniOffsetName", moduleName + "Strings")
                else d;
      SymbolTableEmpty(d', sources[1..], moduleName);
      assert forall i :: 1 <= i < |sources| ==> sources[i] == sources[1..][i - 1];
      if kind in {".VFR", ".UNI"} {
        assert d' != [];
      }
    }
  }

  /** Some source is a VFR file with base name `b`. */
  predicate HasVfr(sources: seq<Source>, b: string) {
    exists s :: s in sources && Upper(s.fileType) == ".VFR" && s.baseName == b
  }

  /** Some source is a string (UNI) file. */
  predicate HasUni(sources: seq<Source>) {
    exists s :: s in sources && Upper(s.fileType) == ".UNI"
  }

  /** What the table holds on top of `d`: `<b>Bin` under the base name `b` of each
      VFR file, and `<Name>Strings` under `UniOffsetName` when there is a string
      file. (A VFR file named `UniOffsetName` would share that key; then the later
      source wins, which this lemma leaves unstated.) */
  lemma {:induction false} SymbolTableGet(d: Dict, sources: seq<Source>, moduleName: string, k: string)
    requires DistinctKeys(d)
    ensures k != "UniOffsetName" ==>
              Get(SymbolTableFrom(d, sources, moduleName), k) == if HasVfr(sources, k) then Some(k + "Bin") else Get(d, k)
    ensures k == "UniOffsetName" && !HasVfr(sources, k) ==>
              Get(SymbolTableFrom(d, sources, moduleName), k) == if HasUni(sources) then Some(moduleName + "Strings") else Get(d, k)
    decreases |sources|
  {
    if sources != [] {
      var s := sources[0];
      var rest := sources[1..];
      assert sources == [s] + rest;
      var kind := Upper(s.fileType);
      var d' := if kind == ".VFR" then Put(d, s.baseName, s.baseName + "Bin")
                else if kind == ".UNI" then Put(d, "UniOffsetName", moduleName + "Strings")
                else d;
      SymbolTableGet(d', rest, moduleName, k);
      if kind == ".VFR" {
        GetPut(d, s.baseName, s.baseName + "Bin", k);
      } else if kind == ".UNI" {
        GetPut(d, "UniOffsetName", moduleName + "Strings", k);
      }
      assert HasVfr(sources, k) <==> (kind == ".VFR" && s.baseName == k) || HasVfr(rest, k);
      assert HasUni(sources) <==> kind == ".UNI" || HasUni(rest);
    }
  }

  const UniGuid: seq<int> := [0xe0, 0xc5, 0x13, 0x89, 0xf6, 0x33, 0x86, 0x4d, 0x9b, 0xf1, 0x43, 0xef, 0x89, 0xfc, 0x06, 0x66]
  const VfrGuid: seq<int> := [0xb4, 0x7c, 0xbc, 0xd0, 0x47, 0x6a, 0x5f, 0x49, 0xaa, 0x11, 0x71, 0x07, 0x46, 0xda, 0x06, 0xa2]

  /** `n` little-endian bytes of `v` (what `struct.pack` writes on a
      little-endian host). */
  function LittleEndian(v: nat, n: nat): (bs: seq<int>)
    ensures |bs| == n
    ensures forall i :: 0 <= i < n ==> 0 <= bs[i] < 0x100
  {
    if n == 0 then [] else [v % 0x100] + LittleEndian(v / 0x100, n - 1)
  }

  /** The number little-endian bytes stand for. */
  function LittleEndianValue(bs: seq<int>): int {
    if bs == [] then 0 else bs[0] + 0x100 * LittleEndianValue(bs[1..])
  }

  function Pow256(n: nat): nat {
    if n == 0 then 1 else 0x100 * Pow256(n - 1)
  }

  /** The values `struct.pack('Q', ...)` accepts: below 2 to the 64th. */
  const QwordRange: nat := 0x1_0000_0000_0000_0000

  lemma QwordRangeIsPow()
    ensures Pow256(8) == QwordRange
  {
  }

  lemma {:induction false} LittleEndianRoundTrip(v: nat, n: nat)
    requires v < Pow256(n)
    ensures LittleEndianValue(LittleEndian(v, n)) == v
  {
    if n > 0 {
      var q := v / 0x100;
      assert v == v % 0x100 + 0x100 * q;
      assert q < Pow256(n - 1);
      LittleEndianRoundTrip(q, n - 1);
      assert LittleEndian(v, n)[1..] == LittleEndian(q, n - 1);
    } else {
      assert v == 0;
    }
  }

  /** The GUID in its C-structure form `{ Data1, Data2, Data3, { Data4 } }`, laid
      out in memory. */
  function GuidBytes(data1: nat, data2: nat, data3: nat, data4: seq<int>): seq<int> {
    LittleEndian(data1, 4) + LittleEndian(data2, 2) + LittleEndian(data3, 2) + data4
  }

  lemma LittleEndian4(b0: int, b1: int, b2: int, b3: int)
    requires 0 <= b0 < 0x100 && 0 <= b1 < 0x100 && 0 <= b2 < 0x100 && 0 <= b3 < 0x100
    ensures LittleEndian(b0 + 0x100 * b1 + 0x10000 * b2 + 0x1000000 * b3, 4) == [b0, b1, b2, b3]
  {
    var v := b0 + 0x100 * b1 + 0x10000 * b2 + 0x1000000 * b3;
    assert v % 0x100 == b0 && v / 0x100 == b1 + 0x100 * b2 + 0x10000 * b3;
    LittleEndian2(b2, b3);
    var w := b1 + 0x100 * b2 + 0x10000 * b3;
    assert w % 0x100 == b1 && w / 0x100 == b2 + 0x100 * b3;
    assert LittleEndian(w, 3) == [b1] + LittleEndian(b2 + 0x100 * b3, 2);
  }

  lemma LittleEndian2(b0: int, b1: int)
    requires 0 <= b0 < 0x100 && 0 <= b1 < 0x100
    ensures LittleEndian(b0 + 0x100 * b1, 2) == [b0, b1]
  {
    var v := b0 + 0x100 * b1;
    assert v % 0x100 == b0 && v / 0x100 == b1;
    assert LittleEndian(b1, 1) == [b1 % 0x100] + LittleEndian(b1 / 0x100, 0);
  }

  /** The two byte strings are the in-memory forms of the GUIDs the build tools
      assign to the string package offset and to a VFR binary offset. */
  lemma UniGuidForm()
    ensures UniGuid == GuidBytes(0x8913c5e0, 0x33f6, 0x4d86, [0x9b, 0xf1, 0x43, 0xef, 0x89, 0xfc, 0x06, 0x66])
  {
    LittleEndian4(0xe0, 0xc5, 0x13, 0x89);
    LittleEndian2(0xf6, 0x33);
    LittleEndian2(0x86, 0x4d);
    GuidParts(0x8913c5e0, 0x33f6, 0x4d86, [0x9b, 0xf1, 0x43, 0xef, 0x89, 0xfc, 0x06, 0x66],
              [0xe0, 0xc5, 0x13, 0x89], [0xf6, 0x33], [0x86, 0x4d]);
  }

  lemma VfrGuidForm()
    ensures VfrGuid == GuidBytes(0xd0bc7cb4, 0x6a47, 0x495f, [0xaa, 0x11, 0x71, 0x07, 0x46, 0xda, 0x06, 0xa2])
  {
    LittleEndian4(0xb4, 0x7c, 0xbc, 0xd0);
    LittleEndian2(0x47, 0x6a);
    LittleEndian2(0x5f, 0x49);
    GuidParts(0xd0bc7cb4, 0x6a47, 0x495f, [0xaa, 0x11, 0x71, 0x07, 0x46, 0xda, 0x06, 0xa2],
              [0xb4, 0x7c, 0xbc, 0xd0], [0x47, 0x6a], [0x5f, 0x49]);
  }

  lemma GuidParts(data1: nat, data2: nat, data3: nat, data4: seq<int>, p1: seq<int>, p2: seq<int>, p3: seq<int>)
    requires LittleEndian(data1, 4) == p1 && LittleEndian(data2, 2) == p2 && LittleEndian(data3, 2) == p3
    ensures GuidBytes(data1, data2, data3, data4) == p1 + p2 + p3 + data4
  {
  }

  datatype OffsetError =
    | BadOffsetText   // `int(offset, 16)` raises ValueError
    | OffsetOutOfRange  // `struct.pack('Q', ...)` raises on a negative or 65-bit value

  /** One record: the GUID chosen by the symbol name (a name holding `Strings`
      marks the string package) followed by the 8-byte offset. */
  function OffsetRecord(name: string, offsetText: string): (r: Result<seq<int>, OffsetError>)
    ensures r.Ok? ==> |r.value| == 24
  {
    match ParseHex(offsetText)
    case None => Err(BadOffsetText)
    case Some(v) =>
      if v < 0 || v >= QwordRange then Err(OffsetOutOfRange)
      else Ok((if Contains(name, "Strings") then UniGuid else VfrGuid) + LittleEndian(v, 8))
  }

  /** `f` on every item, in order, or the first error. */
  function AllOk<A, B, E>(f: A -> Result<B, E>, xs: seq<A>): (r: Result<seq<B>, E>)
    ensures r.Ok? ==> |r.value| == |xs|
  {
    if xs == [] then Ok([])
    else
      match f(xs[0])
      case Err(e) => Err(e)
      case Ok(y) =>
        match AllOk(f, xs[1..])
        case Err(e) => Err(e)
        case Ok(rest) => Ok([y] + rest)
  }

  /** Item `k` of the results is `f` of item `k`. */
  lemma {:induction false} AllOkAt<A, B, E>(f: A -> Result<B, E>, xs: seq<A>, k: nat)
    requires AllOk(f, xs).Ok? && k < |xs|
    ensures f(xs[k]) == Ok(AllOk(f, xs).value[k])
  {
    if k > 0 {
      AllOkAt(f, xs[1..], k - 1);
      assert xs[1..][k - 1] == xs[k];
    }
  }

  function PairRecord(p: (string, string)): Result<seq<int>, OffsetError> {
    OffsetRecord(p.0, p.1)
  }

  /** The records of the (symbol, offset) pairs the map file gives, in that
      order, or the first error. */
  function Records(offsets: seq<(string, string)>): (r: Result<seq<seq<int>>, OffsetError>)
    ensures r.Ok? ==> |r.value| == |offsets|
  {
    AllOk(PairRecord, offsets)
  }

  /** Record `k` is the record of pair `k`. */
  lemma RecordsAt(offsets: seq<(string, string)>, k: nat)
    requires Records(offsets).Ok? && k < |offsets|
    ensures OffsetRecord(offsets[k].0, offsets[k].1) == Ok(Records(offsets).value[k])
  {
    AllOkAt(PairRecord, offsets, k);
  }

  lemma {:induction false} RecordsSize(offsets: seq<(string, string)>)
    requires Records(offsets).Ok?
    ensures forall k :: 0 <= k < |offsets| ==> |Records(offsets).value[k]| == 24
  {
    forall k | 0 <= k < |offsets| ensures |Records(offsets).value[k]| == 24 {
      RecordsAt(offsets, k);
    }
  }

  function Flatten(rs: seq<seq<int>>): seq<int> {
    if rs == [] then [] else rs[0] + Flatten(rs[1..])
  }

  lemma {:induction false} FlattenChunks(rs: seq<seq<int>>, i: nat)
    requires forall k :: 0 <= k < |rs| ==> |rs[k]| == 24
    requires i < |rs|
    ensures |Flatten(rs)| == 24 * |rs|
    ensures Flatten(rs)[24 * i..24 * i + 24] == rs[i]
  {
    if i == 0 {
      FlattenLength(rs);
      SliceBefore(rs[0], Flatten(rs[1..]));
    } else {
      FlattenChunks(rs[1..], i - 1);
      SliceAfter(rs[0], Flatten(rs[1..]), 24 * i, 24 * i + 24);
    }
  }

  lemma {:induction false} FlattenLength(rs: seq<seq<int>>)
    requires forall k :: 0 <= k < |rs| ==> |rs[k]| == 24
    ensures |Flatten(rs)| == 24 * |rs|
  {
    if rs != [] {
      FlattenLength(rs[1..]);
    }
  }

  /** The file contents: the records one after the other. */
  function OffsetBin(offsets: seq<(string, string)>): Result<seq<int>, OffsetError> {
    match Records(offsets)
    case Err(e) => Err(e)
    case Ok(rs) => Ok(Flatten(rs))
  }

  /** Record `i` of the file sits at bytes `24 * i` to `24 * i + 24` (see
      `RecordLayout` for what a record holds), and the file is 24 bytes per
      record. */
  lemma OffsetBinRecords(offsets: seq<(string, string)>, i: nat)
    requires OffsetBin(offsets).Ok? && i < |offsets|
    ensures |OffsetBin(offsets).value| == 24 * |offsets|
    ensures OffsetRecord(offsets[i].0, offsets[i].1) == Ok(OffsetBin(offsets).value[24 * i..24 * i + 24])
  {
    var rs := Records(offsets).value;
    RecordsSize(offsets);
    RecordsAt(offsets, i);
    FlattenChunks(rs, i);
  }

  lemma SliceBefore(a: seq<int>, b: seq<int>)
    ensures (a + b)[..|a|] == a
  {
  }

  lemma SliceAfter(a: seq<int>, b: seq<int>, lo: int, hi: int)
    requires |a| <= lo <= hi <= |a| + |b|
    ensures (a + b)[lo..hi] == b[lo - |a|..hi - |a|]
  {
  }

  /** A record is the GUID its name selects followed by the offset, which reads
      back from its eight bytes. */
  lemma RecordLayout(name: string, offsetText: string)
    requires OffsetRecord(name, offsetText).Ok?
    ensures var rec := OffsetRecord(name, offsetText).value;
            var v := ParseHex(offsetText);
            && v.Some? && 0 <= v.value < QwordRange
            && rec[..16] == (if Contains(name, "Strings") then UniGuid else VfrGuid)
            && LittleEndianValue(rec[16..]) == v.value
  {
    var v := ParseHex(offsetText).value;
    var rec := OffsetRecord(name, offsetText).value;
    var guid := if Contains(name, "Strings") then UniGuid else VfrGuid;
    assert rec == guid + LittleEndian(v, 8);
    assert rec[16..] == LittleEndian(v, 8);
    QwordRangeIsPow();
    LittleEndianRoundTrip(v, 8);
  }

  /** The table's values in table order (`list(VfrUniBaseName.values())`). */
  function Values(d: Dict): (vs: seq<string>)
    ensures |vs| == |d| && forall i :: 0 <= i < |d| ==> vs[i] == d[i].1
  {
    seq(|d|, i requires 0 <= i < |d| => d[i].1)
  }

  /** `_GenOffsetBin`: no file when no source names a symbol or the map file gives
      no offsets; otherwise the file `<Name>Offset.bin` holding the records of the
      offsets the map file gives for the table's symbols, or the first error. */
  function GenOffsetBin(sources: seq<Source>, moduleName: string,
                        lookup: seq<string> -> seq<(string, string)>): (r: Result<Option<(string, seq<int>)>, OffsetError>)
    ensures var table := SymbolTable(sources, moduleName);
            var offsets := lookup(Values(table));
            && (offsets == [] ==> r == Ok(None))
            && (table != [] && offsets != [] && OffsetBin(offsets).Ok? ==> r == Ok(Some((moduleName + "Offset.bin", OffsetBin(offsets).value))))
            && (r.Ok? && r.value.Some? ==> table != [] && r.value.value.0 == moduleName + "Offset.bin" && OffsetBin(offsets) == Ok(r.value.value.1))
            && (r.Err? ==> table != [] && OffsetBin(offsets) == Err(r.error))
    ensures (forall i :: 0 <= i < |sources| ==> Upper(sources[i].fileType) !in {".VFR", ".UNI"}) ==> r == Ok(None)
  {
    var table := SymbolTable(sources, moduleName);
    SymbolTableEmpty([], sources, moduleName);
    if table == [] then Ok(None)
    else
      var offsets := lookup(Values(table));
      if offsets == [] then Ok(None)
      else
        match OffsetBin(offsets)
        case Err(e) => Err(e)
        case Ok(bin) => Ok(Some((moduleName + "Offset.bin", bin)))
  }
}
