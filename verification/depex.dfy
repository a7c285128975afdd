/** `DepexList`: the dependency expressions of the module and of its libraries
    merged into one token list, with PCD references replaced by their VOID*
    FixedAtBuild values. */
module Depex {
  import opened Wrappers
  import opened Text
  import opened Dicts
  import opened PcdTypes
  import opened Pcds
  import opened Seqs

  datatype DepexError =
    | NotFixedVoid(token: string)  // no FixedAtBuild VOID* PCD of that name
    | Not16Bytes(token: string)    // the PCD's value does not have 16 fields

  /** One module of the walk: the PCDs it declares and its dependency expressions
      for the module's architecture and type, each a token list. */
  datatype DepexModule = DepexModule(pcds: seq<Pcd>, expressions: seq<seq<string>>)

  // ---- the merged FixedAtBuild VOID* table ----

  function TableFrom(d: Dict, mods: seq<DepexModule>): (r: Dict)
    requires DistinctKeys(d)
    ensures DistinctKeys(r)
    decreases |mods|
  {
    if mods == [] then d else TableFrom(Update(d, FixedVoidTypePcds(mods[0].pcds)), mods[1..])
  }

  /** The table of every module of the walk, later modules overriding earlier ones
      (`dict.update` in walk order). */
  function MergedTable(mods: seq<DepexModule>): Dict {
    TableFrom([], mods)
  }

  /** The value the last module of `mods` whose own table has `name` gives it. */
  function LastValue(mods: seq<DepexModule>, name: string): Option<string>
    decreases |mods|
  {
    if mods == [] then None
    else
      var later := LastValue(mods[1..], name);
      if later.Some? then later else Get(FixedVoidTypePcds(mods[0].pcds), name)
  }

  lemma {:induction false} TableFromGet(d: Dict, mods: seq<DepexModule>, name: string)
    requires DistinctKeys(d)
    ensures Get(TableFrom(d, mods), name) == if LastValue(mods, name).Some? then LastValue(mods, name) else Get(d, name)
    decreases |mods|
  {
    if mods != [] {
      var own := FixedVoidTypePcds(mods[0].pcds);
      TableFromGet(Update(d, own), mods[1..], name);
      GetUpdate(d, own, name);
    }
  }

  /** A name reads the value of the last module in walk order that declares it. */
  lemma MergedTableGet(mods: seq<DepexModule>, name: string)
    ensures Get(MergedTable(mods), name) == LastValue(mods, name)
  {
    TableFromGet([], mods, name);
  }

  // ---- token substitution ----

  /** A token without a dot stays; a dotted token is replaced by its table value,
      which must have exactly 16 comma-separated fields. */
  function Substitute(table: Dict, token: string): (r: Result<string, DepexError>)
    ensures '.' !in token ==> r == Ok(token)
    ensures '.' in token ==> (r.Ok? <==> Get(table, token).Some? && |Split(Get(table, token).value, ',')| == 16)
    ensures '.' in token && r.Ok? ==> Get(table, token) == Some(r.value)
    ensures r.Err? ==> r.error.token == token
  {
    if '.' !in token then Ok(token)
    else
      match Get(table, token)
      case None => Err(NotFixedVoid(token))
      case Some(v) => if |Split(v, ',')| != 16 then Err(Not16Bytes(token)) else Ok(v)
  }

  /** The substitution as the code performs it: the 16-field error is raised
      inside the `try` whose bare `except` reports every failure as a missing
      FixedAtBuild VOID* PCD. */
  function SubstituteAsWritten(table: Dict, token: string): (r: Result<string, DepexError>)
    ensures r.Err? ==> r.error == NotFixedVoid(token)
  {
    if '.' !in token then Ok(token)
    else
      match Get(table, token)
      case None => Err(NotFixedVoid(token))
      case Some(v) => if |Split(v, ',')| != 16 then Err(NotFixedVoid(token)) else Ok(v)
  }

  /** The two agree except on the error a value of the wrong size draws. */
  lemma SizeErrorSwallowed(table: Dict, token: string)
    ensures Substitute(table, token).Ok? ==> SubstituteAsWritten(table, token) == Substitute(table, token)
    ensures Substitute(table, token) == Err(Not16Bytes(token)) ==> SubstituteAsWritten(table, token) == Err(NotFixedVoid(token))
  {
  }

  /** A reference to a one-byte VOID* value is reported as a missing PCD. */
  lemma SizeErrorExample()
    ensures Substitute([("gTokenSpace.PcdGuid", "{0x01}")], "gTokenSpace.PcdGuid") == Err(Not16Bytes("gTokenSpace.PcdGuid"))
    ensures SubstituteAsWritten([("gTokenSpace.PcdGuid", "{0x01}")], "gTokenSpace.PcdGuid") == Err(NotFixedVoid("gTokenSpace.PcdGuid"))
  {
    var table := [("gTokenSpace.PcdGuid", "{0x01}")];
    IndexOfIs(table, "gTokenSpace.PcdGuid", 0);
    assert "gTokenSpace.PcdGuid"[11] == '.';
    SplitPlain("{0x01}", ',');
  }

  /** Every token of an expression substituted, or the first failure. */
  function SubstituteAll(table: Dict, d: seq<string>): (r: Result<seq<string>, DepexError>)
    ensures r.Ok? ==> |r.value| == |d| && forall i :: 0 <= i < |d| ==> Substitute(table, d[i]) == Ok(r.value[i])
    ensures r.Err? ==> exists i :: 0 <= i < |d| && Substitute(table, d[i]) == Err(r.error)
  {
    if d == [] then Ok([])
    else
      match Substitute(table, d[0])
      case Err(e) => Err(e)
      case Ok(v) =>
        match SubstituteAll(table, d[1..])
        case Err(e) =>
          assert exists i :: 1 <= i < |d| && Substitute(table, d[i]) == Err(e) by {
            var i :| 0 <= i < |d[1..]| && Substitute(table, d[1..][i]) == Err(e);
            assert d[1..][i] == d[i + 1];
          }
          Err(e)
        case Ok(rest) =>
          assert forall i :: 1 <= i < |d| ==> d[i] == d[1..][i - 1];
          Ok([v] + rest)
  }

  // ---- the merge ----

  /** Drops the trailing `END` of the list built so far and closes the bracket. */
  function Close(l: seq<string>): seq<string>
    requires l != []
  {
    (if l[|l| - 1] == "END" then l[..|l| - 1] else l) + [")"]
  }

  /** Appends one expression: `AND` when the list is not empty, then `(`, the
      substituted tokens less a trailing `END`, and `)`. */
  function AddExpr(acc: seq<string>, table: Dict, d: seq<string>): Result<seq<string>, DepexError> {
    match SubstituteAll(table, d)
    case Err(e) => Err(e)
    case Ok(nl) => Ok(Close((if acc != [] then acc + ["AND"] else acc) + ["("] + nl))
  }

  function AddExprs(acc: seq<string>, table: Dict, ds: seq<seq<string>>): Result<seq<string>, DepexError>
    decreases |ds|
  {
    if ds == [] then Ok(acc)
    else
      match AddExpr(acc, table, ds[0])
      case Err(e) => Err(e)
      case Ok(a) => AddExprs(a, table, ds[1..])
  }

  predicate HasOrder(l: seq<string>) {
    "BEFORE" in l || "AFTER" in l
  }

  /** After a module: stop once the list holds `BEFORE` or `AFTER`, else go on with
      the remaining modules. */
  function Continue(res: Result<seq<string>, DepexError>, table: Dict, rest: seq<DepexModule>): Result<seq<string>, DepexError>
    decreases |rest|, 1
  {
    match res
    case Err(e) => Err(e)
    case Ok(acc) => if HasOrder(acc) then Ok(acc) else MergeFrom(acc, table, rest)
  }

  function MergeFrom(acc: seq<string>, table: Dict, mods: seq<DepexModule>): Result<seq<string>, DepexError>
    decreases |mods|, 0
  {
    if mods == [] then Ok(acc)
    else Continue(AddExprs(acc, table, mods[0].expressions), table, mods[1..])
  }

  /** What `DepexList` returns: no entry when the module has its own depex source
      file, is a library, or lists a depex file among its sources; otherwise the
      pieces of the modules up to the first whose expressions hold `BEFORE` or
      `AFTER`, joined by `AND`, under the module type, or the first substitution
      error. */
  function MergedDepex(hasDxsFile: bool, isLibrary: bool, hasDepexSource: bool, moduleType: string,
                       self: DepexModule, libs: seq<DepexModule>): (r: Result<Option<(string, seq<string>)>, DepexError>)
    ensures hasDxsFile || isLibrary || hasDepexSource ==> r == Ok(None)
    ensures !(hasDxsFile || isLibrary || hasDepexSource) ==>
              var mods := [self] + libs;
              var ps := Pieces(MergedTable(mods), ExprsOf(mods[..StopAt(mods)]));
              r == if ps.Err? then Err(ps.error) else Ok(Some((moduleType, JoinAnd(ps.value))))
  {
    if hasDxsFile || isLibrary || hasDepexSource then Ok(None)
    else
      var mods := [self] + libs;
      MergeFromStart(mods);
      match MergeFrom([], MergedTable(mods), mods)
      case Err(e) => Err(e)
      case Ok(l) => Ok(Some((moduleType, l)))
  }

  function Prepend(xs: seq<string>, res: Result<seq<string>, DepexError>): Result<seq<string>, DepexError> {
    match res
    case Err(e) => Err(e)
    case Ok(r) => Ok(xs + r)
  }

  lemma SubstituteStep(table: Dict, newList: seq<string>, d: seq<string>, k: nat)
    requires k < |d|
    ensures Prepend(newList, SubstituteAll(table, d[k..]))
         == match Substitute(table, d[k])
            case Err(e) => Err(e)
            case Ok(v) => Prepend(newList + [v], SubstituteAll(table, d[k + 1..]))
  {
    assert d[k..][0] == d[k] && d[k..][1..] == d[k + 1..];
    match Substitute(table, d[k])
    case Err(e) =>
    case Ok(v) =>
      match SubstituteAll(table, d[k + 1..])
      case Err(e) =>
      case Ok(rest) => assert newList + ([v] + rest) == newList + [v] + rest;
  }

  lemma AddExprsStep(acc: seq<string>, table: Dict, ds: seq<seq<string>>, j: nat)
    requires j < |ds|
    ensures AddExprs(acc, table, ds[j..])
         == match AddExpr(acc, table, ds[j])
            case Err(e) => Err(e)
            case Ok(a) => AddExprs(a, table, ds[j + 1..])
  {
    assert ds[j..][0] == ds[j] && ds[j..][1..] == ds[j + 1..];
  }

  lemma MergeStep(acc: seq<string>, table: Dict, mods: seq<DepexModule>, i: nat)
    requires i < |mods|
    ensures MergeFrom(acc, table, mods[i..]) == Continue(AddExprs(acc, table, mods[i].expressions), table, mods[i + 1..])
  {
    assert mods[i..][0] == mods[i] && mods[i..][1..] == mods[i + 1..];
  }

  lemma AddExprOk(acc: seq<string>, table: Dict, d: seq<string>, nl: seq<string>)
    requires SubstituteAll(table, d) == Ok(nl)
    ensures AddExpr(acc, table, d) == Ok(Close((if acc != [] then acc + ["AND"] else acc) + ["("] + nl))
  {
  }

  /** The token loop of one expression: each token substituted in turn, stopping
      at the first failure. */
  method SubstituteTokens(table: Dict, d: seq<string>) returns (r: Result<seq<string>, DepexError>)
    ensures r == SubstituteAll(table, d)
  {
    var newList: seq<string> := [];
    var k := 0;
    assert d[0..] == d;
    if SubstituteAll(table, d).Ok? {
      AppendNil(SubstituteAll(table, d).value);
    }
    while k < |d|
      invariant 0 <= k <= |d|
      invariant Prepend(newList, SubstituteAll(table, d[k..])) == SubstituteAll(table, d)
    {
      var token := d[k];
      SubstituteStep(table, newList, d, k);
      if '.' !in token {
        newList := newList + [token];
      } else {
        var v := Get(table, token);
        if v.None? {
          return Err(NotFixedVoid(token));
        }
        if |Split(v.value, ',')| != 16 {
          return Err(Not16Bytes(token));
        }
        newList := newList + [v.value];
      }
      k := k + 1;
    }
    assert d[k..] == [];
    AppendNil(newList);
    return Ok(newList);
  }

  /** One expression of the loop body: `AND` when the list is not empty, `(`, the
      substituted tokens, a trailing `END` dropped, and `)`. */
  method AddExpression(list: seq<string>, table: Dict, d: seq<string>) returns (r: Result<seq<string>, DepexError>)
    ensures r == AddExpr(list, table, d)
  {
    var l := list;
    if l != [] {
      l := l + ["AND"];
    }
    l := l + ["("];
    var newList := SubstituteTokens(table, d);
    if newList.Err? {
      return Err(newList.error);
    }
    AddExprOk(list, table, d, newList.value);
    l := l + newList.value;
    if l[|l| - 1] == "END" {
      l := l[..|l| - 1];
    }
    return Ok(l + [")"]);
  }

  method DepexList(hasDxsFile: bool, isLibrary: bool, hasDepexSource: bool, moduleType: string,
                   self: DepexModule, libs: seq<DepexModule>) returns (r: Result<Option<(string, seq<string>)>, DepexError>)
    ensures r == MergedDepex(hasDxsFile, isLibrary, hasDepexSource, moduleType, self, libs)
  {
    if hasDxsFile || isLibrary || hasDepexSource {
      return Ok(None);
    }
    var mods := [self] + libs;
    var table: Dict := [];
    var i := 0;
    while i < |mods|
      invariant 0 <= i <= |mods|
      invariant DistinctKeys(table)
      invariant TableFrom(table, mods[i..]) == MergedTable(mods)
    {
      assert mods[i..][0] == mods[i] && mods[i..][1..] == mods[i + 1..];
      table := Update(table, FixedVoidTypePcds(mods[i].pcds));
      i := i + 1;
    }
    ghost var goal := MergeFrom([], table, mods);
    var list: seq<string> := [];
    i := 0;
    while i < |mods|
      invariant 0 <= i <= |mods|
      invariant MergeFrom(list, table, mods[i..]) == goal
    {
      var exprs := mods[i].expressions;
      MergeStep(list, table, mods, i);
      assert exprs[0..] == exprs;
      var j := 0;
      while j < |exprs|
        invariant 0 <= j <= |exprs|
        invariant Continue(AddExprs(list, table, exprs[j..]), table, mods[i + 1..]) == goal
      {
        AddExprsStep(list, table, exprs, j);
        var next := AddExpression(list, table, exprs[j]);
        if next.Err? {
          return Err(next.error);
        }
        list := next.value;
        j := j + 1;
      }
      assert exprs[j..] == [];
      if "BEFORE" in list || "AFTER" in list {
        return Ok(Some((moduleType, list)));
      }
      i := i + 1;
    }
    return Ok(Some((moduleType, list)));
  }

  // ---- the shape of the merged list ----

  /** Token lists joined with `AND`. */
  function JoinAnd(ps: seq<seq<string>>): seq<string> {
    if ps == [] then []
    else if |ps| == 1 then ps[0]
    else ps[0] + ["AND"] + JoinAnd(ps[1..])
  }

  function DropEnd(nl: seq<string>): seq<string> {
    if nl != [] && nl[|nl| - 1] == "END" then nl[..|nl| - 1] else nl
  }

  /** One expression as it enters the merged list: substituted, less a trailing
      `END`, in brackets. */
  function Piece(table: Dict, d: seq<string>): (r: Result<seq<string>, DepexError>)
    ensures r.Ok? ==> r.value != []
  {
    match SubstituteAll(table, d)
    case Err(e) => Err(e)
    case Ok(nl) => Ok(["("] + DropEnd(nl) + [")"])
  }

  function Pieces(table: Dict, ds: seq<seq<string>>): (r: Result<seq<seq<string>>, DepexError>)
    ensures r.Ok? ==> |r.value| == |ds| && forall i :: 0 <= i < |ds| ==> Piece(table, ds[i]) == Ok(r.value[i])
  {
    if ds == [] then Ok([])
    else
      var p := Piece(table, ds[0]);
      var rest := Pieces(table, ds[1..]);
      if p.Err? then Err(p.error)
      else if rest.Err? then Err(rest.error)
      else
        assert forall i :: 1 <= i < |ds| ==> ds[i] == ds[1..][i - 1];
        Ok([p.value] + rest.value)
  }

  /** Some list of `ps` holds `t`. */
  predicate AnyHas(ps: seq<seq<string>>, t: string) {
    ps != [] && (t in ps[0] || AnyHas(ps[1..], t))
  }

  predicate ModuleHasOrder(m: DepexModule) {
    AnyHas(m.expressions, "BEFORE") || AnyHas(m.expressions, "AFTER")
  }

  /** How many modules the walk visits: up to and including the first whose
      expressions hold `BEFORE` or `AFTER`. */
  function StopAt(mods: seq<DepexModule>): (n: nat)
    ensures n <= |mods|
  {
    if mods == [] then 0
    else if ModuleHasOrder(mods[0]) then 1
    else 1 + StopAt(mods[1..])
  }

  function ExprsOf(mods: seq<DepexModule>): seq<seq<string>> {
    if mods == [] then [] else mods[0].expressions + ExprsOf(mods[1..])
  }

  lemma {:induction false} JoinAndSnoc(ps: seq<seq<string>>, p: seq<string>)
    ensures JoinAnd(ps + [p]) == (if ps != [] then JoinAnd(ps) + ["AND"] else []) + p
  {
    if |ps| > 1 {
      assert (ps + [p])[1..] == ps[1..] + [p];
      JoinAndSnoc(ps[1..], p);
    } else if |ps| == 1 {
      assert (ps + [p])[1..] == [p];
    } else {
      assert ps + [p] == [p];
    }
  }

  lemma {:induction false} JoinAndEmpty(ps: seq<seq<string>>)
    requires forall i :: 0 <= i < |ps| ==> ps[i] != []
    ensures JoinAnd(ps) == [] <==> ps == []
  {
  }

  lemma {:induction false} InJoinAnd(ps: seq<seq<string>>, t: string)
    requires t != "AND"
    ensures t in JoinAnd(ps) <==> AnyHas(ps, t)
  {
    if |ps| > 1 {
      InJoinAnd(ps[1..], t);
      assert JoinAnd(ps) == ps[0] + ["AND"] + JoinAnd(ps[1..]);
    } else if |ps| == 1 {
      assert ps[1..] == [];
    }
  }

  lemma {:induction false} AnyHasAppend(a: seq<seq<string>>, b: seq<seq<string>>, t: string)
    ensures AnyHas(a + b, t) <==> AnyHas(a, t) || AnyHas(b, t)
  {
    if a == [] {
      assert a + b == b;
    } else {
      assert (a + b)[0] == a[0] && (a + b)[1..] == a[1..] + b;
      AnyHasAppend(a[1..], b, t);
    }
  }

  lemma {:induction false} PiecesOrder(table: Dict, ds: seq<seq<string>>, t: string)
    requires t == "BEFORE" || t == "AFTER"
    requires Pieces(table, ds).Ok?
    ensures AnyHas(Pieces(table, ds).value, t) <==> AnyHas(ds, t)
  {
    if ds != [] {
      PieceOrder(table, ds[0], t);
      PiecesOrder(table, ds[1..], t);
      assert Pieces(table, ds).value == [Piece(table, ds[0]).value] + Pieces(table, ds[1..]).value;
      assert Pieces(table, ds).value[1..] == Pieces(table, ds[1..]).value;
    }
  }

  /** Substitution never brings in or takes away a `BEFORE` or `AFTER`: a
      16-field value is neither. */
  lemma PieceOrder(table: Dict, d: seq<string>, t: string)
    requires t == "BEFORE" || t == "AFTER"
    requires Piece(table, d).Ok?
    ensures t in Piece(table, d).value <==> t in d
  {
    var nl := SubstituteAll(table, d).value;
    assert Piece(table, d).value == ["("] + DropEnd(nl) + [")"];
    Bracketed(DropEnd(nl), t);
    DropEndMember(nl, t);
    SubstituteKeepsKeyword(table, d, t);
  }

  lemma Bracketed(x: seq<string>, t: string)
    requires t != "(" && t != ")"
    ensures t in ["("] + x + [")"] <==> t in x
  {
  }

  lemma DropEndMember(nl: seq<string>, t: string)
    requires t != "END"
    ensures t in DropEnd(nl) <==> t in nl
  {
    if nl != [] && nl[|nl| - 1] == "END" {
      assert nl == DropEnd(nl) + ["END"];
    }
  }

  /** A keyword is never what a PCD name is replaced by (a 16-field list), so
      it is in the substituted list exactly where it was in the expression. */
  lemma SubstituteKeepsKeyword(table: Dict, d: seq<string>, t: string)
    requires t == "BEFORE" || t == "AFTER"
    requires SubstituteAll(table, d).Ok?
    ensures t in SubstituteAll(table, d).value <==> t in d
  {
    var nl := SubstituteAll(table, d).value;
    SplitPlain(t, ',');
    forall i | 0 <= i < |d| ensures nl[i] == t <==> d[i] == t {
      assert Substitute(table, d[i]) == Ok(nl[i]);
    }
    if t in nl {
      var i :| 0 <= i < |nl| && nl[i] == t;
      assert d[i] == t;
    }
    if t in d {
      var i :| 0 <= i < |d| && d[i] == t;
      assert nl[i] == t;
    }
  }

  lemma {:induction false} PiecesAppend(table: Dict, a: seq<seq<string>>, b: seq<seq<string>>)
    ensures Pieces(table, a + b)
         == if Pieces(table, a).Err? then Pieces(table, a)
            else if Pieces(table, b).Err? then Pieces(table, b)
            else Ok(Pieces(table, a).value + Pieces(table, b).value)
  {
    if a == [] {
      assert a + b == b;
      if Pieces(table, b).Ok? {
        AppendNil(Pieces(table, b).value);
      }
    } else {
      assert (a + b)[0] == a[0] && (a + b)[1..] == a[1..] + b;
      PiecesAppend(table, a[1..], b);
      if Piece(table, a[0]).Ok? && Pieces(table, a[1..]).Ok? && Pieces(table, b).Ok? {
        var p, pa, pb := Piece(table, a[0]).value, Pieces(table, a[1..]).value, Pieces(table, b).value;
        Assoc([p], pa, pb);
      }
    }
  }

  lemma Regroup(a: seq<string>, b: seq<string>, c: seq<string>, d: seq<string>)
    ensures a + b + c + d == a + (b + c + d)
  {
  }

  lemma CloseAfterBracket(x: seq<string>, nl: seq<string>)
    requires x != [] && x[|x| - 1] == "("
    ensures Close(x + nl) == x + DropEnd(nl) + [")"]
  {
    if nl != [] && nl[|nl| - 1] == "END" {
      assert (x + nl)[..|x + nl| - 1] == x + nl[..|nl| - 1];
    }
  }

  lemma AddExprPiece(ps0: seq<seq<string>>, table: Dict, d: seq<string>)
    requires forall i :: 0 <= i < |ps0| ==> ps0[i] != []
    ensures AddExpr(JoinAnd(ps0), table, d)
         == if Piece(table, d).Err? then Err(Piece(table, d).error) else Ok(JoinAnd(ps0 + [Piece(table, d).value]))
  {
    if SubstituteAll(table, d).Ok? {
      var nl := SubstituteAll(table, d).value;
      var acc := JoinAnd(ps0);
      JoinAndEmpty(ps0);
      var pre := if acc != [] then acc + ["AND"] else acc;
      var x := pre + ["("];
      CloseAfterBracket(x, nl);
      var p := ["("] + DropEnd(nl) + [")"];
      JoinAndSnoc(ps0, p);
      Regroup(pre, ["("], DropEnd(nl), [")"]);
    }
  }

  lemma {:induction false} AddExprsPieces(ps0: seq<seq<string>>, table: Dict, ds: seq<seq<string>>)
    requires forall i :: 0 <= i < |ps0| ==> ps0[i] != []
    ensures AddExprs(JoinAnd(ps0), table, ds)
         == if Pieces(table, ds).Err? then Err(Pieces(table, ds).error) else Ok(JoinAnd(ps0 + Pieces(table, ds).value))
    decreases |ds|
  {
    if ds == [] {
      AppendNil(ps0);
    } else {
      AddExprPiece(ps0, table, ds[0]);
      if Piece(table, ds[0]).Ok? {
        var p := Piece(table, ds[0]).value;
        AddExprsPieces(ps0 + [p], table, ds[1..]);
        if Pieces(table, ds[1..]).Ok? {
          var rest := Pieces(table, ds[1..]).value;
          Assoc(ps0, [p], rest);
        }
      }
    }
  }

  lemma {:induction false} MergePieces(ps0: seq<seq<string>>, table: Dict, mods: seq<DepexModule>)
    requires forall i :: 0 <= i < |ps0| ==> ps0[i] != []
    requires !HasOrder(JoinAnd(ps0))
    ensures var ps := Pieces(table, ExprsOf(mods[..StopAt(mods)]));
            MergeFrom(JoinAnd(ps0), table, mods) == if ps.Err? then Err(ps.error) else Ok(JoinAnd(ps0 + ps.value))
    decreases |mods|
  {
    if mods == [] {
      AppendNil(ps0);
    } else {
      var e0 := mods[0].expressions;
      var n := StopAt(mods);
      var restMods := mods[1..][..n - 1];
      assert mods[..n] == [mods[0]] + restMods;
      assert ExprsOf(mods[..n]) == e0 + ExprsOf(restMods) by {
        assert ([mods[0]] + restMods)[1..] == restMods;
      }
      PiecesAppend(table, e0, ExprsOf(restMods));
      AddExprsPieces(ps0, table, e0);
      if Pieces(table, e0).Ok? {
        var ps1 := Pieces(table, e0).value;
        var ps01 := ps0 + ps1;
        assert HasOrder(JoinAnd(ps01)) <==> ModuleHasOrder(mods[0]) by {
          InJoinAnd(ps0, "BEFORE");
          InJoinAnd(ps0, "AFTER");
          InJoinAnd(ps01, "BEFORE");
          InJoinAnd(ps01, "AFTER");
          AnyHasAppend(ps0, ps1, "BEFORE");
          AnyHasAppend(ps0, ps1, "AFTER");
          PiecesOrder(table, e0, "BEFORE");
          PiecesOrder(table, e0, "AFTER");
        }
        if ModuleHasOrder(mods[0]) {
          assert restMods == [];
          assert Pieces(table, ExprsOf(restMods)) == Ok([]);
          AppendNil(ps1);
        } else {
          MergePieces(ps01, table, mods[1..]);
          if Pieces(table, ExprsOf(restMods)).Ok? {
            var ps2 := Pieces(table, ExprsOf(restMods)).value;
            Assoc(ps0, ps1, ps2);
          }
        }
      }
    }
  }

  /** Merging from an empty list is joining the pieces. */
  lemma MergeFromStart(mods: seq<DepexModule>)
    ensures var ps := Pieces(MergedTable(mods), ExprsOf(mods[..StopAt(mods)]));
            MergeFrom([], MergedTable(mods), mods) == if ps.Err? then Err(ps.error) else Ok(JoinAnd(ps.value))
  {
    MergePieces([], MergedTable(mods), mods);
    var ps := Pieces(MergedTable(mods), ExprsOf(mods[..StopAt(mods)]));
    if ps.Ok? {
      AppendNil(ps.value);
    }
  }
}
