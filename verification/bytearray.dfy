/** `_ConvertStringToByteArray`: turns a PCD value written as a brace list or as a
    (possibly `L`-prefixed) quoted string into the C initializer text
    `{n0,n1,...}`, or gives `None` when the text is neither. */
module ByteArray {
  import opened Wrappers
  import opened Text

  /** What Python's `eval` returns for a quoted literal whose body is plain text:
      the body itself. Bodies that need escape translation (a backslash), that hold
      the quote character or a line break, and a lone quote character (which makes
      `eval` raise) are outside the model and give `None`. */
  function PlainBody(q: string, quote: char): (r: Option<string>)
    ensures r.Some? ==> |q| >= 2 && r.value == q[1..|q| - 1]
    ensures r.Some? ==> quote !in r.value && '\\' !in r.value
  {
    if |q| >= 2 && q[0] == quote && q[|q| - 1] == quote then
      var body := q[1..|q| - 1];
      if quote !in body && '\\' !in body && '\n' !in body && '\r' !in body then Some(body) else None
    else None
  }

  /** `int(f, 0)` on every field, or `None` at the first that is not an integer
      literal. */
  function ParseFields(fields: seq<string>): (r: Option<seq<int>>)
    ensures r.Some? ==> |r.value| == |fields|
  {
    if fields == [] then Some([])
    else
      match ParseIntLiteral(fields[0])
      case None => None
      case Some(v) =>
        match ParseFields(fields[1..])
        case None => None
        case Some(rest) => Some([v] + rest)
  }

  /** `str` on every value. */
  function DecimalAll(vals: seq<int>): (r: seq<string>)
    ensures |r| == |vals|
    ensures forall i :: 0 <= i < |vals| ==> r[i] == Decimal(vals[i])
  {
    if vals == [] then [] else [Decimal(vals[0])] + DecimalAll(vals[1..])
  }

  /** The C initializer text for a list of values: `{v0,v1,...}`. */
  function Render(vals: seq<int>): string {
    "{" + Join(DecimalAll(vals), ",") + "}"
  }

  /** The values a rendered initializer `{f0,f1,...}` stands for. */
  function ArrayValues(t: string): Option<seq<int>> {
    if |t| >= 2 && t[0] == '{' && t[|t| - 1] == '}' then ParseFields(Split(t[1..|t| - 1], ','))
    else None
  }

  /** The character codes of a string body, reduced modulo `modulus`. */
  function Codes(body: string, modulus: nat): (r: seq<int>)
    requires modulus > 0
    ensures |r| == |body|
    ensures forall i :: 0 <= i < |body| ==> r[i] == (body[i] as int) % modulus
  {
    if body == [] then [] else [(body[0] as int) % modulus] + Codes(body[1..], modulus)
  }

  /** The text the character loop accumulates: each code in decimal followed by a
      comma. */
  function CodeText(body: string, modulus: nat): string
    requires modulus > 0
  {
    if body == [] then "" else Decimal((body[0] as int) % modulus) + "," + CodeText(body[1..], modulus)
  }

  /** The fields of a brace-list value: spaces and braces removed, split on commas. */
  function BraceFields(v: string): seq<string> {
    Split(RemoveChars(v, {' ', '{', '}'}), ',')
  }

  /** Whether the value is written as an `L` string. */
  predicate Wide(v: string) {
    |v| >= 2 && v[..2] == "L\""
  }

  /** The text `eval` is given: the value with its `L` prefix dropped. */
  function Unprefixed(v: string): string {
    if Wide(v) then v[1..] else v
  }

  /** The modulus each character code is reduced by. */
  function CodeModulus(unicode: bool): nat {
    if unicode then 0x10000 else 0x100
  }

  /** The conversion fails exactly for a blank value, a value opening with `{` that
      does not close with `}` or has a field `int(x, 0)` rejects, and any other value
      that is not a plainly quoted `"..."` or `L"..."` string. When it succeeds, the
      result is a brace list whose fields all read as integers. */
  function ConvertStringToByteArray(value: string): (r: Option<string>)
    ensures var v := Strip(value);
            r.None? <==> || v == []
                         || (v[0] == '{' && (v[|v| - 1] != '}' || ParseFields(BraceFields(v)).None?))
                         || (v[0] != '{' && PlainBody(Unprefixed(v), '"').None?)
    ensures r.Some? ==> ArrayValues(r.value).Some?
  {
    var v := Strip(value);
    if v == [] then None
    else if v[0] == '{' then ConvertBraces(v)
    else ConvertQuoted(v)
  }

  /** The brace-list branch: `v` starts with `{`. The result stands for exactly
      the integers written in the fields, now in decimal. */
  function ConvertBraces(v: string): (r: Option<string>)
    requires v != []
    ensures r.Some? <==> v[|v| - 1] == '}' && ParseFields(BraceFields(v)).Some?
    ensures r.Some? ==> ArrayValues(r.value) == ParseFields(BraceFields(v))
  {
    if v[|v| - 1] != '}' then None
    else
      match ParseFields(BraceFields(v))
      case None => None
      case Some(vals) =>
        RenderReadsBack(vals);
        Some(Render(vals))
  }

  /** The quoted-string branch: `"..."` or `L"..."`. The result stands for one
      entry per character of the body (its code modulo 0x100, or 0x10000 for an
      `L` string) and a terminating 0. */
  function ConvertQuoted(v: string): (r: Option<string>)
    requires v != []
    ensures r.Some? <==> PlainBody(Unprefixed(v), '"').Some?
    ensures r.Some? ==> ArrayValues(r.value)
                        == Some(Codes(PlainBody(Unprefixed(v), '"').value, CodeModulus(Wide(v))) + [0])
  {
    var unicode := Wide(v);
    if unicode && v[|v| - 1] != '"' then None
    else if !unicode && (v[0] != '"' || v[|v| - 1] != '"') then None
    else
      match PlainBody(Unprefixed(v), '"')
      case None => None
      case Some(body) =>
        var modulus := CodeModulus(unicode);
        CodeTextRender(body, modulus);
        RenderReadsBack(Codes(body, modulus) + [0]);
        Some("{" + CodeText(body, modulus) + "0}")
  }

  // ---- properties ----

  lemma {:induction false} ParseDecimals(vals: seq<int>)
    ensures ParseFields(DecimalAll(vals)) == Some(vals)
  {
    var d := DecimalAll(vals);
    if vals != [] {
      DecimalRoundTrip(vals[0]);
      assert ParseIntLiteral(d[0]) == Some(vals[0]);
      assert d[1..] == DecimalAll(vals[1..]);
      ParseDecimals(vals[1..]);
      assert ParseFields(d[1..]) == Some(vals[1..]);
      assert [vals[0]] + vals[1..] == vals;
    }
  }

  lemma DecimalChars(n: int)
    ensures forall i :: 0 <= i < |Decimal(n)| ==> Decimal(n)[i] == '-' || DigitValue(Decimal(n)[i]) < 10
  {
  }

  lemma {:induction false} CodeTextJoin(body: string, modulus: nat)
    requires modulus > 0
    ensures CodeText(body, modulus) + "0" == Join(DecimalAll(Codes(body, modulus) + [0]), ",")
  {
    var vals := Codes(body, modulus) + [0];
    var parts := DecimalAll(vals);
    if body == [] {
      assert vals == [0];
      assert parts == ["0"];
    } else {
      CodeTextJoin(body[1..], modulus);
      assert vals[1..] == Codes(body[1..], modulus) + [0];
      assert parts[1..] == DecimalAll(vals[1..]);
      assert |parts| >= 2;
      assert Join(parts, ",") == parts[0] + "," + Join(parts[1..], ",");
      assert parts[0] == Decimal((body[0] as int) % modulus);
    }
  }

  lemma CodeTextRender(body: string, modulus: nat)
    requires modulus > 0
    ensures "{" + CodeText(body, modulus) + "0}" == Render(Codes(body, modulus) + [0])
  {
    CodeTextJoin(body, modulus);
  }

  /** A rendered initializer reads back as the values it was rendered from. */
  lemma RenderReadsBack(vals: seq<int>)
    requires vals != []
    ensures ArrayValues(Render(vals)) == Some(vals)
  {
    var parts := DecimalAll(vals);
    var t := Render(vals);
    forall i | 0 <= i < |parts| ensures ',' !in parts[i] {
      DecimalChars(vals[i]);
    }
    assert t[1..|t| - 1] == Join(parts, ",");
    SplitJoin(parts, ',');
    ParseDecimals(vals);
  }

  /** The output of a successful conversion is a brace list of its own values, so
      converting it again leaves it as it is. */
  lemma RenderIsFixedPoint(vals: seq<int>)
    requires vals != []
    ensures ConvertStringToByteArray(Render(vals)) == Some(Render(vals))
  {
    var t := Render(vals);
    RenderStripped(vals);
    RenderFields(vals);
    assert ConvertBraces(t) == Some(t);
  }

  /** A rendered initializer has no surrounding white space to strip. */
  lemma RenderStripped(vals: seq<int>)
    requires vals != []
    ensures Strip(Render(vals)) == Render(vals)
  {
    var parts := DecimalAll(vals);
    var j := Join(parts, ",");
    var t := Render(vals);
    forall i | 0 <= i < |t| ensures !IsSpace(t[i]) {
      if 0 < i < |t| - 1 {
        assert t[i] == j[i - 1];
        JoinDigits(parts, vals, i - 1);
      }
    }
  }

  /** The fields of a rendered initializer parse back to its values. */
  lemma RenderFields(vals: seq<int>)
    requires vals != []
    ensures ParseFields(BraceFields(Render(vals))) == Some(vals)
  {
    var parts := DecimalAll(vals);
    var j := Join(parts, ",");
    RenderDrops(vals);
    assert BraceFields(Render(vals)) == Split(j, ',');
    forall i | 0 <= i < |parts| ensures ',' !in parts[i] {
      DecimalChars(vals[i]);
    }
    SplitJoin(parts, ',');
    ParseDecimals(vals);
  }

  /** Dropping spaces and braces from a rendered initializer leaves the joined
      decimals. */
  lemma RenderDrops(vals: seq<int>)
    ensures RemoveChars(Render(vals), {' ', '{', '}'}) == Join(DecimalAll(vals), ",")
  {
    var j := Join(DecimalAll(vals), ",");
    var drop := {' ', '{', '}'};
    JoinedKept(vals);
    RemoveCharsKeeps(j, drop);
    RemoveCharsAppend("{" + j, "}", drop);
    RemoveCharsAppend("{", j, drop);
    assert RemoveChars("{", drop) == [] && RemoveChars("}", drop) == [];
  }

  /** Joined decimals hold no space and no brace. */
  lemma JoinedKept(vals: seq<int>)
    ensures forall i :: 0 <= i < |Join(DecimalAll(vals), ",")| ==> Join(DecimalAll(vals), ",")[i] !in {' ', '{', '}'}
  {
    var parts := DecimalAll(vals);
    forall i | 0 <= i < |parts|
      ensures ' ' !in parts[i] && '{' !in parts[i] && '}' !in parts[i]
    {
      DecimalChars(vals[i]);
    }
    JoinNoSep(parts, ',', ' ');
    JoinNoSep(parts, ',', '{');
    JoinNoSep(parts, ',', '}');
    var j := Join(parts, ",");
    forall i | 0 <= i < |j| ensures j[i] !in {' ', '{', '}'} {
      assert j[i] in j;
    }
  }

  /** Every character of a joined list of decimals is a digit, a minus sign or a
      comma. */
  lemma {:induction false} JoinDigits(parts: seq<string>, vals: seq<int>, k: nat)
    requires |parts| == |vals|
    requires forall i :: 0 <= i < |vals| ==> parts[i] == Decimal(vals[i])
    requires k < |Join(parts, ",")|
    ensures !IsSpace(Join(parts, ",")[k])
  {
    DecimalChars(vals[0]);
    if |parts| > 1 {
      var head := parts[0] + ",";
      if k >= |head| {
        JoinDigits(parts[1..], vals[1..], k - |head|);
      }
    }
  }

  /** A quoted string becomes one entry per character (its code modulo 0x100, or
      0x10000 for an `L` string) followed by a terminating 0. */
  lemma QuotedStringEncoding(body: string, unicode: bool)
    requires '"' !in body && '\\' !in body && '\n' !in body && '\r' !in body
    ensures var modulus := if unicode then 0x10000 else 0x100;
            var t := ConvertStringToByteArray((if unicode then "L" else "") + "\"" + body + "\"");
            t.Some? && ArrayValues(t.value) == Some(Codes(body, modulus) + [0])
  {
    var modulus := if unicode then 0x10000 else 0x100;
    if unicode {
      ConvertWide(body);
    } else {
      ConvertNarrow(body);
    }
    CodeTextRender(body, modulus);
    RenderReadsBack(Codes(body, modulus) + [0]);
  }

  lemma PlainQuoted(body: string)
    requires '"' !in body && '\\' !in body && '\n' !in body && '\r' !in body
    ensures PlainBody("\"" + body + "\"", '"') == Some(body)
  {
    var q := "\"" + body + "\"";
    assert q[1..|q| - 1] == body;
  }

  lemma ConvertNarrow(body: string)
    requires '"' !in body && '\\' !in body && '\n' !in body && '\r' !in body
    ensures ConvertStringToByteArray("" + "\"" + body + "\"") == Some("{" + CodeText(body, 0x100) + "0}")
  {
    var v := "" + "\"" + body + "\"";
    assert v == "\"" + body + "\"";
    StripNoEdgeSpace(v);
    PlainQuoted(body);
    assert v[0] == '"' && v[|v| - 1] == '"';
    assert !(|v| >= 2 && v[..2] == "L\"");
    assert ConvertQuoted(v) == Some("{" + CodeText(body, 0x100) + "0}");
  }

  lemma ConvertWide(body: string)
    requires '"' !in body && '\\' !in body && '\n' !in body && '\r' !in body
    ensures ConvertStringToByteArray("L" + "\"" + body + "\"") == Some("{" + CodeText(body, 0x10000) + "0}")
  {
    var v := "L" + "\"" + body + "\"";
    StripNoEdgeSpace(v);
    PlainQuoted(body);
    assert v[..2] == "L\"" && v[|v| - 1] == '"';
    assert v[1..] == "\"" + body + "\"";
    assert ConvertQuoted(v) == Some("{" + CodeText(body, 0x10000) + "0}");
  }

  /** Converting twice is converting once. */
  lemma ConvertIdempotent(value: string)
    requires ConvertStringToByteArray(value).Some?
    ensures var t := ConvertStringToByteArray(value).value;
            ConvertStringToByteArray(t) == Some(t)
  {
    var v := Strip(value);
    if v[0] == '{' {
      var vals := ParseFields(BraceFields(v)).value;
      assert |vals| == |BraceFields(v)| >= 1;
      RenderIsFixedPoint(vals);
    } else {
      var unicode := |v| >= 2 && v[..2] == "L\"";
      var quoted := if unicode then v[1..] else v;
      var body := PlainBody(quoted, '"').value;
      var modulus := if unicode then 0x10000 else 0x100;
      CodeTextRender(body, modulus);
      RenderIsFixedPoint(Codes(body, modulus) + [0]);
    }
  }
}
