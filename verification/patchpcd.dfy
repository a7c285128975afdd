/** The value text the as-built module descriptor gives a PatchableInModule PCD
    (the `[PatchPcd]` section of `CreateAsBuiltInf`): numeric types as
    zero-padded hexadecimal of the type's width, VOID* strings as a brace list of
    byte values padded out to the maximum datum size, VOID* brace lists padded
    with `0x00` fields. */
module PatchPcd {
  import opened Wrappers
  import opened Text
  import opened PcdTypes
  import ByteArray
  import Seqs

  datatype PatchError =
    | UnknownMaxDatumSize  // VOID* PCD without a MaxDatumSize: fatal build error
    | MaxSizeTooSmall      // a user-set MaxDatumSize below the content: fatal build error
    | PythonException      // the tool crashes (ValueError or IndexError on a malformed value)

  /** A BOOLEAN default of `TRUE`/`FALSE` (any case) is first rewritten to `1`/`0`. */
  function NormalizedDefault(datumType: string, value: string): string {
    if datumType == Boolean && Upper(value) == "TRUE" then "1"
    else if datumType == Boolean && Upper(value) == "FALSE" then "0"
    else value
  }

  /** The number of hex digits the format string of each numeric type asks for. */
  function HexWidth(datumType: string): (w: nat)
    ensures datumType == Uint16 ==> w == 4
    ensures datumType == Uint32 ==> w == 8
    ensures datumType == Uint64 ==> w == 16
    ensures datumType != Uint16 && datumType != Uint32 && datumType != Uint64 ==> w == 2
  {
    if datumType == Uint16 then 4
    else if datumType == Uint32 then 8
    else if datumType == Uint64 then 16
    else 2
  }

  /** A numeric value as `0x` and at least the type's number of hex digits; a
      default `int(x, 0)` rejects crashes the tool. */
  function EncodeNumeric(datumType: string, value: string): (r: Result<string, PatchError>)
    ensures r.Err? <==> ParseIntLiteral(NormalizedDefault(datumType, value)).None?
    ensures r.Err? ==> r.error == PythonException
    ensures r.Ok? ==> |r.value| >= 2 + HexWidth(datumType) && r.value[..2] == "0x"
  {
    match ParseIntLiteral(NormalizedDefault(datumType, value))
    case None => Err(PythonException)
    case Some(n) => Ok("0x" + HexPad(n, HexWidth(datumType), false))
  }

  /** `'0x%02x' % b` */
  function HexByte(b: int): string {
    "0x" + HexPad(b, 2, false)
  }

  /** What `eval` returns for the value once its leading `L`s are stripped: the
      body of a plainly quoted literal (double or single quotes). */
  function EvalQuoted(s: string): Option<string> {
    match ByteArray.PlainBody(s, '"')
    case Some(body) => Some(body)
    case None => ByteArray.PlainBody(s, '\'')
  }

  /** The text the character loop accumulates: for each character its low byte
      (and for a Unicode string then its high part) in hex, each followed by `, `. */
  function CharEntries(body: string, unicode: bool): string {
    if body == [] then ""
    else
      var c := body[0] as int;
      (if unicode then HexByte(c % 0x100) + ", " + HexByte(c / 0x100) + ", "
       else HexByte(c % 0x100) + ", ")
      + CharEntries(body[1..], unicode)
  }

  /** `s * k` */
  function Repeat(s: string, k: int): string
    decreases k
  {
    if k <= 0 then "" else s + Repeat(s, k - 1)
  }

  /** The brace list for a string: its character entries, `padding` zero entries
      per character of room left over, then a zero terminator (two zero bytes for a
      Unicode string). */
  function Layout(body: string, unicode: bool, padding: int): string {
    "{" + CharEntries(body, unicode)
    + Repeat(if unicode then "0x00, 0x00, " else "0x00, ", padding)
    + (if unicode then "0x00, 0x00" else "0x00") + "}"
  }

  /** A VOID* value written as a quoted (or `L`-quoted) string. */
  function EncodeString(value: string, arraySize: int, userSet: bool): (r: Result<string, PatchError>)
    requires value != [] && value[0] != '{'
    ensures r == Err(MaxSizeTooSmall) ==> userSet
  {
    match EvalQuoted(LStripChar(value, 'L'))
    case None => Err(PythonException)
    case Some(body) => EncodeBody(body, value[0] == 'L', arraySize, userSet)
  }

  /** The string's entries padded out to the maximum size, which a Unicode string
      gives in bytes (so it is halved); a size too small for the string and its
      terminator is an error when the user set it and is grown to fit otherwise. */
  function EncodeBody(body: string, unicode: bool, arraySize: int, userSet: bool): (r: Result<string, PatchError>)
    ensures r.Err? <==> r == Err(MaxSizeTooSmall)
    ensures r.Err? <==> userSet && (if unicode then arraySize / 2 else arraySize) < |body| + 1
  {
    var size := if unicode then arraySize / 2 else arraySize;
    if size < |body| + 1 && userSet then Err(MaxSizeTooSmall)
    else Ok(Layout(body, unicode, if size < |body| + 1 then 0 else size - |body| - 1))
  }

  /** A VOID* value written as a brace list: padded with `, 0x00` fields up to
      `arraySize` fields; a list already longer is an error when the size was set
      by the user and is left as it is otherwise. */
  function EncodeBraces(value: string, arraySize: int, userSet: bool): (r: Result<string, PatchError>)
    ensures r == Err(MaxSizeTooSmall) <==> userSet && |Split(value, ',')| > arraySize
    ensures r.Ok? && |Split(value, ',')| > arraySize ==> r.value == value
  {
    var n := |Split(value, ',')|;
    if n <= arraySize then Ok(RStripChar(value, '}') + Repeat(", 0x00", arraySize - n) + "}")
    else if userSet then Err(MaxSizeTooSmall)
    else Ok(value)
  }

  function EncodeVoid(value: string, maxDatumSize: Option<string>, userSet: bool): (r: Result<string, PatchError>)
    ensures r == Err(MaxSizeTooSmall) ==> userSet
    ensures r == Err(UnknownMaxDatumSize) <==> maxDatumSize.None? || maxDatumSize.value == ""
  {
    if maxDatumSize.None? || maxDatumSize.value == "" then Err(UnknownMaxDatumSize)
    else
      match ParseIntLiteral(maxDatumSize.value)
      case None => Err(PythonException)
      case Some(arraySize) =>
        if value == [] then Err(PythonException)
        else if value[0] != '{' then EncodeString(value, arraySize, userSet)
        else EncodeBraces(value, arraySize, userSet)
  }

  /** The value text of one PatchableInModule PCD. */
  function PatchPcdValue(pcd: Pcd): (r: Result<string, PatchError>)
    ensures r == Err(UnknownMaxDatumSize)
            <==> !IsNumericType(pcd.datumType) && (pcd.maxDatumSize.None? || pcd.maxDatumSize.value == "")
    ensures r == Err(MaxSizeTooSmall) ==> !IsNumericType(pcd.datumType) && pcd.maxSizeUserSet
    ensures IsNumericType(pcd.datumType)
            ==> (r.Ok? <==> ParseIntLiteral(NormalizedDefault(pcd.datumType, pcd.defaultValue)).Some?)
  {
    if IsNumericType(pcd.datumType) then EncodeNumeric(pcd.datumType, pcd.defaultValue)
    else EncodeVoid(pcd.defaultValue, pcd.maxDatumSize, pcd.maxSizeUserSet)
  }

  /** The `[PatchPcd]` line: `<space>.<name>|<value>|0x<OFFSET>`, the offset in
      upper-case hex. As long as neither the qualified name nor the value holds a
      `|`, the line splits on `|` into exactly those three fields, and the last
      reads back as the offset. */
  function PatchPcdItem(pcd: Pcd, tokenName: string, value: string, offset: nat): (line: string)
    ensures var f := Split(line, '|');
            '|' !in pcd.tokenSpace + "." + tokenName && '|' !in value
            ==> && f == [pcd.tokenSpace + "." + tokenName, value, "0x" + HexPad(offset, 0, true)]
                && ParseIntLiteral(f[2]) == Some(offset)
  {
    var name := pcd.tokenSpace + "." + tokenName;
    LineFields(name, value, offset);
    name + "|" + value + "|0x" + HexPad(offset, 0, true)
  }

  lemma LineFields(name: string, value: string, offset: nat)
    ensures var f := Split(name + "|" + value + "|0x" + HexPad(offset, 0, true), '|');
            '|' !in name && '|' !in value
            ==> f == [name, value, "0x" + HexPad(offset, 0, true)] && ParseIntLiteral(f[2]) == Some(offset)
  {
    if '|' !in name && '|' !in value {
      var h := HexPad(offset, 0, true);
      var hex := "0x" + h;
      HexOffsetText(offset);
      assert name + "|" + value + "|0x" + h == name + "|" + value + "|" + hex;
      LineSplit(name, value, hex);
      HexTextReadsBack("", h);
      EmptyPrefix(hex);
    }
  }

  /** Three pieces without `|` joined by `|` split back into the pieces. */
  lemma LineSplit(name: string, value: string, hex: string)
    requires '|' !in name && '|' !in value && '|' !in hex
    ensures Split(name + "|" + value + "|" + hex, '|') == [name, value, hex]
  {
    assert name + "|" + value + "|" + hex == name + ['|'] + (value + ['|'] + hex);
    SplitAfterPiece(name, value + ['|'] + hex, '|');
    SplitAfterPiece(value, hex, '|');
    SplitPlain(hex, '|');
  }

  /** The offset's hex digits stand for the offset and hold no `|`. */
  lemma HexOffsetText(offset: nat)
    ensures var h := HexPad(offset, 0, true);
            && AllDigits(h, 16) && h != [] && DigitsValue(h, 16) == offset
            && '|' !in "0x" + h
  {
    var h := HexPad(offset, 0, true);
    var hex := "0x" + h;
    assert AllDigits(h, 16) && h != [] && DigitsValue(h, 16) == offset by {
      var d := NatToDigits(offset, 16, true);
      DigitsRoundTrip(offset, 16, true);
      LeadingZeros(0 - |d|, d, 16);
    }
    assert '|' !in hex by {
      forall i | 0 <= i < |hex| ensures hex[i] != '|' {
        if i >= 2 {
          assert DigitValue(hex[i]) < 16;
        }
      }
    }
  }

  // ---- the bytes a VOID* string stands for ----

  /** The byte values of the string: one per character, or for a Unicode string
      the low byte then the high part of each character code. */
  function StringBytes(body: string, unicode: bool): (r: seq<int>)
    ensures |r| == if unicode then 2 * |body| else |body|
    ensures forall i :: 0 <= i < |r| ==> r[i] >= 0
  {
    if body == [] then []
    else
      var c := body[0] as int;
      (if unicode then [c % 0x100, c / 0x100] else [c % 0x100]) + StringBytes(body[1..], unicode)
  }

  function ZeroBytes(k: int): (r: seq<int>)
    ensures |r| == if k <= 0 then 0 else k
    ensures forall i :: 0 <= i < |r| ==> r[i] == 0
    decreases k
  {
    if k <= 0 then [] else [0] + ZeroBytes(k - 1)
  }

  /** Each byte in hex followed by `, `. */
  function HexBytesText(bs: seq<int>): string {
    if bs == [] then "" else HexByte(bs[0]) + ", " + HexBytesText(bs[1..])
  }

  lemma {:induction false} HexBytesTextAppend(a: seq<int>, b: seq<int>)
    ensures HexBytesText(a + b) == HexBytesText(a) + HexBytesText(b)
  {
    if a == [] {
      assert a + b == b;
    } else {
      assert (a + b)[0] == a[0] && (a + b)[1..] == a[1..] + b;
      HexBytesTextAppend(a[1..], b);
    }
  }

  lemma {:induction false} CharEntriesAreBytes(body: string, unicode: bool)
    ensures CharEntries(body, unicode) == HexBytesText(StringBytes(body, unicode))
  {
    if body != [] {
      var c := body[0] as int;
      var head := if unicode then [c % 0x100, c / 0x100] else [c % 0x100];
      CharEntriesAreBytes(body[1..], unicode);
      HexBytesTextAppend(head, StringBytes(body[1..], unicode));
      if unicode {
        assert HexBytesText(head) == HexByte(c % 0x100) + ", " + HexBytesText([c / 0x100]);
      }
    }
  }

  lemma HexByteZero()
    ensures HexByte(0) == "0x00"
  {
    assert NatToDigits(0, 16, false) == "0";
    assert Zeros(1) == "0";
  }

  lemma {:induction false} PaddingIsZeroBytes(k: int, unicode: bool)
    ensures Repeat(if unicode then "0x00, 0x00, " else "0x00, ", k)
         == HexBytesText(ZeroBytes(if unicode then 2 * k else k))
    decreases k
  {
    if k > 0 {
      var w := if unicode then 2 else 1;
      PaddingIsZeroBytes(k - 1, unicode);
      ZeroEntries(unicode);
      assert w * k == w + w * (k - 1);
      ZeroBytesSplit(w, w * (k - 1));
      HexBytesTextAppend(ZeroBytes(w), ZeroBytes(w * (k - 1)));
    }
  }

  /** One padding entry is the text of one character's worth of zero bytes. */
  lemma ZeroEntries(unicode: bool)
    ensures HexBytesText(ZeroBytes(if unicode then 2 else 1)) == if unicode then "0x00, 0x00, " else "0x00, "
  {
    HexByteZero();
    assert ZeroBytes(1) == [0];
    assert ZeroBytes(2) == [0, 0];
    assert HexBytesText([0]) == "0x00, " + HexBytesText([]);
    assert HexBytesText([0, 0]) == "0x00, " + HexBytesText([0]);
  }

  lemma {:induction false} ZeroBytesSplit(a: nat, b: nat)
    ensures ZeroBytes(a + b) == ZeroBytes(a) + ZeroBytes(b)
  {
    if a > 0 {
      ZeroBytesSplit(a - 1, b);
    }
  }

  /** Leading zeros do not change the value of a run of digits. */
  lemma {:induction false} LeadingZeros(k: int, d: string, base: nat)
    requires 2 <= base && AllDigits(d, base)
    ensures AllDigits(Zeros(k) + d, base)
    ensures DigitsValue(Zeros(k) + d, base) == DigitsValue(d, base)
    decreases |d|
  {
    var z := Zeros(k);
    assert forall i :: 0 <= i < |z| ==> (z + d)[i] == '0';
    if d == [] {
      assert z + d == z;
      AllZeros(k, base);
    } else {
      var d' := d[..|d| - 1];
      assert (z + d)[..|z + d| - 1] == z + d';
      assert (z + d)[|z + d| - 1] == d[|d| - 1];
      LeadingZeros(k, d', base);
    }
  }

  lemma {:induction false} AllZeros(k: int, base: nat)
    requires 2 <= base
    ensures AllDigits(Zeros(k), base) && DigitsValue(Zeros(k), base) == 0
    decreases k
  {
    if k > 0 {
      ZerosSnoc(k);
      AllZeros(k - 1, base);
      var z := Zeros(k);
      assert z[..|z| - 1] == Zeros(k - 1);
      assert DigitValue(z[|z| - 1]) == 0;
    }
  }

  lemma {:induction false} ZerosSnoc(k: int)
    requires k > 0
    ensures Zeros(k) == Zeros(k - 1) + "0"
    decreases k
  {
    if k > 1 {
      ZerosSnoc(k - 1);
    }
  }

  /** The padded hex digits of a non-negative number read back as the number. */
  lemma HexPadDigits(n: nat, width: nat)
    ensures var h := HexPad(n, width, false);
            h != [] && AllDigits(h, 16) && DigitsValue(h, 16) == n
  {
    var d := NatToDigits(n, 16, false);
    DigitsRoundTrip(n, 16, false);
    LeadingZeros(width - |d|, d, 16);
  }

  /** `0x` followed by hex digits reads back as their value, also after a
      separating space. */
  lemma HexTextReadsBack(pre: string, h: string)
    requires pre == "" || pre == " "
    requires h != [] && AllDigits(h, 16)
    ensures ParseIntLiteral(pre + ("0x" + h)) == Some(DigitsValue(h, 16))
  {
    var s := "0x" + h;
    HexTextStrip(pre, h);
    HexUnsigned(h);
    ParseUnsignedStripped(pre + s, s);
  }

  lemma HexUnsigned(h: string)
    requires h != [] && AllDigits(h, 16)
    ensures ParseUnsignedLiteral("0x" + h) == Some(DigitsValue(h, 16))
  {
    assert ("0x" + h)[2..] == h;
  }

  lemma HexTextStrip(pre: string, h: string)
    requires pre == "" || pre == " "
    requires h != [] && AllDigits(h, 16)
    ensures Strip(pre + ("0x" + h)) == "0x" + h
  {
    var s := "0x" + h;
    assert s[|s| - 1] == h[|h| - 1];
    assert DigitValue(h[|h| - 1]) < 16;
    StripNoEdgeSpace(s);
    if pre == " " {
      StripSpacePrefix(s);
    } else {
      assert pre + s == s;
    }
  }

  lemma HexByteReadsBack(pre: string, b: nat)
    requires pre == "" || pre == " "
    ensures ParseIntLiteral(pre + HexByte(b)) == Some(b)
  {
    HexPadDigits(b, 2);
    HexTextReadsBack(pre, HexPad(b, 2, false));
  }

  /** The fields `split(',')` cuts a hex byte list into: each byte, after the
      first with the space that followed the previous comma, then the final `0x00`. */
  function HexFields(pre: string, bs: seq<int>): seq<string>
    decreases |bs|
  {
    if bs == [] then [pre + "0x00"] else [pre + HexByte(bs[0])] + HexFields(" ", bs[1..])
  }

  lemma {:induction false} SplitHexBytes(pre: string, bs: seq<int>)
    requires pre == "" || pre == " "
    requires forall i :: 0 <= i < |bs| ==> bs[i] >= 0
    ensures Split(pre + HexBytesText(bs) + "0x00", ',') == HexFields(pre, bs)
    decreases |bs|
  {
    if bs == [] {
      assert pre + HexBytesText(bs) + "0x00" == pre + "0x00";
      HexByteZero();
      HexNoComma(pre, 0);
      SplitPlain(pre + "0x00", ',');
    } else {
      HexBytesTextCons(pre, bs);
      HexNoComma(pre, bs[0]);
      SplitAfterPiece(pre + HexByte(bs[0]), " " + HexBytesText(bs[1..]) + "0x00", ',');
      SplitHexBytes(" ", bs[1..]);
    }
  }

  lemma {:induction false} ParseHexFields(pre: string, bs: seq<int>)
    requires pre == "" || pre == " "
    requires forall i :: 0 <= i < |bs| ==> bs[i] >= 0
    ensures ByteArray.ParseFields(HexFields(pre, bs)) == Some(bs + [0])
    decreases |bs|
  {
    if bs == [] {
      HexByteZero();
      HexByteReadsBack(pre, 0);
      OneField(pre + "0x00", 0);
      ConsSnoc(bs);
    } else {
      HexByteReadsBack(pre, bs[0]);
      ParseHexFields(" ", bs[1..]);
      PrependField(pre + HexByte(bs[0]), HexFields(" ", bs[1..]), bs[0], bs[1..] + [0]);
      ConsSnoc(bs);
    }
  }

  lemma ParseHexBytes(bs: seq<int>)
    requires forall i :: 0 <= i < |bs| ==> bs[i] >= 0
    ensures ByteArray.ParseFields(Split(HexBytesText(bs) + "0x00", ',')) == Some(bs + [0])
  {
    EmptyPrefix(HexBytesText(bs));
    SplitHexBytes("", bs);
    ParseHexFields("", bs);
  }

  lemma ConsSnoc(bs: seq<int>)
    ensures bs == [] ==> bs + [0] == [0]
    ensures bs != [] ==> [bs[0]] + (bs[1..] + [0]) == bs + [0]
  {
  }

  lemma EmptyPrefix(s: string)
    ensures "" + s == s
  {
  }

  lemma HexBytesTextCons(pre: string, bs: seq<int>)
    requires bs != []
    ensures pre + HexBytesText(bs) + "0x00"
         == (pre + HexByte(bs[0])) + [','] + (" " + HexBytesText(bs[1..]) + "0x00")
  {
    var a := HexByte(bs[0]);
    var rest := HexBytesText(bs[1..]);
    assert HexBytesText(bs) == a + ", " + rest;
    CommaRegroup(pre, a, rest);
  }

  lemma CommaRegroup(pre: string, a: string, rest: string)
    ensures pre + (a + ", " + rest) + "0x00" == (pre + a) + [','] + (" " + rest + "0x00")
  {
    assert ", " == [','] + " ";
  }

  lemma OneField(f: string, v: int)
    requires ParseIntLiteral(f) == Some(v)
    ensures ByteArray.ParseFields([f]) == Some([v])
  {
    assert [f][0] == f && [f][1..] == [];
    assert ByteArray.ParseFields([]) == Some([]);
    assert [v] + [] == [v];
  }

  lemma PrependField(f: string, fs: seq<string>, v: int, vs: seq<int>)
    requires ParseIntLiteral(f) == Some(v) && ByteArray.ParseFields(fs) == Some(vs)
    ensures ByteArray.ParseFields([f] + fs) == Some([v] + vs)
  {
    assert ([f] + fs)[1..] == fs;
  }

  lemma HexNoComma(pre: string, b: nat)
    requires pre == "" || pre == " "
    ensures ',' !in pre + HexByte(b)
  {
    HexPadDigits(b, 2);
    DigitsNoComma(pre, HexPad(b, 2, false));
  }

  lemma DigitsNoComma(pre: string, h: string)
    requires pre == "" || pre == " "
    requires AllDigits(h, 16)
    ensures ',' !in pre + "0x" + h
  {
    var s := pre + "0x" + h;
    forall i | 0 <= i < |s| ensures s[i] != ',' {
      if i >= |pre| + 2 {
        assert s[i] == h[i - |pre| - 2];
      }
    }
  }

  lemma LastIsZeroBytes(unicode: bool)
    ensures (if unicode then "0x00, 0x00" else "0x00")
         == HexBytesText(ZeroBytes(if unicode then 1 else 0)) + "0x00"
  {
    HexByteZero();
    if unicode {
      assert ZeroBytes(1) == [0];
      assert HexBytesText([0]) == "0x00, " + HexBytesText([]);
    } else {
      assert ZeroBytes(0) == [];
    }
  }

  lemma Regroup(a: string, b: string, c: string, d: string)
    ensures "{" + a + b + (c + d) + "}" == "{" + (a + b + c) + d + "}"
  {
  }

  lemma Unbrace(a: string, b: string)
    ensures ByteArray.ArrayValues("{" + a + b + "}") == ByteArray.ParseFields(Split(a + b, ','))
  {
    var t := "{" + a + b + "}";
    assert t[1..|t| - 1] == a + b;
  }

  /** The layout text is the hex byte list of the string's bytes and the zeros. */
  lemma LayoutIsHexBytes(body: string, unicode: bool, padding: nat)
    ensures var w := if unicode then 2 else 1;
            Layout(body, unicode, padding)
            == "{" + HexBytesText(StringBytes(body, unicode) + ZeroBytes(w * padding) + ZeroBytes(w - 1)) + "0x00" + "}"
  {
    var w := if unicode then 2 else 1;
    var sb := StringBytes(body, unicode);
    var pad := ZeroBytes(w * padding);
    var lastZeros := ZeroBytes(w - 1);
    CharEntriesAreBytes(body, unicode);
    PaddingIsZeroBytes(padding, unicode);
    LastIsZeroBytes(unicode);
    HexBytesTextAppend(sb, pad);
    HexBytesTextAppend(sb + pad, lastZeros);
    Regroup(HexBytesText(sb), HexBytesText(pad), HexBytesText(lastZeros), "0x00");
  }

  lemma ZeroTail(sb: seq<int>, w: nat, padding: nat)
    requires w == 1 || w == 2
    ensures sb + ZeroBytes(w * padding) + ZeroBytes(w - 1) + [0] == sb + ZeroBytes(w * (padding + 1))
  {
    var n := w * padding;
    assert w * (padding + 1) == n + (w - 1) + 1 by {
      if w == 2 {
        assert 2 * (padding + 1) == 2 * padding + 2;
      }
    }
    ZeroBytesSplit(n, w - 1);
    ZeroBytesSplit(n + (w - 1), 1);
    assert ZeroBytes(1) == [0];
    Seqs.Assoc(sb, ZeroBytes(n), ZeroBytes(w - 1));
    Seqs.Assoc(sb, ZeroBytes(n) + ZeroBytes(w - 1), [0]);
  }

  /** The layout reads back as the string's bytes followed by `padding + 1` zero
      entries (zero bytes for a Unicode string: twice as many). */
  lemma LayoutReadsBack(body: string, unicode: bool, padding: nat)
    ensures var w := if unicode then 2 else 1;
            ByteArray.ArrayValues(Layout(body, unicode, padding))
            == Some(StringBytes(body, unicode) + ZeroBytes(w * (padding + 1)))
  {
    var w := if unicode then 2 else 1;
    var all := StringBytes(body, unicode) + ZeroBytes(w * padding) + ZeroBytes(w - 1);
    LayoutIsHexBytes(body, unicode, padding);
    Unbrace(HexBytesText(all), "0x00");
    ParseHexBytes(all);
    ZeroTail(StringBytes(body, unicode), w, padding);
  }

  /** A VOID* string is laid out as its bytes followed by zeros (padding and the
      terminator): the brace list reads back as the string's bytes, then only zero
      entries, `max(size, length + 1)` characters' worth in all (two entries per
      character for a Unicode string, whose size counts bytes and is halved). */
  lemma StringLayout(body: string, unicode: bool, arraySize: int, userSet: bool)
    requires EncodeBody(body, unicode, arraySize, userSet).Ok?
    ensures var size := if unicode then arraySize / 2 else arraySize;
            var n := if size < |body| + 1 then |body| + 1 else size;
            var sb := StringBytes(body, unicode);
            var bytes := ByteArray.ArrayValues(EncodeBody(body, unicode, arraySize, userSet).value);
            && bytes.Some?
            && |bytes.value| == (if unicode then 2 * n else n)
            && bytes.value[..|sb|] == sb
            && forall i :: |sb| <= i < |bytes.value| ==> bytes.value[i] == 0
  {
    var size := if unicode then arraySize / 2 else arraySize;
    var padding := if size < |body| + 1 then 0 else size - |body| - 1;
    assert EncodeBody(body, unicode, arraySize, userSet).value == Layout(body, unicode, padding);
    LayoutShape(body, unicode, padding);
  }

  lemma LayoutShape(body: string, unicode: bool, padding: nat)
    ensures var sb := StringBytes(body, unicode);
            var bytes := ByteArray.ArrayValues(Layout(body, unicode, padding));
            && bytes.Some?
            && |bytes.value| == (if unicode then 2 * (|body| + padding + 1) else |body| + padding + 1)
            && bytes.value[..|sb|] == sb
            && forall i :: |sb| <= i < |bytes.value| ==> bytes.value[i] == 0
  {
    var w := if unicode then 2 else 1;
    LayoutReadsBack(body, unicode, padding);
    ZeroTailed(StringBytes(body, unicode), ZeroBytes(w * (padding + 1)));
  }

  lemma ZeroTailed(sb: seq<int>, zs: seq<int>)
    requires forall i :: 0 <= i < |zs| ==> zs[i] == 0
    ensures (sb + zs)[..|sb|] == sb
    ensures forall i :: |sb| <= i < |sb + zs| ==> (sb + zs)[i] == 0
  {
    assert forall i :: |sb| <= i < |sb + zs| ==> (sb + zs)[i] == zs[i - |sb|];
  }

  /** Number of fields `split(',')` gives: one more than the number of commas. */
  function CountChar(s: string, c: char): nat {
    if s == [] then 0 else (if s[0] == c then 1 else 0) + CountChar(s[1..], c)
  }

  lemma {:induction false} SplitCount(s: string, c: char)
    ensures |Split(s, c)| == CountChar(s, c) + 1
  {
    if s != [] {
      SplitCount(s[1..], c);
    }
  }

  lemma {:induction false} CountAppend(a: string, b: string, c: char)
    ensures CountChar(a + b, c) == CountChar(a, c) + CountChar(b, c)
  {
    if a == [] {
      assert a + b == b;
    } else {
      assert (a + b)[0] == a[0] && (a + b)[1..] == a[1..] + b;
      CountAppend(a[1..], b, c);
    }
  }

  lemma {:induction false} CountNone(s: string, c: char)
    requires forall i :: 0 <= i < |s| ==> s[i] != c
    ensures CountChar(s, c) == 0
  {
    if s != [] {
      CountNone(s[1..], c);
    }
  }

  lemma {:induction false} CountRepeat(s: string, k: int, c: char)
    requires CountChar(s, c) == 1
    ensures CountChar(Repeat(s, k), c) == if k <= 0 then 0 else k
    decreases k
  {
    if k > 0 {
      CountRepeat(s, k - 1, c);
      CountAppend(s, Repeat(s, k - 1), c);
    }
  }

  lemma PaddingFieldCount()
    ensures CountChar(", 0x00", ',') == 1
  {
    var f := ", 0x00";
    assert f[1..][1..][1..][1..][1..] == "0";
  }

  /** Dropping trailing braces keeps every comma. */
  lemma {:induction false} RStripKeepsCommas(value: string)
    ensures CountChar(RStripChar(value, '}'), ',') == CountChar(value, ',')
  {
    var stripped := RStripChar(value, '}');
    var suffix := value[|stripped|..];
    assert value == stripped + suffix;
    CountNone(suffix, ',');
    CountAppend(stripped, suffix, ',');
  }

  /** A brace list that fits is padded to exactly `arraySize` fields. */
  lemma BracePadding(value: string, arraySize: int, userSet: bool)
    requires |Split(value, ',')| <= arraySize
    ensures EncodeBraces(value, arraySize, userSet).Ok?
    ensures |Split(EncodeBraces(value, arraySize, userSet).value, ',')| == arraySize
  {
    var n := |Split(value, ',')|;
    var out := RStripChar(value, '}') + Repeat(", 0x00", arraySize - n) + "}";
    assert EncodeBraces(value, arraySize, userSet).value == out;
    PaddedCommas(value, arraySize - n);
    SplitCount(value, ',');
    SplitCount(out, ',');
  }

  /** The padded list has the commas of the original and one per padding field. */
  lemma PaddedCommas(value: string, k: nat)
    ensures CountChar(RStripChar(value, '}') + Repeat(", 0x00", k) + "}", ',')
            == CountChar(value, ',') + k
  {
    var stripped := RStripChar(value, '}');
    var pad := Repeat(", 0x00", k);
    RStripKeepsCommas(value);
    PaddingFieldCount();
    CountRepeat(", 0x00", k, ',');
    CountAppend(stripped, pad, ',');
    CountAppend(stripped + pad, "}", ',');
    assert CountChar("}", ',') == 0;
  }

  // ---- numeric types ----

  function Pow16(w: nat): nat {
    if w == 0 then 1 else 16 * Pow16(w - 1)
  }

  lemma {:induction false} DigitsFit(n: nat, w: nat)
    requires 1 <= w && n < Pow16(w)
    ensures |NatToDigits(n, 16, false)| <= w
  {
    if n >= 16 {
      DivStep(n, 16);
      assert n / 16 < Pow16(w - 1);
      DigitsFit(n / 16, w - 1);
    }
  }

  /** A numeric PatchableInModule value that fits its type comes out as `0x`
      followed by exactly 2, 4, 8 or 16 hex digits (UINT8 and BOOLEAN, UINT16,
      UINT32, UINT64) that read back as the value. */
  lemma NumericLayout(datumType: string, value: string, n: nat)
    requires ParseIntLiteral(NormalizedDefault(datumType, value)) == Some(n)
    requires n < Pow16(HexWidth(datumType))
    ensures EncodeNumeric(datumType, value).Ok?
    ensures var t := EncodeNumeric(datumType, value).value;
            |t| == 2 + HexWidth(datumType) && ParseIntLiteral(t) == Some(n)
  {
    var h := HexPad(n, HexWidth(datumType), false);
    DigitsFit(n, HexWidth(datumType));
    HexPadFits(n, HexWidth(datumType), false);
    HexPadDigits(n, HexWidth(datumType));
    HexTextReadsBack("", h);
    EmptyPrefix("0x" + h);
  }

  lemma ParseBit(b: nat)
    requires b < 2
    ensures ParseIntLiteral([DigitChar(b, false)]) == Some(b)
  {
    var s := [DigitChar(b, false)];
    StripNoEdgeSpace(s);
    assert s[..0] == "";
    assert DigitsValue(s, 10) == b;
    ParseUnsignedStripped(s, s);
  }

  lemma HexBit(b: nat)
    requires b < 2
    ensures HexByte(b) == "0x0" + [DigitChar(b, false)]
  {
    assert NatToDigits(b, 16, false) == [DigitChar(b, false)];
    assert Zeros(1) == "0";
  }

  /** BOOLEAN `TRUE`/`FALSE` in any letter case become `0x01`/`0x00`. */
  lemma BooleanLayout(value: string)
    ensures Upper(value) == "TRUE" ==> EncodeNumeric(Boolean, value) == Ok("0x01")
    ensures Upper(value) == "FALSE" ==> EncodeNumeric(Boolean, value) == Ok("0x00")
  {
    if Upper(value) == "TRUE" {
      assert NormalizedDefault(Boolean, value) == [DigitChar(1, false)];
      ParseBit(1);
      HexBit(1);
      assert HexWidth(Boolean) == 2;
      assert "0x0" + [DigitChar(1, false)] == "0x01";
    } else if Upper(value) == "FALSE" {
      assert NormalizedDefault(Boolean, value) == [DigitChar(0, false)];
      ParseBit(0);
      HexBit(0);
      assert HexWidth(Boolean) == 2;
      assert "0x0" + [DigitChar(0, false)] == "0x00";
    }
  }
}
