/** The string operations of the Python runtime that the build tool leans on:
    `strip`, `split`, `join`, `str(int)`, `'%0Nx' % n`, `int(s, 0)`, substring
    search and ASCII lower-casing, each written out with the contract the callers
    rely on. */
module Text {
  import opened Wrappers

  /** The characters for which Python's `str.isspace` holds. */
  predicate IsSpace(c: char) {
    ('\t' <= c <= '\r') || ('\U{1c}' <= c <= '\U{1f}') || c == ' '
    || c == '\U{85}' || c == '\U{a0}' || c == '\U{1680}'
    || ('\U{2000}' <= c <= '\U{200a}') || c == '\U{2028}' || c == '\U{2029}'
    || c == '\U{202f}' || c == '\U{205f}' || c == '\U{3000}'
  }

  /** `s.lstrip()` */
  function TrimLeft(s: string): (r: string)
    ensures |r| <= |s| && r == s[|s| - |r|..]
    ensures forall i :: 0 <= i < |s| - |r| ==> IsSpace(s[i])
    ensures r != [] ==> !IsSpace(r[0])
  {
    if s != [] && IsSpace(s[0]) then TrimLeft(s[1..]) else s
  }

  /** `s.rstrip()` */
  function TrimRight(s: string): (r: string)
    ensures |r| <= |s| && r == s[..|r|]
    ensures forall i :: |r| <= i < |s| ==> IsSpace(s[i])
    ensures r != [] ==> !IsSpace(r[|r| - 1])
  {
    if s != [] && IsSpace(s[|s| - 1]) then TrimRight(s[..|s| - 1]) else s
  }

  /** `s.strip()` */
  function Strip(s: string): (r: string)
    ensures r != [] ==> !IsSpace(r[0]) && !IsSpace(r[|r| - 1])
    ensures (forall i :: 0 <= i < |s| ==> !IsSpace(s[i])) ==> r == s
  {
    TrimRight(TrimLeft(s))
  }

  lemma StripNoEdgeSpace(s: string)
    requires s != [] && !IsSpace(s[0]) && !IsSpace(s[|s| - 1])
    ensures Strip(s) == s
  {
    assert TrimLeft(s) == s;
  }

  lemma StripSpacePrefix(s: string)
    ensures Strip(" " + s) == Strip(s)
  {
    assert (" " + s)[1..] == s;
  }

  /** `s.rstrip(c)`: drops every trailing copy of `c`. */
  function RStripChar(s: string, c: char): (r: string)
    ensures |r| <= |s| && r == s[..|r|]
    ensures forall i :: |r| <= i < |s| ==> s[i] == c
    ensures r != [] ==> r[|r| - 1] != c
  {
    if s != [] && s[|s| - 1] == c then RStripChar(s[..|s| - 1], c) else s
  }

  /** `s.lstrip(c)`: drops every leading copy of `c`. */
  function LStripChar(s: string, c: char): (r: string)
    ensures |r| <= |s| && r == s[|s| - |r|..]
    ensures forall i :: 0 <= i < |s| - |r| ==> s[i] == c
    ensures r != [] ==> r[0] != c
  {
    if s != [] && s[0] == c then LStripChar(s[1..], c) else s
  }

  /** The text with every character in `drop` removed (a chain of `replace(c, '')`). */
  function RemoveChars(s: string, drop: set<char>): (r: string)
    ensures forall i :: 0 <= i < |r| ==> r[i] !in drop
    ensures |r| <= |s|
  {
    if s == [] then []
    else if s[0] in drop then RemoveChars(s[1..], drop)
    else [s[0]] + RemoveChars(s[1..], drop)
  }

  lemma {:induction false} RemoveCharsKeeps(s: string, drop: set<char>)
    requires forall i :: 0 <= i < |s| ==> s[i] !in drop
    ensures RemoveChars(s, drop) == s
  {
    if s != [] {
      RemoveCharsKeeps(s[1..], drop);
    }
  }

  lemma {:induction false} RemoveCharsAppend(a: string, b: string, drop: set<char>)
    ensures RemoveChars(a + b, drop) == RemoveChars(a, drop) + RemoveChars(b, drop)
  {
    if a == [] {
      assert a + b == b;
    } else {
      assert (a + b)[0] == a[0];
      assert (a + b)[1..] == a[1..] + b;
      RemoveCharsAppend(a[1..], b, drop);
    }
  }

  /** `sep.join(parts)` */
  function Join(parts: seq<string>, sep: string): string {
    if parts == [] then ""
    else if |parts| == 1 then parts[0]
    else parts[0] + sep + Join(parts[1..], sep)
  }

  /** `s.split(sep)` for a one-character separator: never empty, no piece holds the
      separator, and joining the pieces gives `s` back. */
  function Split(s: string, sep: char): (r: seq<string>)
    ensures |r| >= 1
    ensures forall i :: 0 <= i < |r| ==> sep !in r[i]
    ensures Join(r, [sep]) == s
  {
    if s == [] then [""]
    else
      var rest := Split(s[1..], sep);
      if s[0] == sep then
        assert s == [sep] + s[1..];
        [""] + rest
      else
        var r := [[s[0]] + rest[0]] + rest[1..];
        assert r[1..] == rest[1..];
        assert s == [s[0]] + s[1..];
        r
  }

  lemma {:induction false} SplitAfterPiece(p: string, tail: string, sep: char)
    requires sep !in p
    ensures Split(p + [sep] + tail, sep) == [p] + Split(tail, sep)
  {
    if p != [] {
      var x := p + [sep] + tail;
      assert x[0] == p[0] && x[1..] == p[1..] + [sep] + tail;
      SplitAfterPiece(p[1..], tail, sep);
      assert [p[0]] + p[1..] == p;
    } else {
      assert (p + [sep] + tail)[1..] == tail;
    }
  }

  lemma {:induction false} SplitPlain(p: string, sep: char)
    requires sep !in p
    ensures Split(p, sep) == [p]
  {
    if p != [] {
      SplitPlain(p[1..], sep);
    }
  }

  /** Splitting what was joined gives the pieces back, as long as no piece holds
      the separator. */
  lemma {:induction false} SplitJoin(parts: seq<string>, sep: char)
    requires parts != []
    requires forall i :: 0 <= i < |parts| ==> sep !in parts[i]
    ensures Split(Join(parts, [sep]), sep) == parts
  {
    if |parts| == 1 {
      SplitPlain(parts[0], sep);
    } else {
      SplitJoin(parts[1..], sep);
      SplitAfterPiece(parts[0], Join(parts[1..], [sep]), sep);
    }
  }

  lemma {:induction false} JoinNoSep(parts: seq<string>, sep: char, c: char)
    requires c != sep
    requires forall i :: 0 <= i < |parts| ==> c !in parts[i]
    ensures c !in Join(parts, [sep])
  {
    if |parts| > 1 {
      JoinNoSep(parts[1..], sep, c);
    }
  }

  // ---- digits ----

  function DigitChar(d: nat, upper: bool): (c: char)
    requires d < 16
    ensures DigitValue(c) == d
    ensures c == '0' <==> d == 0
  {
    if d < 10 then ('0' as int + d) as char
    else if upper then ('A' as int + d - 10) as char
    else ('a' as int + d - 10) as char
  }

  /** The value of one hexadecimal digit in either case, or 16 for any other character. */
  function DigitValue(c: char): (v: nat)
    ensures v <= 16
  {
    if '0' <= c <= '9' then (c as int) - ('0' as int)
    else if 'a' <= c <= 'f' then (c as int) - ('a' as int) + 10
    else if 'A' <= c <= 'F' then (c as int) - ('A' as int) + 10
    else 16
  }

  predicate AllDigits(s: string, base: nat) {
    forall i :: 0 <= i < |s| ==> DigitValue(s[i]) < base
  }

  /** The number a run of digits in `base` stands for, most significant first. */
  function DigitsValue(s: string, base: nat): nat
    requires AllDigits(s, base)
  {
    if s == [] then 0 else DigitsValue(s[..|s| - 1], base) * base + DigitValue(s[|s| - 1])
  }

  lemma DivStep(n: nat, base: nat)
    requires 2 <= base <= n
    ensures 1 <= n / base < n && n % base < base
    ensures n == n / base * base + n % base
  {
  }

  /** The digits of `n` in `base`, most significant first, with no leading zero. */
  function NatToDigits(n: nat, base: nat, upper: bool): (r: string)
    requires 2 <= base <= 16
    ensures r != [] && AllDigits(r, base)
    ensures r[0] == '0' ==> n == 0 && r == "0"
    decreases n
  {
    if n < base then [DigitChar(n, upper)]
    else
      DivStep(n, base);
      var q := n / base;
      var d := n % base;
      var r := NatToDigits(q, base, upper) + [DigitChar(d, upper)];
      assert r[0] == NatToDigits(q, base, upper)[0];
      r
  }

  /** Reading back the digits of `n` gives `n`. */
  lemma {:induction false} DigitsRoundTrip(n: nat, base: nat, upper: bool)
    requires 2 <= base <= 16
    ensures DigitsValue(NatToDigits(n, base, upper), base) == n
    decreases n
  {
    var r := NatToDigits(n, base, upper);
    if n >= base {
      DivStep(n, base);
      DigitsRoundTrip(n / base, base, upper);
      assert r[..|r| - 1] == NatToDigits(n / base, base, upper);
      assert r[|r| - 1] == DigitChar(n % base, upper);
    }
  }

  /** Python's `str(n)`. */
  function Decimal(n: int): (r: string)
    ensures r != []
  {
    if n < 0 then "-" + NatToDigits(-n, 10, false) else NatToDigits(n, 10, false)
  }

  /** `k` copies of the character '0'; none when `k <= 0`. */
  function Zeros(k: int): (r: string)
    ensures |r| == if k <= 0 then 0 else k
    ensures forall i :: 0 <= i < |r| ==> r[i] == '0'
    decreases k
  {
    if k <= 0 then "" else "0" + Zeros(k - 1)
  }

  /** Python's `'%0<width>x' % n` (or `%X` when `upper`): a minus sign for a
      negative number, then zeros up to `width` characters in all. The digits are
      never cut, so a value too wide for `width` comes out longer. */
  function HexPad(n: int, width: nat, upper: bool): (r: string)
    ensures |r| >= width
  {
    var digits := NatToDigits(if n < 0 then -n else n, 16, upper);
    if n < 0 then "-" + Zeros(width - 1 - |digits|) + digits
    else Zeros(width - |digits|) + digits
  }

  /** A non-negative value that fits in `width` hex digits comes out as exactly
      `width` digits that read back as the value. */
  lemma HexPadFits(n: nat, width: nat, upper: bool)
    requires |NatToDigits(n, 16, upper)| <= width
    ensures |HexPad(n, width, upper)| == width
    ensures AllDigits(HexPad(n, width, upper), 16)
  {
  }

  // ---- parsing Python integer literals ----

  /** The body of a literal without its sign, in the base its prefix selects
      (`0x`, `0o`, `0b` or none), as `int(s, 0)` reads it. Leading zeros are
      allowed only in a literal that is all zeros. */
  function ParseUnsignedLiteral(s: string): Option<nat> {
    if |s| >= 2 && s[0] == '0' && (s[1] == 'x' || s[1] == 'X') then
      (if |s| > 2 && AllDigits(s[2..], 16) then Some(DigitsValue(s[2..], 16)) else None)
    else if |s| >= 2 && s[0] == '0' && (s[1] == 'o' || s[1] == 'O') then
      (if |s| > 2 && AllDigits(s[2..], 8) then Some(DigitsValue(s[2..], 8)) else None)
    else if |s| >= 2 && s[0] == '0' && (s[1] == 'b' || s[1] == 'B') then
      (if |s| > 2 && AllDigits(s[2..], 2) then Some(DigitsValue(s[2..], 2)) else None)
    else if s != [] && AllDigits(s, 10) && (s[0] != '0' || DigitsValue(s, 10) == 0) then
      Some(DigitsValue(s, 10))
    else None
  }

  /** Python's `int(s, 0)`: surrounding white space, an optional sign, then a
      literal; `None` stands for the ValueError it raises otherwise. */
  function ParseIntLiteral(s: string): Option<int> {
    var t := Strip(s);
    if t != [] && (t[0] == '-' || t[0] == '+') then
      match ParseUnsignedLiteral(t[1..])
      case None => None
      case Some(v) => var x: int := v; Some(if t[0] == '-' then -x else x)
    else
      match ParseUnsignedLiteral(t)
      case None => None
      case Some(v) => Some(v)
  }

  /** An unsigned literal after white space reads as the literal itself. */
  lemma ParseUnsignedStripped(s: string, t: string)
    requires Strip(s) == t && t != [] && t[0] != '-' && t[0] != '+'
    ensures ParseIntLiteral(s) == ParseUnsignedLiteral(t)
  {
  }

  /** Python's `int(s, 16)`: white space, an optional sign, an optional `0x`
      prefix, then hexadecimal digits. */
  function ParseHex(s: string): Option<int> {
    var t := Strip(s);
    var neg := t != [] && t[0] == '-';
    var u := if t != [] && (t[0] == '-' || t[0] == '+') then t[1..] else t;
    var d := if |u| >= 2 && u[0] == '0' && (u[1] == 'x' || u[1] == 'X') then u[2..] else u;
    if d != [] && AllDigits(d, 16) then
      var x: int := DigitsValue(d, 16); Some(if neg then -x else x)
    else None
  }

  lemma UnsignedDecimalRoundTrip(m: nat)
    ensures ParseUnsignedLiteral(NatToDigits(m, 10, false)) == Some(m)
  {
    var d := NatToDigits(m, 10, false);
    DigitsRoundTrip(m, 10, false);
    assert |d| >= 2 ==> d[0] != '0';
  }

  lemma DecimalHasNoSpace(n: int)
    ensures forall i :: 0 <= i < |Decimal(n)| ==> !IsSpace(Decimal(n)[i])
  {
    var m: nat := if n < 0 then -n else n;
    var d := NatToDigits(m, 10, false);
    assert forall i :: 0 <= i < |d| ==> DigitValue(d[i]) < 10;
    assert forall i :: 0 <= i < |d| ==> '0' <= d[i] <= '9';
  }

  /** `str(n)` reads back with `int(_, 0)` as `n`: the decimal text the build tool
      re-emits never changes a value. */
  lemma DecimalRoundTrip(n: int)
    ensures ParseIntLiteral(Decimal(n)) == Some(n)
  {
    var m: nat := if n < 0 then -n else n;
    var d := NatToDigits(m, 10, false);
    UnsignedDecimalRoundTrip(m);
    DecimalHasNoSpace(n);
    var t := Decimal(n);
    assert Strip(t) == t;
    if n < 0 {
      assert t[1..] == d;
    } else {
      assert t == d;
      assert DigitValue(d[0]) < 10;
    }
  }

  /** Python's `sub in s`. */
  predicate Contains(s: string, sub: string) {
    (|sub| <= |s| && s[..|sub|] == sub) || (s != [] && Contains(s[1..], sub))
  }

  /** ASCII lower case, as `str.lower` acts on the ASCII letters. */
  function Lower(s: string): (r: string)
    ensures |r| == |s|
    ensures forall i :: 0 <= i < |s| ==> r[i] == if 'A' <= s[i] <= 'Z' then (s[i] as int + 32) as char else s[i]
  {
    if s == [] then [] else
      [if 'A' <= s[0] <= 'Z' then (s[0] as int + 32) as char else s[0]] + Lower(s[1..])
  }

  /** ASCII upper case, as `str.upper` acts on the ASCII letters. */
  function Upper(s: string): (r: string)
    ensures |r| == |s|
    ensures forall i :: 0 <= i < |s| ==> r[i] == if 'a' <= s[i] <= 'z' then (s[i] as int - 32) as char else s[i]
  {
    if s == [] then [] else
      [if 'a' <= s[0] <= 'z' then (s[0] as int - 32) as char else s[0]] + Upper(s[1..])
  }

  /** `os.path.join(a, b)` with the POSIX separator, for a relative `b`. */
  function JoinPath(a: string, b: string): (r: string)
    ensures |b| <= |r| && r[|r| - |b|..] == b
    ensures |a| <= |r| && r[..|a|] == a
  {
    if a == "" || a[|a| - 1] == '/' then a + b else a + "/" + b
  }
}
