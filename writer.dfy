/// What the `Writer` base class of json.hpp shares between its two
/// subclasses: the text of the literals, of numbers and of strings.
///
/// `convert_number` calls `sprintf(buf, "%.17g", number)`; the model takes
/// that formatting as a parameter `fmt` and never computes with floating point.
/// `convert_string` reads the string through a `char`, which is signed on the
/// platforms the code targets: a byte from 0x80 on is negative, passes the
/// `e < 0x20` test, and `sprintf` then writes eleven bytes into a buffer of
/// seven. That behaviour is undefined, so the string operations here require
/// bytes below 0x80.
module JsonWriter {
  import opened JsonValue
  import opened JsonGrammar

  /** The characters `sprintf(buf, "%.17g", number)` leaves in `buf`. */
  datatype Formatted = Formatted(bytes: Bytes)

  /** `sprintf(buf, "%.17g", number)` */
  type Format = Double -> Formatted

  /** A byte `convert_string` can write: below 0x80. */
  predicate Ascii(c: Byte)
  {
    c as int < 0x80
  }

  predicate AsciiText(s: Bytes)
  {
    forall k :: 0 <= k < |s| ==> Ascii(s[k])
  }

  /** Every string payload the writers reach through `convert_string` is ASCII. */
  ghost predicate Writable(v: Value)
    decreases v
  {
    && (v.tag == String ==> AsciiText(v.str))
    && (v.tag == Array ==> forall i :: 0 <= i < |v.elems| ==> Writable(v.elems[i]))
    && (v.tag == Object ==> forall i :: 0 <= i < |v.members| ==> Writable(v.members[i].val))
  }

  predicate IsLiteral(t: JsonType)
  {
    t == Null || t == True || t == False
  }

  /** `convert_literal` */
  function Literal(t: JsonType): (r: Bytes)
    requires IsLiteral(t)
    ensures 4 <= |r| <= 5 && r[0] in "ntf"
    ensures LiteralAt(r, 0, r)
  {
    match t
    case Null => "null"
    case True => "true"
    case False => "false"
  }

  /** A lower-case hexadecimal digit, as `%x` writes it. */
  function HexChar(d: nat): (c: Byte)
    requires d < 16
    ensures IsHexDigit(c) && HexDigitValue(c) == d && !('A' <= c <= 'F')
  {
    if d < 10 then ('0' as int + d) as char else ('a' as int + d - 10) as char
  }

  /** Four hexadecimal digits of which the first two are zero. */
  lemma HexNumberTwoDigits(x: Byte, y: Byte)
    requires IsHexDigit(x) && IsHexDigit(y)
    ensures AllHex(['0', '0', x, y]) && HexNumber(['0', '0', x, y]) == 16 * HexDigitValue(x) + HexDigitValue(y)
  {
    var h: Bytes := ['0', '0', x, y];
    var t: Bytes := [y];
    assert t[1..] == [] && Pow16(0) == 1;
    assert HexNumber(t) == HexDigitValue(y);
    assert [x, y][1..] == t && Pow16(1) == 16;
    assert HexNumber([x, y]) == 16 * HexDigitValue(x) + HexDigitValue(y);
    assert ['0', x, y][1..] == [x, y];
    assert HexNumber(['0', x, y]) == HexNumber([x, y]);
    assert h[1..] == ['0', x, y];
  }

  /** `sprintf(buf, "\\u%04x", e)` for a byte below 0x20. */
  function UnicodeEscapeText(c: Byte): (r: Bytes)
    requires c as int < 0x20
    ensures |r| == 6 && r[..2] == "\\u" && AllHex(r[2..]) && HexNumber(r[2..]) == c as int
  {
    var x, y := HexChar(c as int / 16), HexChar(c as int % 16);
    var r: Bytes := ['\\', 'u', '0', '0', x, y];
    assert r[2..] == ['0', '0', x, y];
    HexNumberTwoDigits(x, y);
    r
  }

  /**
   * What `convert_string` writes for one byte: the byte itself from 0x20 on
   * (`/` included) except for the quote and the backslash; a backslash and
   * the letter `parse_string` turns back into the byte for the seven
   * one-letter escapes; `\u00XX` for the other control characters.
   */
  function Escaped(c: Byte): (r: Bytes)
    requires Ascii(c)
    ensures 1 <= |r| <= 6
    ensures |r| == 1 <==> c as int >= 0x20 && c != '\\' && c != '\"'
    ensures |r| == 1 ==> r == [c]
    ensures |r| == 2 <==> c in ['\\', '\"', 8 as char, 12 as char, '\n', '\r', '\t']
    ensures |r| == 2 ==> r[0] == '\\' && Unescape(r[1]) == Some(c)
    ensures |r| == 6 <==> c as int < 0x20 && c !in [8 as char, 12 as char, '\n', '\r', '\t']
  {
    if c == '\\' then "\\\\"
    else if c == '\"' then "\\\""
    else if c as int == 8 then "\\b"
    else if c as int == 12 then "\\f"
    else if c == '\n' then "\\n"
    else if c == '\r' then "\\r"
    else if c == '\t' then "\\t"
    else if c as int < 0x20 then UnicodeEscapeText(c)
    else [c]
  }

  /** The escaped bytes of `s`, in order. */
  function EscapedText(s: Bytes): (r: Bytes)
    requires AsciiText(s)
  {
    if s == [] then [] else Escaped(s[0]) + EscapedText(s[1..])
  }

  /** Escaping a string byte by byte, from the left, as the loop of `convert_string` does. */
  lemma {:induction false} EscapedTextAppend(s: Bytes, c: Byte)
    requires AsciiText(s) && Ascii(c)
    ensures AsciiText(s + [c]) && EscapedText(s + [c]) == EscapedText(s) + Escaped(c)
    decreases |s|
  {
    assert AsciiText(s + [c]);
    if s == [] {
      assert [c][1..] == [];
    } else {
      assert (s + [c])[1..] == s[1..] + [c];
      EscapedTextAppend(s[1..], c);
    }
  }

  /** The escaped text of one more byte of `str`. */
  lemma {:induction false} EscapedPrefixStep(str: Bytes, i: nat)
    requires AsciiText(str) && i < |str|
    ensures AsciiText(str[..i]) && AsciiText(str[..i + 1])
    ensures "\"" + EscapedText(str[..i + 1]) == "\"" + EscapedText(str[..i]) + Escaped(str[i])
  {
    assert str[..i + 1] == str[..i] + [str[i]];
    EscapedTextAppend(str[..i], str[i]);
  }

  /** What `convert_string` returns: the escaped bytes between quotes. */
  function Quoted(s: Bytes): (r: Bytes)
    requires AsciiText(s)
    ensures |r| >= 2 && r[0] == '\"' && r[|r| - 1] == '\"'
  {
    "\"" + EscapedText(s) + "\""
  }

  /** `convert_string` */
  method ConvertString(str: Bytes) returns (s: Bytes)
    requires AsciiText(str)
    ensures s == Quoted(str)
  {
    s := "\"";
    var i := 0;
    while i < |str|
      invariant i <= |str|
      invariant s == "\"" + EscapedText(str[..i])
    {
      var e := str[i];
      var piece: Bytes;
      if e == '\\' {
        piece := "\\\\";
      } else if e == '\"' {
        piece := "\\\"";
      } else if e as int == 8 {
        piece := "\\b";
      } else if e as int == 12 {
        piece := "\\f";
      } else if e == '\n' {
        piece := "\\n";
      } else if e == '\r' {
        piece := "\\r";
      } else if e == '\t' {
        piece := "\\t";
      } else if e as int < 0x20 {
        piece := UnicodeEscapeText(e);
      } else {
        piece := [e];
      }
      assert piece == Escaped(e);
      EscapedPrefixStep(str, i);
      s := s + piece;
      i := i + 1;
    }
    assert str[..i] == str;
    s := s + "\"";
  }

  // ---------------------------------------------------------------------------
  // The parser reads the strings back

  /** The bytes `e` stand in `src` from `j` on. */
  predicate TextAt(src: Bytes, j: nat, e: Bytes)
  {
    j + |e| <= |src| && src[j..j + |e|] == e
  }

  /** Text `a + b` at `j` is `a` at `j` followed by `b` at `j + |a|`. */
  lemma TextAtSplit(src: Bytes, j: nat, a: Bytes, b: Bytes)
    requires TextAt(src, j, a + b)
    ensures TextAt(src, j, a) && TextAt(src, j + |a|, b)
  {
    var t := src[j..j + |a| + |b|];
    assert src[j..j + |a|] == t[..|a|];
    assert src[j + |a|..j + |a| + |b|] == t[|a|..];
  }

  /** One escaped byte, as `parse_string` reads it. */
  lemma {:induction false} EscapedRead(src: Bytes, j: nat, acc: Bytes, c: Byte)
    requires Ascii(c) && TextAt(src, j, Escaped(c))
    ensures StringBody(src, j, acc) == StringBody(src, j + |Escaped(c)|, acc + [c])
  {
    var r := Escaped(c);
    assert src[j] == r[0];
    if |r| > 1 {
      assert src[j + 1] == r[1];
    }
    if c as int < 0x20 && !(c == '\n' || c == '\r' || c == '\t' || c as int == 8 || c as int == 12) {
      assert src[j + 2..j + 6] == r[2..];
      assert Hex4(src, j + 2) == Ok(Parsed(c as int, j + 6));
      assert UnicodeEscape(src, j + 2) == Ok(Parsed(c as int, j + 6));
      assert Utf8(c as int) == [c];
      assert Escape(src, j + 1, acc) == Ok(Parsed(acc + [c], j + 6));
    }
  }

  lemma AppendNothing(s: Bytes)
    ensures [] + s == s
  {
  }

  lemma AppendHead(acc: Bytes, s: Bytes)
    requires s != []
    ensures acc + [s[0]] + s[1..] == acc + s
  {
  }

  /** The escaped text of `s` is that of its first byte followed by that of the rest. */
  lemma {:induction false} EscapedTextLayout(src: Bytes, j: nat, s: Bytes)
    requires AsciiText(s) && s != [] && TextAt(src, j, EscapedText(s))
    ensures AsciiText(s[1..]) && |EscapedText(s)| == |Escaped(s[0])| + |EscapedText(s[1..])|
    ensures TextAt(src, j, Escaped(s[0])) && TextAt(src, j + |Escaped(s[0])|, EscapedText(s[1..]))
  {
    var a, b := Escaped(s[0]), EscapedText(s[1..]);
    assert EscapedText(s) == a + b;
    TextAtSplit(src, j, a, b);
  }

  /** The escaped text of a whole string, as `parse_string` reads it: from `j` to `k` it appends `s` to `acc`. */
  lemma {:induction false} EscapedTextRead(src: Bytes, j: nat, acc: Bytes, s: Bytes, k: nat, acc': Bytes)
    requires AsciiText(s) && TextAt(src, j, EscapedText(s))
    requires k == j + |EscapedText(s)| && acc' == acc + s
    ensures StringBody(src, j, acc) == StringBody(src, k, acc')
    decreases |s|
  {
    if s == [] {
      assert acc + s == acc;
    } else {
      var a := Escaped(s[0]);
      EscapedTextLayout(src, j, s);
      AppendHead(acc, s);
      EscapedTextRead(src, j + |a|, acc + [s[0]], s[1..], k, acc');
      EscapedRead(src, j, acc, s[0]);
    }
  }

  /** `parse_string` reads back what `convert_string` wrote, wherever it stands in the source. */
  lemma QuotedRead(src: Bytes, i: nat, s: Bytes, strtod: Strtod)
    requires AsciiText(s) && TextAt(src, i, Quoted(s))
    ensures ParseValue(src, i, strtod) == Ok(Parsed(AString(s), i + |Quoted(s)|))
  {
    QuotedString(src, i, s);
  }

  /** The string from the opening quote written by `convert_string` is the string written. */
  lemma {:induction false} QuotedString(src: Bytes, i: nat, s: Bytes)
    requires AsciiText(s) && TextAt(src, i, Quoted(s))
    ensures i < |src| && src[i] == '\"'
    ensures ParseString(src, i) == Ok(Parsed(AString(s), i + |Quoted(s)|))
  {
    var q := i + 1 + |EscapedText(s)|;
    QuotedLayout(src, i, s);
    ClosingQuote(src, q, s);
    AppendNothing(s);
    EscapedTextRead(src, i + 1, [], s, q, s);
    StringOfBody(src, i, s, q + 1);
  }

  /** `parse_string(element)` stores the string its loop read. */
  lemma StringOfBody(src: Bytes, i: nat, s: Bytes, k: nat)
    requires i < |src| && StringBody(src, i + 1, []) == Ok(Parsed(s, k))
    ensures ParseString(src, i) == Ok(Parsed(AString(s), k))
  {
  }

  /** Where `convert_string`'s output stands: a quote, the escaped text, a quote. */
  lemma {:induction false} QuotedLayout(src: Bytes, i: nat, s: Bytes)
    requires AsciiText(s) && TextAt(src, i, Quoted(s))
    ensures i + 1 + |EscapedText(s)| < |src| && |Quoted(s)| == 2 + |EscapedText(s)|
    ensures src[i] == '\"' && src[i + 1 + |EscapedText(s)|] == '\"'
    ensures TextAt(src, i + 1, EscapedText(s))
  {
    var e := EscapedText(s);
    TextAtSplit(src, i, "\"" + e, "\"");
    TextAtSplit(src, i, "\"", e);
  }

  /** A closing quote ends the string read so far. */
  lemma ClosingQuote(src: Bytes, q: nat, acc: Bytes)
    requires q < |src| && src[q] == '\"'
    ensures StringBody(src, q, acc) == Ok(Parsed(acc, q + 1))
  {
  }
}
