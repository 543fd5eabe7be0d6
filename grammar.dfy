/// What `value_parse` of json.hpp accepts and builds, as functions of the
/// source text and a cursor position in it.
///
/// The cursor is an index into `json_source`. Reading `*it` at the end of the
/// string yields the terminating NUL of the `std::string` buffer, which is
/// what `Peek` returns there. `strtod` is a parameter: the model never computes
/// with floating point.
module JsonGrammar {
  import opened JsonValue
  import opened JsonValueFacts

  /** `error_number` */
  datatype ErrorCode =
    | ParseOk
    | ExpectValue
    | InvalidValue
    | RootNotSingular
    | NumberOverflow
    | MissQuotationMark
    | InvalidStringChar
    | InvalidStringEscape
    | InvalidUnicodeHex
    | InvalidUnicodeSurrogate
    | MissCommaOrSquareBraket
    | MissKey
    | MissColon
    | MissCommaOrCurlyBracket

  datatype Result<T> = Ok(value: T) | Err(code: ErrorCode)

  /** A value read from the source, and the cursor just after it. */
  datatype Parsed<T> = Parsed(value: T, end: nat)

  /** What `strtod` makes of the text from the cursor on: a `double`, or `ERANGE` with `HUGE_VAL`. */
  datatype Conversion = Converted(d: Double) | Overflow

  type Strtod = Bytes -> Conversion

  /**
   * What a successful parse stores into its target `Value` through one of the
   * assignment operators (or `clear()` for `null`).
   */
  datatype Assignment =
    | ANull
    | ABool(b: bool)
    | ANumber(d: Double)
    | AString(s: Bytes)
    | AArray(items: seq<Value>)
    | AObject(members: seq<Member>)

  /** The target after the assignment; stale payloads of the target survive as in `JsonValue`. */
  function Apply(v: Value, a: Assignment): Value
  {
    match a
    case ANull => Clear(v)
    case ABool(b) => AssignBool(v, b)
    case ANumber(d) => AssignDouble(v, d)
    case AString(s) => AssignString(v, s)
    case AArray(items) => AssignArray(v, items)
    case AObject(members) => AssignObject(v, members)
  }

  /** A nested value: the assignment made to a fresh `Value tmp_element`. */
  function Element(a: Assignment): Value
  {
    Apply(Default(), a)
  }

  /** Every container an assignment carries keeps the `std::map` invariant. */
  ghost predicate AssignmentWellFormed(a: Assignment)
  {
    match a
    case AArray(items) => forall k :: 0 <= k < |items| ==> WellFormed(items[k])
    case AObject(members) => Sorted(members) && MembersWellFormed(members)
    case _ => true
  }

  // ---------------------------------------------------------------------------
  // Characters

  /** `*it`: the byte under the cursor, or the terminating NUL at the end. */
  function Peek(src: Bytes, i: nat): (c: Byte)
    ensures c != '\0' ==> i < |src| && c == src[i]
  {
    if i < |src| then src[i] else '\0'
  }

  /** `ISDIGIT` */
  predicate IsDigit(c: Byte)
  {
    '0' <= c <= '9'
  }

  /** `ISDIGIT1TO9` */
  predicate IsDigit1To9(c: Byte)
  {
    '1' <= c <= '9'
  }

  predicate IsHexDigit(c: Byte)
  {
    '0' <= c <= '9' || 'a' <= c <= 'f' || 'A' <= c <= 'F'
  }

  function HexDigitValue(c: Byte): (d: nat)
    requires IsHexDigit(c)
    ensures d < 16
  {
    if '0' <= c <= '9' then c as int - '0' as int
    else if 'a' <= c <= 'f' then c as int - 'a' as int + 10
    else c as int - 'A' as int + 10
  }

  /** `ch < 0x20` on a signed `char`: control characters and every byte from 0x80 on. */
  predicate SignedBelowSpace(c: Byte)
  {
    c as int < 0x20 || c as int >= 0x80
  }

  // ---------------------------------------------------------------------------
  // skip_blank and literals

  /** `skip_blank()`: the cursor after the run of spaces (only ' ' counts as blank). */
  function SkipBlank(src: Bytes, i: nat): (j: nat)
    requires i <= |src|
    ensures i <= j <= |src|
    ensures j == |src| || src[j] != ' '
    decreases |src| - i
  {
    if i < |src| && src[i] == ' ' then SkipBlank(src, i + 1) else i
  }

  /** What `SkipBlank` passes over is spaces only. */
  lemma {:induction false} SkipBlankSpaces(src: Bytes, i: nat)
    requires i <= |src|
    ensures forall k :: i <= k < SkipBlank(src, i) ==> src[k] == ' '
    decreases |src| - i
  {
    if i < |src| && src[i] == ' ' {
      SkipBlankSpaces(src, i + 1);
    }
  }

  /** `strncmp(&*it, dst, strlen(dst)) == 0` for a literal without NUL bytes. */
  predicate LiteralAt(src: Bytes, i: nat, lit: Bytes)
  {
    i + |lit| <= |src| && src[i..i + |lit|] == lit
  }

  /** `parse_literal` */
  function ParseLiteral(src: Bytes, i: nat, lit: Bytes, a: Assignment): (r: Result<Parsed<Assignment>>)
    requires |lit| > 0
    ensures r.Ok? <==> LiteralAt(src, i, lit)
    ensures r.Ok? ==> r.value == Parsed(a, i + |lit|)
    ensures r.Err? ==> r.code == InvalidValue
  {
    if LiteralAt(src, i, lit) then Ok(Parsed(a, i + |lit|)) else Err(InvalidValue)
  }

  // ---------------------------------------------------------------------------
  // parse_number

  /** The digit loops of `parse_number`: the cursor moves from `j` past every decimal digit. */
  function SkipDigits(src: Bytes, j: nat): (k: nat)
    requires j <= |src|
    ensures j <= k <= |src|
    ensures forall m :: j <= m < k ==> IsDigit(src[m])
    ensures !IsDigit(Peek(src, k))
    decreases |src| - j
  {
    if j < |src| && IsDigit(src[j]) then SkipDigits(src, j + 1) else j
  }

  /** The integer part at `a`: a single `0`, or a non-zero digit and the digits after it. */
  function IntegerPart(src: Bytes, a: nat): (r: Option<nat>)
    requires a <= |src|
    ensures r.Some? ==> a < r.value <= |src|
  {
    if Peek(src, a) == '0' then Some(a + 1)
    else if IsDigit1To9(Peek(src, a)) then Some(SkipDigits(src, a + 1))
    else None
  }

  /** The optional fraction at `b`: a `.` must be followed by at least one digit. */
  function FractionPart(src: Bytes, b: nat): (r: Option<nat>)
    requires b <= |src|
    ensures r.Some? ==> b <= r.value <= |src|
  {
    if Peek(src, b) != '.' then Some(b)
    else if IsDigit(Peek(src, b + 1)) then Some(SkipDigits(src, b + 2))
    else None
  }

  /** The optional exponent at `c`: `e` or `E`, an optional sign, then at least one digit. */
  function ExponentPart(src: Bytes, c: nat): (r: Option<nat>)
    requires c <= |src|
    ensures r.Some? ==> c <= r.value <= |src|
  {
    if Peek(src, c) != 'e' && Peek(src, c) != 'E' then Some(c)
    else
      var d := if Peek(src, c + 1) == '-' || Peek(src, c + 1) == '+' then c + 2 else c + 1;
      if IsDigit(Peek(src, d)) then Some(SkipDigits(src, d + 1)) else None
  }

  /** The scan of `parse_number` with `tmp_it`: the end of the number lexeme, or `None` for `PARSE_INVALID_VALUE`. */
  function ScanNumber(src: Bytes, i: nat): (r: Option<nat>)
    requires i <= |src|
    ensures r.Some? ==> i < r.value <= |src|
  {
    var a := if Peek(src, i) == '-' then i + 1 else i;
    match IntegerPart(src, a)
    case None => None
    case Some(b) =>
      match FractionPart(src, b)
      case None => None
      case Some(c) => ExponentPart(src, c)
  }

  /**
   * `parse_number`: scan, then convert with `strtod` from the cursor on (it reads
   * the whole rest of the buffer, not only the scanned lexeme), then move the
   * cursor to the end of the scanned lexeme.
   */
  function ParseNumber(src: Bytes, i: nat, strtod: Strtod): (r: Result<Parsed<Assignment>>)
    requires i <= |src|
    ensures r.Ok? <==> ScanNumber(src, i).Some? && strtod(src[i..]).Converted?
    ensures r.Ok? ==> r.value == Parsed(ANumber(strtod(src[i..]).d), ScanNumber(src, i).value)
    ensures r.Err? ==> r.code == (if ScanNumber(src, i).None? then InvalidValue else NumberOverflow)
  {
    match ScanNumber(src, i)
    case None => Err(InvalidValue)
    case Some(e) =>
      match strtod(src[i..])
      case Overflow => Err(NumberOverflow)
      case Converted(d) => Ok(Parsed(ANumber(d), e))
  }

  // ---------------------------------------------------------------------------
  // parse_hex4, surrogates and encode_utf8

  function Pow16(n: nat): (p: nat)
    ensures p > 0
  {
    if n == 0 then 1 else 16 * Pow16(n - 1)
  }

  predicate AllHex(s: Bytes)
  {
    forall k :: 0 <= k < |s| ==> IsHexDigit(s[k])
  }

  /** The number written by hexadecimal digits, most significant first. */
  function HexNumber(s: Bytes): (n: nat)
    requires AllHex(s)
    ensures n < Pow16(|s|)
  {
    if |s| == 0 then 0
    else
      var d, p := HexDigitValue(s[0]), Pow16(|s| - 1);
      MulLeft(d, 15, p);
      d * p + HexNumber(s[1..])
  }

  lemma MulLeft(a: nat, b: nat, c: nat)
    requires a <= b
    ensures a * c <= b * c
  {
  }

  /** `parse_hex4` after `k` of its four digits, with `u` read so far and the cursor at `j`. */
  function HexFrom(src: Bytes, j: nat, k: nat, u: nat): (r: Result<Parsed<nat>>)
    requires j <= |src| && k <= 4
    ensures r.Ok? ==> r.value.end == j + (4 - k)
    ensures r.Err? ==> r.code == MissQuotationMark || r.code == InvalidUnicodeHex
    decreases 4 - k
  {
    if k == 4 then Ok(Parsed(u, j))
    else if j == |src| then Err(MissQuotationMark)
    else if !IsHexDigit(src[j]) then Err(InvalidUnicodeHex)
    else HexFrom(src, j + 1, k + 1, u * 16 + HexDigitValue(src[j]))
  }

  /** `parse_hex4` succeeds exactly when the rest of its four digits are there and are hexadecimal. */
  lemma {:induction false} HexFromOk(src: Bytes, j: nat, k: nat, u: nat)
    requires j <= |src| && k <= 4
    ensures HexFrom(src, j, k, u).Ok? <==> j + (4 - k) <= |src| && AllHex(src[j..j + (4 - k)])
    decreases 4 - k
  {
    if k < 4 && j < |src| {
      if IsHexDigit(src[j]) {
        HexFromOk(src, j + 1, k + 1, u * 16 + HexDigitValue(src[j]));
        if j + (4 - k) <= |src| {
          var s, t := src[j..j + (4 - k)], src[j + 1..j + (4 - k)];
          assert s[0] == src[j];
          assert forall i :: 0 <= i < |t| ==> t[i] == s[i + 1];
        }
      }
    }
  }

  /** The digits `parse_hex4` reads are accumulated most significant first. */
  lemma {:induction false} HexFromValue(src: Bytes, j: nat, k: nat, u: nat)
    requires j <= |src| && k <= 4 && HexFrom(src, j, k, u).Ok?
    requires j + (4 - k) <= |src| && AllHex(src[j..j + (4 - k)])
    ensures HexFrom(src, j, k, u).value.value == u * Pow16(4 - k) + HexNumber(src[j..j + (4 - k)])
    decreases 4 - k
  {
    if k < 4 {
      var d := HexDigitValue(src[j]);
      HexFromOk(src, j + 1, k + 1, u * 16 + d);
      HexFromValue(src, j + 1, k + 1, u * 16 + d);
      HexFromStep(src, j, k, u, d);
    }
  }

  lemma HexFromStep(src: Bytes, j: nat, k: nat, u: nat, d: nat)
    requires j < |src| && k < 4 && IsHexDigit(src[j]) && d == HexDigitValue(src[j])
    requires j + (4 - k) <= |src| && AllHex(src[j + 1..j + 1 + (4 - (k + 1))])
    ensures AllHex(src[j..j + (4 - k)])
    ensures (u * 16 + d) * Pow16(4 - (k + 1)) + HexNumber(src[j + 1..j + 1 + (4 - (k + 1))])
         == u * Pow16(4 - k) + HexNumber(src[j..j + (4 - k)])
  {
    var s := src[j..j + (4 - k)];
    assert s[0] == src[j] && s[1..] == src[j + 1..j + 1 + (4 - (k + 1))];
    var p := Pow16(3 - k);
    assert Pow16(4 - k) == 16 * p;
    assert (u * 16 + d) * p == u * (16 * p) + d * p;
  }

  /** Each round of the loop of `parse_hex4` reads one digit, or stops at the end of the source or at a non-digit. */
  lemma HexFromRound(src: Bytes, j: nat, k: nat, u: nat)
    requires j <= |src| && k < 4
    ensures j == |src| ==> HexFrom(src, j, k, u) == Err(MissQuotationMark)
    ensures j < |src| && !IsHexDigit(src[j]) ==> HexFrom(src, j, k, u) == Err(InvalidUnicodeHex)
    ensures j < |src| && IsHexDigit(src[j]) ==>
      HexFrom(src, j, k, u) == HexFrom(src, j + 1, k + 1, u * 16 + HexDigitValue(src[j]))
  {
  }

  /** `parse_hex4` from the cursor `j` (just after `\u`): four hex digits, read most significant first. */
  function Hex4(src: Bytes, j: nat): (r: Result<Parsed<nat>>)
    requires j <= |src|
    ensures r.Ok? <==> j + 4 <= |src| && AllHex(src[j..j + 4])
    ensures r.Ok? ==> r.value.end == j + 4 && r.value.value == HexNumber(src[j..j + 4]) && r.value.value < 0x10000
    ensures r.Err? ==> r.code == MissQuotationMark || r.code == InvalidUnicodeHex
  {
    var r := HexFrom(src, j, 0, 0);
    HexFromOk(src, j, 0, 0);
    if r.Ok? then HexFromValue(src, j, 0, 0); r else r
  }

  /** The code point of a UTF-16 surrogate pair. */
  function CombineSurrogates(hi: nat, lo: nat): (u: nat)
    requires 0xD800 <= hi <= 0xDBFF && 0xDC00 <= lo <= 0xDFFF
    ensures 0x10000 <= u <= 0x10FFFF
    ensures (u - 0x10000) / 0x400 == hi - 0xD800 && (u - 0x10000) % 0x400 == lo - 0xDC00
  {
    0x10000 + (hi - 0xD800) * 0x400 + (lo - 0xDC00)
  }

  /** The last check of the `\u` escape: a code point above U+10FFFF is refused. */
  function CheckCodePoint(u: nat, end: nat): (r: Result<Parsed<nat>>)
    ensures r.Ok? <==> u <= 0x10FFFF
    ensures r.Ok? ==> r.value == Parsed(u, end)
    ensures r.Err? ==> r.code == InvalidUnicodeHex
  {
    if u > 0x10FFFF then Err(InvalidUnicodeHex) else Ok(Parsed(u, end))
  }

  /**
   * The `\u` escape with the cursor `j` just after `\u`: four hex digits, and
   * after a high surrogate a second `\u` escape holding a low surrogate. A low
   * surrogate on its own is let through.
   */
  function UnicodeEscape(src: Bytes, j: nat): (r: Result<Parsed<nat>>)
    requires j <= |src|
    ensures r.Ok? ==> j + 4 <= r.value.end <= |src| && r.value.value <= 0x10FFFF
    ensures r.Ok? ==> !(0xD800 <= r.value.value <= 0xDBFF)
    ensures r.Err? ==> r.code in {MissQuotationMark, InvalidUnicodeHex, InvalidUnicodeSurrogate}
  {
    match Hex4(src, j)
    case Err(e) => Err(e)
    case Ok(Parsed(hi, k)) =>
      if 0xD800 <= hi <= 0xDBFF then
        if k >= |src| then Err(MissQuotationMark)
        else if src[k] != '\\' then Err(InvalidUnicodeSurrogate)
        else if k + 1 == |src| then Err(MissQuotationMark)
        else if src[k + 1] != 'u' then Err(InvalidUnicodeSurrogate)
        else
          match Hex4(src, k + 2)
          case Err(e) => Err(e)
          case Ok(Parsed(lo, m)) =>
            if lo < 0xDC00 || lo > 0xDFFF then Err(InvalidUnicodeSurrogate)
            else CheckCodePoint(CombineSurrogates(hi, lo), m)
      else CheckCodePoint(hi, k)
  }

  /** `encode_utf8`: the UTF-8 bytes of a code point. */
  function Utf8(u: nat): (r: Bytes)
    requires u <= 0x10FFFF
  {
    if u <= 0x7F then [u as char]
    else if u <= 0x7FF then
      [(0xC0 + u / 0x40) as char, (0x80 + u % 0x40) as char]
    else if u <= 0xFFFF then
      [(0xE0 + u / 0x1000) as char, (0x80 + u / 0x40 % 0x40) as char, (0x80 + u % 0x40) as char]
    else
      [(0xF0 + u / 0x40000) as char, (0x80 + u / 0x1000 % 0x40) as char,
       (0x80 + u / 0x40 % 0x40) as char, (0x80 + u % 0x40) as char]
  }

  // ---------------------------------------------------------------------------
  // parse_string

  /** The byte a one-letter escape after `\` stands for. */
  function Unescape(e: Byte): Option<Byte>
  {
    match e
    case '\"' => Some('\"')
    case 'n' => Some('\n')
    case 'r' => Some('\r')
    case 't' => Some('\t')
    case 'f' => Some(12 as char)
    case 'b' => Some(8 as char)
    case '/' => Some('/')
    case '\\' => Some('\\')
    case _ => None
  }

  /** The escape after a `\\` with the cursor `j` after it: what it appends to `acc`, and the cursor after it. */
  function Escape(src: Bytes, j: nat, acc: Bytes): (r: Result<Parsed<Bytes>>)
    requires j <= |src|
    ensures r.Ok? ==> j < r.value.end <= |src|
    ensures r.Err? ==> StringError(r.code)
  {
    if j == |src| then Err(MissQuotationMark)
    else if Unescape(src[j]).Some? then Ok(Parsed(acc + [Unescape(src[j]).value], j + 1))
    else if src[j] == 'u' then
      match UnicodeEscape(src, j + 1)
      case Err(e) => Err(e)
      case Ok(Parsed(u, k)) => Ok(Parsed(acc + Utf8(u), k))
    else Err(InvalidStringEscape)
  }

  /**
   * The loop of `parse_string(tmp_str, tmp_it)` with the cursor `j` after the
   * opening quote and `acc` read so far; on success, the string and the cursor
   * after the closing quote.
   */
  function StringBody(src: Bytes, j: nat, acc: Bytes): (r: Result<Parsed<Bytes>>)
    requires j <= |src|
    ensures r.Ok? ==> j < r.value.end <= |src| && src[r.value.end - 1] == '\"'
    ensures r.Err? ==> StringError(r.code)
    decreases |src| - j, 1
  {
    if j == |src| then Err(MissQuotationMark)
    else
      var ch := src[j];
      if ch == '\"' then Ok(Parsed(acc, j + 1))
      else if ch == '\\' then EscapeThen(src, j + 1, acc)
      else if ch == '\0' then Err(MissQuotationMark)
      else if SignedBelowSpace(ch) then Err(InvalidStringChar)
      else StringBody(src, j + 1, acc + [ch])
  }

  /** The escape after a backslash, with the cursor `j` after it, and then the rest of the loop of `parse_string`. */
  function EscapeThen(src: Bytes, j: nat, acc: Bytes): (r: Result<Parsed<Bytes>>)
    requires j <= |src|
    ensures r.Ok? ==> j < r.value.end <= |src| && src[r.value.end - 1] == '\"'
    ensures r.Err? ==> StringError(r.code)
    decreases |src| - j, 0
  {
    match Escape(src, j, acc)
    case Err(e) => Err(e)
    case Ok(Parsed(s, k)) => StringBody(src, k, s)
  }

  /** The codes `parse_string(tmp_str, tmp_it)` can return besides `PARSE_OK`. */
  predicate StringError(e: ErrorCode)
  {
    e in {MissQuotationMark, InvalidStringChar, InvalidStringEscape, InvalidUnicodeHex, InvalidUnicodeSurrogate}
  }

  /** `parse_value` fails with any code but `PARSE_OK` and `PARSE_ROOT_NOT_SINGULAR`. */
  predicate ValueError(e: ErrorCode)
  {
    e != ParseOk && e != RootNotSingular
  }

  /** `parse_string(element)`: the string from the opening quote at `i`. */
  function ParseString(src: Bytes, i: nat): (r: Result<Parsed<Assignment>>)
    requires i < |src|
    ensures r.Ok? ==> i + 1 < r.value.end <= |src| && r.value.value.AString?
    ensures r.Err? ==> StringError(r.code)
  {
    match StringBody(src, i + 1, [])
    case Err(e) => Err(e)
    case Ok(Parsed(s, k)) => Ok(Parsed(AString(s), k))
  }

  // ---------------------------------------------------------------------------
  // parse_value, parse_array and parse_object

  /** `parse_value()` with the cursor at `i`. */
  function ParseValue(src: Bytes, i: nat, strtod: Strtod): (r: Result<Parsed<Assignment>>)
    requires i <= |src|
    ensures r.Ok? ==> i < r.value.end <= |src| && AssignmentWellFormed(r.value.value)
    ensures r.Err? ==> ValueError(r.code)
    decreases |src| - i, 1
  {
    if i == |src| then Err(ExpectValue)
    else
      match src[i]
      case 'n' => ParseLiteral(src, i, "null", ANull)
      case 't' => ParseLiteral(src, i, "true", ABool(true))
      case 'f' => ParseLiteral(src, i, "false", ABool(false))
      case '[' => ParseArray(src, i, strtod)
      case '{' => ParseObject(src, i, strtod)
      case '\"' => ParseString(src, i)
      case '\0' => Err(ExpectValue)
      case c =>
        if c == '-' || IsDigit(c) then ParseNumber(src, i, strtod) else Err(InvalidValue)
  }

  /** `parse_array()` with the cursor on `[`. */
  function ParseArray(src: Bytes, i: nat, strtod: Strtod): (r: Result<Parsed<Assignment>>)
    requires i < |src|
    ensures r.Ok? ==> i < r.value.end <= |src| && r.value.value.AArray? && AssignmentWellFormed(r.value.value)
    ensures r.Err? ==> ValueError(r.code)
    decreases |src| - i, 0
  {
    var j := SkipBlank(src, i + 1);
    if Peek(src, j) == ']' then Ok(Parsed(AArray([]), j + 1))
    else ArrayItems(src, j, [], strtod)
  }

  /**
   * The `while (it != json_source.end())` loop of `parse_array` with the cursor
   * at `j` and the elements pushed so far; the end of the source ends the
   * array without a closing bracket.
   */
  function ArrayItems(src: Bytes, j: nat, acc: seq<Value>, strtod: Strtod): (r: Result<Parsed<Assignment>>)
    requires j <= |src|
    requires forall k :: 0 <= k < |acc| ==> WellFormed(acc[k])
    ensures r.Ok? ==> j <= r.value.end <= |src| && r.value.value.AArray? && AssignmentWellFormed(r.value.value)
    ensures r.Err? ==> ValueError(r.code)
    decreases |src| - j, 2
  {
    if j == |src| then Ok(Parsed(AArray(acc), j))
    else
      match ParseValue(src, SkipBlank(src, j), strtod)
      case Err(e) => Err(e)
      case Ok(Parsed(a, e)) =>
        ElementWellFormed(a);
        ArrayAfterElement(src, SkipBlank(src, e), acc + [Element(a)], strtod)
  }

  /** The rest of a round of the loop of `parse_array` once an element is pushed: `,` goes on, `]` ends. */
  function ArrayAfterElement(src: Bytes, m: nat, acc: seq<Value>, strtod: Strtod): (r: Result<Parsed<Assignment>>)
    requires m <= |src|
    requires forall k :: 0 <= k < |acc| ==> WellFormed(acc[k])
    ensures r.Ok? ==> m < r.value.end <= |src| && r.value.value.AArray? && AssignmentWellFormed(r.value.value)
    ensures r.Err? ==> ValueError(r.code)
    ensures Peek(src, m) == ']' ==> r == Ok(Parsed(AArray(acc), m + 1))
    ensures Peek(src, m) != ',' && Peek(src, m) != ']' ==> r == Err(MissCommaOrSquareBraket)
    decreases |src| - m, 3
  {
    if Peek(src, m) == ',' then ArrayItems(src, m + 1, acc, strtod)
    else if Peek(src, m) == ']' then Ok(Parsed(AArray(acc), m + 1))
    else Err(MissCommaOrSquareBraket)
  }

  /** A round of the loop of `parse_array` whose value parses continues after the value. */
  lemma ArrayItemsRound(src: Bytes, j: nat, acc: seq<Value>, strtod: Strtod, a: Assignment, e: nat, acc': seq<Value>)
    requires j < |src| && forall k :: 0 <= k < |acc| ==> WellFormed(acc[k])
    requires ParseValue(src, SkipBlank(src, j), strtod) == Ok(Parsed(a, e))
    requires acc' == acc + [Element(a)] && forall k :: 0 <= k < |acc'| ==> WellFormed(acc'[k])
    ensures ArrayItems(src, j, acc, strtod) == ArrayAfterElement(src, SkipBlank(src, e), acc', strtod)
  {
  }

  /** After a `,` the loop of `parse_array` starts its next round. */
  lemma ArrayAfterComma(src: Bytes, m: nat, acc: seq<Value>, strtod: Strtod)
    requires m < |src| && src[m] == ',' && forall k :: 0 <= k < |acc| ==> WellFormed(acc[k])
    ensures ArrayAfterElement(src, m, acc, strtod) == ArrayItems(src, m + 1, acc, strtod)
  {
  }

  /** A round of the loop of `parse_array` whose value fails ends the array with that failure. */
  lemma ArrayItemsFails(src: Bytes, j: nat, acc: seq<Value>, strtod: Strtod)
    requires j < |src| && forall k :: 0 <= k < |acc| ==> WellFormed(acc[k])
    requires ParseValue(src, SkipBlank(src, j), strtod).Err?
    ensures ArrayItems(src, j, acc, strtod) == ParseValue(src, SkipBlank(src, j), strtod)
  {
  }

  /** `parse_object()` with the cursor on `{`; an empty object leaves the cursor on `}`. */
  function ParseObject(src: Bytes, i: nat, strtod: Strtod): (r: Result<Parsed<Assignment>>)
    requires i < |src|
    ensures r.Ok? ==> i < r.value.end <= |src| && r.value.value.AObject? && AssignmentWellFormed(r.value.value)
    ensures r.Err? ==> ValueError(r.code)
    decreases |src| - i, 0
  {
    var j := SkipBlank(src, i + 1);
    if Peek(src, j) == '}' then Ok(Parsed(AObject([]), j))
    else ObjectMembers(src, j, [], strtod)
  }

  /** The `for (;;)` loop of `parse_object` from the cursor `j`, with the members inserted so far. */
  function ObjectMembers(src: Bytes, j: nat, acc: seq<Member>, strtod: Strtod): (r: Result<Parsed<Assignment>>)
    requires j <= |src|
    requires Sorted(acc) && MembersWellFormed(acc)
    ensures r.Ok? ==> j < r.value.end <= |src| && r.value.value.AObject? && AssignmentWellFormed(r.value.value)
    ensures r.Err? ==> ValueError(r.code)
    decreases |src| - j, 2
  {
    match MemberKey(src, j)
    case Err(e) => Err(e)
    case Ok(Parsed(key, v)) =>
      match ParseValue(src, v, strtod)
      case Err(e) => Err(e)
      case Ok(Parsed(a, e)) =>
        ElementWellFormed(a);
        InsertSorted(acc, key, Element(a));
        InsertMembersWellFormed(acc, key, Element(a));
        ObjectAfterMember(src, SkipBlank(src, e), Insert(acc, key, Element(a)), strtod)
  }

  /**
   * The end of a round of the loop of `parse_object`, with the cursor `m` after
   * the blanks that follow the member's value: `}` ends the object, `,` starts
   * the next round.
   */
  function ObjectAfterMember(src: Bytes, m: nat, acc: seq<Member>, strtod: Strtod): (r: Result<Parsed<Assignment>>)
    requires m <= |src|
    requires Sorted(acc) && MembersWellFormed(acc)
    ensures r.Ok? ==> m < r.value.end <= |src| && r.value.value.AObject? && AssignmentWellFormed(r.value.value)
    ensures r.Err? ==> ValueError(r.code)
    ensures m == |src| ==> r == Err(MissQuotationMark)
    ensures m < |src| && src[m] == '}' ==> r == Ok(Parsed(AObject(acc), m + 1))
    ensures m < |src| && src[m] != '}' && src[m] != ',' ==> r == Err(MissCommaOrCurlyBracket)
    decreases |src| - m, 3
  {
    if m == |src| then Err(MissQuotationMark)
    else if src[m] == '}' then Ok(Parsed(AObject(acc), m + 1))
    else if src[m] == ',' then ObjectMembers(src, m + 1, acc, strtod)
    else Err(MissCommaOrCurlyBracket)
  }

  /** A comma after a member's value starts the next round of the loop of `parse_object`. */
  lemma ObjectAfterComma(src: Bytes, m: nat, acc: seq<Member>, strtod: Strtod)
    requires m < |src| && src[m] == ',' && Sorted(acc) && MembersWellFormed(acc)
    ensures ObjectAfterMember(src, m, acc, strtod) == ObjectMembers(src, m + 1, acc, strtod)
  {
  }

  /** A round of the loop of `parse_object` whose key and value parse continues after the value. */
  lemma ObjectMembersRound(src: Bytes, j: nat, acc: seq<Member>, strtod: Strtod, key: Bytes, v: nat, a: Assignment, e: nat, acc': seq<Member>)
    requires j <= |src| && Sorted(acc) && MembersWellFormed(acc)
    requires MemberKey(src, j) == Ok(Parsed(key, v))
    requires ParseValue(src, v, strtod) == Ok(Parsed(a, e))
    requires acc' == Insert(acc, key, Element(a)) && Sorted(acc') && MembersWellFormed(acc')
    ensures ObjectMembers(src, j, acc, strtod) == ObjectAfterMember(src, SkipBlank(src, e), acc', strtod)
  {
  }

  /**
   * The start of a round of `parse_object`: blanks, the quoted key, blanks, the
   * colon and blanks; the key and the cursor on the first byte of the value.
   * A key that is not a well-formed string is reported as a missing key.
   */
  function MemberKey(src: Bytes, j: nat): (r: Result<Parsed<Bytes>>)
    requires j <= |src|
    ensures r.Ok? ==> j < r.value.end < |src|
    ensures r.Err? ==> r.code in {MissQuotationMark, MissKey, MissColon}
    ensures SkipBlank(src, j) == |src| ==> r == Err(MissQuotationMark)
    ensures SkipBlank(src, j) < |src| && src[SkipBlank(src, j)] != '\"' ==> r == Err(MissKey)
    ensures SkipBlank(src, j) < |src| && src[SkipBlank(src, j)] == '\"' && StringBody(src, SkipBlank(src, j) + 1, []).Err? ==>
      r == Err(MissKey)
    ensures r.Ok? ==>
      var k := SkipBlank(src, j);
      k < |src| && src[k] == '\"' && StringBody(src, k + 1, []).Ok? &&
      var body := StringBody(src, k + 1, []).value;
      var c := SkipBlank(src, body.end);
      r.value.value == body.value && c < |src| && src[c] == ':' && r.value.end == SkipBlank(src, c + 1)
    ensures r.Err? && r.code == MissColon ==>
      var k := SkipBlank(src, j);
      k < |src| && src[k] == '\"' && StringBody(src, k + 1, []).Ok? &&
      var c := SkipBlank(src, StringBody(src, k + 1, []).value.end);
      c < |src| && src[c] != ':'
  {
    var k := SkipBlank(src, j);
    if k == |src| then Err(MissQuotationMark)
    else if src[k] != '\"' then Err(MissKey)
    else
      match StringBody(src, k + 1, [])
      case Err(_) => Err(MissKey)
      case Ok(Parsed(key, ke)) =>
        var c := SkipBlank(src, ke);
        if c == |src| then Err(MissQuotationMark)
        else if src[c] != ':' then Err(MissColon)
        else
          var v := SkipBlank(src, c + 1);
          if v == |src| then Err(MissQuotationMark)
          else Ok(Parsed(key, v))
  }

  /** A well-formed assignment made to a fresh node gives a well-formed node. */
  lemma ElementWellFormed(a: Assignment)
    requires AssignmentWellFormed(a)
    ensures WellFormed(Element(a))
  {
  }

  /** An assignment keeps a node well-formed when what it carries is well-formed. */
  lemma ApplyWellFormed(v: Value, a: Assignment)
    requires WellFormed(v) && AssignmentWellFormed(a)
    ensures WellFormed(Apply(v, a))
  {
    ClearWellFormed(v);
    if a.AArray? {
      AssignArrayWellFormed(v, a.items);
    }
  }

  // ---------------------------------------------------------------------------
  // parse

  /** The parser's return code and the root `Value` afterwards. */
  datatype Outcome = Outcome(code: ErrorCode, root: Value)

  /**
   * `parse()` with the cursor at `i`: one value between blanks. On an error
   * the root is untouched; trailing text clears the root already assigned.
   */
  function Parse(src: Bytes, i: nat, root: Value, strtod: Strtod): (r: Outcome)
    requires i <= |src|
    ensures r.code != ParseOk && r.code != RootNotSingular ==> r.root == root
    ensures r.code == RootNotSingular ==> r.root.tag == Null
  {
    var j := SkipBlank(src, i);
    match ParseValue(src, j, strtod)
    case Err(e) => Outcome(e, root)
    case Ok(Parsed(a, e)) =>
      var v := Apply(root, a);
      if SkipBlank(src, e) != |src| then Outcome(RootNotSingular, Clear(v))
      else Outcome(ParseOk, v)
  }
}
