/// Properties of what `value_parse` accepts: the number grammar of section 6
/// of RFC 8259, the UTF-8 encoding of section 3 of RFC 3629, the surrogate
/// pairs of section 2.2 of RFC 2781, and the behaviour of the parser on whole
/// documents, including the places where json.hpp departs from RFC 8259.
module JsonGrammarFacts {
  import opened JsonValue
  import opened JsonValueFacts
  import opened JsonGrammar

  // ---------------------------------------------------------------------------
  // Numbers: `number = [ minus ] int [ frac ] [ exp ]` of RFC 8259 section 6,
  // written as spans of the source

  /** `1*DIGIT` over `src[x..y]`. */
  predicate DigitRun(src: Bytes, x: nat, y: nat)
  {
    x < y <= |src| && forall k :: x <= k < y ==> IsDigit(src[k])
  }

  /** `int = zero / ( digit1-9 *DIGIT )` over `src[x..y]`. */
  predicate IntSpan(src: Bytes, x: nat, y: nat)
  {
    x < y <= |src| &&
    ((src[x] == '0' && y == x + 1) || (IsDigit1To9(src[x]) && forall k :: x < k < y ==> IsDigit(src[k])))
  }

  /** `[ frac ]`, `frac = decimal-point 1*DIGIT`, over `src[x..y]`. */
  predicate FracSpan(src: Bytes, x: nat, y: nat)
  {
    y == x || (x < |src| && src[x] == '.' && DigitRun(src, x + 1, y))
  }

  /** `[ exp ]`, `exp = e [ minus / plus ] 1*DIGIT`, over `src[x..y]`. */
  predicate ExpSpan(src: Bytes, x: nat, y: nat)
  {
    y == x ||
    (x < |src| && (src[x] == 'e' || src[x] == 'E') &&
     (DigitRun(src, x + 1, y) || (x + 1 < |src| && (src[x + 1] == '+' || src[x + 1] == '-') && DigitRun(src, x + 2, y))))
  }

  /** `src[i..e]` is a `number` whose int part starts at `a`, fraction at `b` and exponent at `c`. */
  predicate NumberSpan(src: Bytes, i: nat, a: nat, b: nat, c: nat, e: nat)
  {
    i <= a <= b <= c <= e <= |src| &&
    (a == i || (a == i + 1 && src[i] == '-')) &&
    IntSpan(src, a, b) && FracSpan(src, b, c) && ExpSpan(src, c, e)
  }

  /** No byte at `e` could continue a number. */
  predicate NumberStops(src: Bytes, e: nat)
  {
    var c := Peek(src, e);
    !IsDigit(c) && c != '.' && c != 'e' && c != 'E'
  }

  /** `SkipDigits` stops exactly at the end of a run of digits. */
  lemma {:induction false} SkipDigitsRun(src: Bytes, x: nat, y: nat)
    requires x <= y <= |src| && (forall k :: x <= k < y ==> IsDigit(src[k])) && !IsDigit(Peek(src, y))
    ensures SkipDigits(src, x) == y
    decreases y - x
  {
    if x < y {
      SkipDigitsRun(src, x + 1, y);
    }
  }

  /** Every lexeme the scan of `parse_number` accepts is a `number` of RFC 8259. */
  lemma ScanNumberSound(src: Bytes, i: nat)
    requires i <= |src| && ScanNumber(src, i).Some?
    ensures exists a, b, c :: NumberSpan(src, i, a, b, c, ScanNumber(src, i).value)
  {
    var a := if Peek(src, i) == '-' then i + 1 else i;
    var b := IntegerPart(src, a).value;
    var c := FractionPart(src, b).value;
    assert NumberSpan(src, i, a, b, c, ScanNumber(src, i).value);
  }

  /** The integer part of a number is read whole (a leading `0` alone). */
  lemma IntegerPartSpan(src: Bytes, a: nat, b: nat)
    requires IntSpan(src, a, b) && (src[a] == '0' || !IsDigit(Peek(src, b)))
    ensures IntegerPart(src, a) == Some(b)
  {
    if src[a] != '0' {
      SkipDigitsRun(src, a + 1, b);
    }
  }

  /** A fraction is read whole when no digit follows it. */
  lemma FractionPartSpan(src: Bytes, b: nat, c: nat)
    requires b <= |src| && FracSpan(src, b, c) && !IsDigit(Peek(src, c)) && (c == b ==> Peek(src, b) != '.')
    ensures FractionPart(src, b) == Some(c)
  {
    if c > b {
      SkipDigitsRun(src, b + 2, c);
    }
  }

  /**
   * Every `number` of RFC 8259 that no further byte could extend is scanned
   * whole: the cursor of `parse_number` ends exactly after it.
   */
  lemma ScanNumberComplete(src: Bytes, i: nat, a: nat, b: nat, c: nat, e: nat)
    requires NumberSpan(src, i, a, b, c, e) && NumberStops(src, e)
    ensures ScanNumber(src, i) == Some(e)
  {
    assert IntegerPart(src, a) == Some(b) by {
      IntegerPartSpan(src, a, b);
    }
    assert FractionPart(src, b) == Some(c) by {
      FractionPartSpan(src, b, c);
    }
    ExponentPartSpan(src, c, e);
  }

  /** An exponent is read whole when no digit follows it. */
  lemma ExponentPartSpan(src: Bytes, c: nat, e: nat)
    requires c <= e <= |src| && ExpSpan(src, c, e) && NumberStops(src, e)
    ensures ExponentPart(src, c) == Some(e)
  {
    if e > c {
      var d := if Peek(src, c + 1) == '-' || Peek(src, c + 1) == '+' then c + 2 else c + 1;
      SkipDigitsRun(src, d + 1, e);
    }
  }

  /** A `-` that no digit follows is `PARSE_INVALID_VALUE`. */
  lemma MinusWithoutDigit(src: Bytes, i: nat, strtod: Strtod)
    requires i < |src| && src[i] == '-' && !IsDigit(Peek(src, i + 1))
    ensures ParseValue(src, i, strtod) == Err(InvalidValue)
  {
  }

  /** A decimal point that no digit follows is `PARSE_INVALID_VALUE`. */
  lemma PointWithoutDigit(src: Bytes, i: nat, a: nat, b: nat, strtod: Strtod)
    requires i < |src| && (a == i || (a == i + 1 && src[i] == '-')) && IntSpan(src, a, b)
    requires Peek(src, b) == '.' && !IsDigit(Peek(src, b + 1))
    ensures ParseValue(src, i, strtod) == Err(InvalidValue)
  {
    assert IntegerPart(src, a) == Some(b) by {
      IntegerPartSpan(src, a, b);
    }
    assert ScanNumber(src, i) == None;
    NumberDispatch(src, i, strtod);
  }

  /** An exponent marker, with or without a sign, that no digit follows is `PARSE_INVALID_VALUE`. */
  lemma ExponentWithoutDigit(src: Bytes, i: nat, a: nat, b: nat, c: nat, strtod: Strtod)
    requires i < |src| && (a == i || (a == i + 1 && src[i] == '-')) && IntSpan(src, a, b) && FracSpan(src, b, c)
    requires Peek(src, c) == 'e' || Peek(src, c) == 'E'
    requires var d := if Peek(src, c + 1) == '-' || Peek(src, c + 1) == '+' then c + 2 else c + 1;
      !IsDigit(Peek(src, d))
    ensures ParseValue(src, i, strtod) == Err(InvalidValue)
  {
    assert IntegerPart(src, a) == Some(b) by {
      IntegerPartSpan(src, a, b);
    }
    assert FractionPart(src, b) == Some(c) by {
      FractionPartSpan(src, b, c);
    }
    assert ScanNumber(src, i) == None;
    NumberDispatch(src, i, strtod);
  }

  /** A lookahead `-` or digit hands the value to `parse_number`. */
  lemma NumberDispatch(src: Bytes, i: nat, strtod: Strtod)
    requires i < |src| && (src[i] == '-' || IsDigit(src[i]))
    ensures ParseValue(src, i, strtod) == ParseNumber(src, i, strtod)
  {
    var c := src[i];
    assert c != 'n' && c != 't' && c != 'f' && c != '[' && c != '{' && c != '\"' && c != '\0';
  }

  // ---------------------------------------------------------------------------
  // encode_utf8: section 3 of RFC 3629

  /** A continuation byte `10xxxxxx`. */
  predicate Continuation(c: Byte)
  {
    0x80 <= c as int < 0xC0
  }

  /** The UTF-8 decoding of one character's bytes, by the pattern of its first byte. */
  function Utf8Decode(s: Bytes): Option<nat>
  {
    if |s| == 1 && s[0] as int < 0x80 then Some(s[0] as int)
    else if |s| == 2 && 0xC0 <= s[0] as int < 0xE0 && Continuation(s[1]) then
      Some((s[0] as int - 0xC0) * 0x40 + (s[1] as int - 0x80))
    else if |s| == 3 && 0xE0 <= s[0] as int < 0xF0 && Continuation(s[1]) && Continuation(s[2]) then
      Some((s[0] as int - 0xE0) * 0x1000 + (s[1] as int - 0x80) * 0x40 + (s[2] as int - 0x80))
    else if |s| == 4 && 0xF0 <= s[0] as int < 0xF8 && Continuation(s[1]) && Continuation(s[2]) && Continuation(s[3]) then
      Some((s[0] as int - 0xF0) * 0x40000 + (s[1] as int - 0x80) * 0x1000 + (s[2] as int - 0x80) * 0x40 + (s[3] as int - 0x80))
    else None
  }

  /**
   * `encode_utf8` writes 1, 2, 3 or 4 bytes for code points up to 0x7F, 0x7FF,
   * 0xFFFF and beyond, led by `0xxxxxxx`, `110xxxxx`, `1110xxxx` or `11110xxx`
   * and followed by continuation bytes.
   */
  lemma Utf8Shape(u: nat)
    requires u <= 0x10FFFF
    ensures var r := Utf8(u);
      && (u <= 0x7F ==> |r| == 1 && r[0] as int < 0x80)
      && (0x7F < u <= 0x7FF ==> |r| == 2 && 0xC0 <= r[0] as int < 0xE0)
      && (0x7FF < u <= 0xFFFF ==> |r| == 3 && 0xE0 <= r[0] as int < 0xF0)
      && (0xFFFF < u ==> |r| == 4 && 0xF0 <= r[0] as int < 0xF8)
      && forall k :: 1 <= k < |r| ==> Continuation(r[k])
  {
  }

  /** Decoding the bytes `encode_utf8` writes gives back the code point. */
  lemma Utf8RoundTrip(u: nat)
    requires u <= 0x10FFFF
    ensures Utf8Decode(Utf8(u)) == Some(u)
  {
    Utf8Shape(u);
    var q1, r0 := u / 0x40, u % 0x40;
    var q2, r1 := q1 / 0x40, q1 % 0x40;
    var q3, r2 := q2 / 0x40, q2 % 0x40;
    assert u == q1 * 0x40 + r0;
    assert q1 == q2 * 0x40 + r1;
    assert q2 == q3 * 0x40 + r2;
    assert u / 0x1000 == q2;
    assert u / 0x40000 == q3;
  }

  // ---------------------------------------------------------------------------
  // \u escapes and surrogate pairs: section 2.2 of RFC 2781

  /** Every code point above 0xFFFF is the combination of one surrogate pair, as section 2.2 of RFC 2781 encodes it. */
  lemma SurrogatePairOf(u: nat)
    requires 0x10000 <= u <= 0x10FFFF
    ensures var hi, lo := 0xD800 + (u - 0x10000) / 0x400, 0xDC00 + (u - 0x10000) % 0x400;
      0xD800 <= hi <= 0xDBFF && 0xDC00 <= lo <= 0xDFFF && CombineSurrogates(hi, lo) == u
  {
  }

  /**
   * The value of a `\u` escape: a code point outside the high surrogates
   * stands for itself, a low surrogate included, and a high surrogate followed
   * by `\u` and a low surrogate combines with it. The test against 0x10FFFF
   * never fails.
   */
  lemma UnicodeEscapeValue(src: Bytes, j: nat)
    requires j + 4 <= |src| && AllHex(src[j..j + 4])
    ensures var hi := HexNumber(src[j..j + 4]);
      && (!(0xD800 <= hi <= 0xDBFF) ==> UnicodeEscape(src, j) == Ok(Parsed(hi, j + 4)))
      && (0xD800 <= hi <= 0xDBFF && j + 10 <= |src| && src[j + 4] == '\\' && src[j + 5] == 'u' && AllHex(src[j + 6..j + 10]) ==>
           var lo := HexNumber(src[j + 6..j + 10]);
           UnicodeEscape(src, j) ==
             if 0xDC00 <= lo <= 0xDFFF then Ok(Parsed(CombineSurrogates(hi, lo), j + 10)) else Err(InvalidUnicodeSurrogate))
  {
  }

  /** A high surrogate that no `\u` follows is `PARSE_INVALID_UNICODE_SURROGATE` (or a missing quotation mark at the end). */
  lemma LoneHighSurrogate(src: Bytes, j: nat)
    requires j + 4 <= |src| && AllHex(src[j..j + 4]) && 0xD800 <= HexNumber(src[j..j + 4]) <= 0xDBFF
    ensures j + 4 < |src| && src[j + 4] != '\\' ==> UnicodeEscape(src, j) == Err(InvalidUnicodeSurrogate)
    ensures j + 4 == |src| ==> UnicodeEscape(src, j) == Err(MissQuotationMark)
  {
  }

  // ---------------------------------------------------------------------------
  // Strings: section 7 of RFC 8259

  /** A byte `parse_string` copies as it is: not a quote, a backslash, NUL or below 0x20 as a signed `char`. */
  predicate Plain(c: Byte)
  {
    c != '\"' && c != '\\' && c != '\0' && !SignedBelowSpace(c)
  }

  /** A run of plain bytes up to a quote is the string itself. */
  lemma {:induction false} StringBodyPlain(src: Bytes, j: nat, q: nat, acc: Bytes)
    requires j <= q < |src| && src[q] == '\"' && forall k :: j <= k < q ==> Plain(src[k])
    ensures StringBody(src, j, acc) == Ok(Parsed(acc + src[j..q], q + 1))
    decreases q - j
  {
    if j < q {
      StringBodyPlain(src, j + 1, q, acc + [src[j]]);
      assert acc + [src[j]] + src[j + 1..q] == acc + src[j..q];
    } else {
      assert acc + src[j..q] == acc;
    }
  }

  /**
   * One step of the loop of `parse_string`: the single-letter escapes stand for
   * their bytes, any other escape but `\u` is `PARSE_INVALID_STRING_ESCAPE`, a
   * byte below 0x20 (or from 0x80 on, as a signed `char`) is
   * `PARSE_INVALID_STRING_CHAR`, and NUL or the end of the source is
   * `PARSE_MISS_QUOTATION_MARK`.
   */
  lemma StringBodyStep(src: Bytes, j: nat, acc: Bytes)
    requires j <= |src|
    ensures j == |src| ==> StringBody(src, j, acc) == Err(MissQuotationMark)
    ensures j < |src| && src[j] == '\0' ==> StringBody(src, j, acc) == Err(MissQuotationMark)
    ensures j < |src| && src[j] != '\0' && SignedBelowSpace(src[j]) ==> StringBody(src, j, acc) == Err(InvalidStringChar)
    ensures j + 1 < |src| && src[j] == '\\' && Unescape(src[j + 1]).Some? ==>
      StringBody(src, j, acc) == StringBody(src, j + 2, acc + [Unescape(src[j + 1]).value])
    ensures j + 1 < |src| && src[j] == '\\' && Unescape(src[j + 1]).None? && src[j + 1] != 'u' ==>
      StringBody(src, j, acc) == Err(InvalidStringEscape)
    ensures j + 1 == |src| && src[j] == '\\' ==> StringBody(src, j, acc) == Err(MissQuotationMark)
  {
  }

  /** The escapes `\" \\ \/ \b \f \n \r \t` and nothing else stand for a single byte. */
  lemma UnescapeTable(e: Byte)
    ensures Unescape(e).Some? <==> e in ['\"', '\\', '/', 'b', 'f', 'n', 'r', 't']
    ensures (Unescape(e).Some? && Unescape(e).value == '\n') <==> e == 'n'
    ensures (Unescape(e).Some? && Unescape(e).value == '\t') <==> e == 't'
    ensures (Unescape(e).Some? && Unescape(e).value == 8 as char) <==> e == 'b'
    ensures (Unescape(e).Some? && Unescape(e).value == 12 as char) <==> e == 'f'
    ensures (Unescape(e).Some? && Unescape(e).value == '\r') <==> e == 'r'
  {
  }

  // ---------------------------------------------------------------------------
  // Arrays and objects

  /** The loop of `parse_array` only appends: the elements found so far stay first, in source order. */
  lemma {:induction false} ArrayItemsKeepOrder(src: Bytes, j: nat, acc: seq<Value>, strtod: Strtod)
    requires j <= |src| && forall k :: 0 <= k < |acc| ==> WellFormed(acc[k])
    ensures var r := ArrayItems(src, j, acc, strtod); r.Ok? ==> |acc| <= |r.value.value.items| && r.value.value.items[..|acc|] == acc
    decreases |src| - j, 0
  {
    if j < |src| {
      match ParseValue(src, SkipBlank(src, j), strtod)
      case Err(_) =>
      case Ok(Parsed(a, e)) =>
        ElementWellFormed(a);
        var acc' := acc + [Element(a)];
        var m := SkipBlank(src, e);
        ArrayItemsRound(src, j, acc, strtod, a, e, acc');
        if Peek(src, m) == ',' {
          ArrayAfterComma(src, m, acc', strtod);
          ArrayItemsKeepOrder(src, m + 1, acc', strtod);
          var r := ArrayItems(src, m + 1, acc', strtod);
          if r.Ok? {
            assert r.value.value.items[..|acc|] == r.value.value.items[..|acc'|][..|acc|];
          }
        }
    }
  }

  /**
   * `std::map::insert` does not overwrite: once a key is in the object being
   * read, a later member with the same key is dropped, so the first one wins.
   */
  lemma {:induction false} ObjectMembersFirstWins(src: Bytes, j: nat, acc: seq<Member>, strtod: Strtod, k: Bytes, x: Value)
    requires j <= |src| && Sorted(acc) && MembersWellFormed(acc) && Find(acc, k) == Some(x)
    ensures var r := ObjectMembers(src, j, acc, strtod); r.Ok? ==> Find(r.value.value.members, k) == Some(x)
    decreases |src| - j, 0
  {
    match MemberKey(src, j)
    case Err(_) =>
    case Ok(Parsed(key, v)) =>
      match ParseValue(src, v, strtod)
      case Err(_) =>
      case Ok(Parsed(a, e)) =>
        ElementWellFormed(a);
        InsertSorted(acc, key, Element(a));
        InsertMembersWellFormed(acc, key, Element(a));
        InsertFind(acc, key, Element(a), k);
        var acc' := Insert(acc, key, Element(a));
        ObjectMembersRound(src, j, acc, strtod, key, v, a, e, acc');
        ObjectAfterMemberFirstWins(src, SkipBlank(src, e), acc', strtod, k, x);
  }

  lemma {:induction false} ObjectAfterMemberFirstWins(src: Bytes, m: nat, acc: seq<Member>, strtod: Strtod, k: Bytes, x: Value)
    requires m <= |src| && Sorted(acc) && MembersWellFormed(acc) && Find(acc, k) == Some(x)
    ensures var r := ObjectAfterMember(src, m, acc, strtod); r.Ok? ==> Find(r.value.value.members, k) == Some(x)
    decreases |src| - m, 1
  {
    if m < |src| && src[m] == ',' {
      ObjectAfterComma(src, m, acc, strtod);
      ObjectMembersFirstWins(src, m + 1, acc, strtod, k, x);
    }
  }

  // ---------------------------------------------------------------------------
  // Whole documents

  /** `SkipBlank` passes over a run of spaces up to the end. */
  lemma {:induction false} SkipBlankAllSpaces(src: Bytes, i: nat)
    requires i <= |src| && forall k :: i <= k < |src| ==> src[k] == ' '
    ensures SkipBlank(src, i) == |src|
    decreases |src| - i
  {
    if i < |src| {
      SkipBlankAllSpaces(src, i + 1);
    }
  }

  /** An empty or all-space document is `PARSE_EXPECT_VALUE`, and the root is left as it was. */
  lemma BlankDocument(src: Bytes, root: Value, strtod: Strtod)
    requires forall k :: 0 <= k < |src| ==> src[k] == ' '
    ensures Parse(src, 0, root, strtod) == Outcome(ExpectValue, root)
  {
    SkipBlankAllSpaces(src, 0);
  }

  /**
   * Only `' '` is blank: the first other byte is the lookahead of
   * `parse_value`. NUL is `PARSE_EXPECT_VALUE`; any byte outside
   * `n t f [ { " - 0-9` (a tab, a line feed or a carriage return among them) is
   * `PARSE_INVALID_VALUE`; either way the root is left as it was.
   */
  lemma Lookahead(src: Bytes, root: Value, strtod: Strtod)
    requires SkipBlank(src, 0) < |src|
    ensures var c := src[SkipBlank(src, 0)];
      && (c == '\0' ==> Parse(src, 0, root, strtod) == Outcome(ExpectValue, root))
      && (c !in ['\0', 'n', 't', 'f', '[', '{', '\"', '-'] && !IsDigit(c) ==> Parse(src, 0, root, strtod) == Outcome(InvalidValue, root))
  {
  }

  /** Text after the value clears the root to `null` and is `PARSE_ROOT_NOT_SINGULAR`. */
  lemma TrailingText(src: Bytes, root: Value, strtod: Strtod)
    requires ParseValue(src, SkipBlank(src, 0), strtod).Ok?
    requires SkipBlank(src, ParseValue(src, SkipBlank(src, 0), strtod).value.end) < |src|
    ensures var r := Parse(src, 0, root, strtod);
      r.code == RootNotSingular && r.root == Clear(Apply(root, ParseValue(src, SkipBlank(src, 0), strtod).value.value))
  {
  }

  // ---------------------------------------------------------------------------
  // Documents where json.hpp departs from RFC 8259

  /** `SkipBlank` stops at the first byte that is not a space. */
  lemma {:induction false} SkipBlankTo(src: Bytes, i: nat, k: nat)
    requires i <= k < |src| && src[k] != ' ' && forall m :: i <= m < k ==> src[m] == ' '
    ensures SkipBlank(src, i) == k
    decreases k - i
  {
    if i < k {
      SkipBlankTo(src, i + 1, k);
    }
  }

  /** `[`, spaces and `]` are an empty array, read up to the `]` included. */
  lemma SpacedEmptyArray(src: Bytes, i: nat, k: nat, strtod: Strtod)
    requires i < k < |src| && src[i] == '[' && src[k] == ']'
    requires forall m :: i < m < k ==> src[m] == ' '
    ensures ParseValue(src, i, strtod) == Ok(Parsed(AArray([]), k + 1))
  {
    SkipBlankTo(src, i + 1, k);
  }

  /** `[   ]` is an empty array. */
  lemma SpacedEmptyArrayDocument(src: Bytes, root: Value, strtod: Strtod)
    requires src == "[   ]"
    ensures Parse(src, 0, root, strtod) == Outcome(ParseOk, AssignArray(root, []))
  {
    SkipBlankTo(src, 0, 0);
    SpacedEmptyArray(src, 0, 4, strtod);
  }

  /** `{}` returns `PARSE_OK` without consuming `}`, so the document is `PARSE_ROOT_NOT_SINGULAR` and the root becomes `null`. */
  lemma EmptyObjectDocument(src: Bytes, root: Value, strtod: Strtod)
    requires src == "{}"
    ensures Parse(src, 0, root, strtod) == Outcome(RootNotSingular, Clear(AssignObject(root, [])))
  {
    assert ParseValue(src, 0, strtod) == Ok(Parsed(AObject([]), 1));
  }

  /** The loop of `parse_array` ends successfully at the end of the source: `[` is an empty array. */
  lemma UnclosedArrayDocument(src: Bytes, root: Value, strtod: Strtod)
    requires src == "["
    ensures Parse(src, 0, root, strtod) == Outcome(ParseOk, AssignArray(root, []))
  {
    assert SkipBlank(src, 1) == 1 && Peek(src, 1) == '\0';
    assert ArrayItems(src, 1, [], strtod) == Ok(Parsed(AArray([]), 1));
    assert ParseValue(src, 0, strtod) == Ok(Parsed(AArray([]), 1));
  }

  /** `[null,` is an array holding one `null`. */
  lemma TrailingCommaDocument(src: Bytes, root: Value, strtod: Strtod)
    requires src == "[null,"
    ensures Parse(src, 0, root, strtod) == Outcome(ParseOk, AssignArray(root, [Element(ANull)]))
  {
    var acc := [Element(ANull)];
    assert src[1..5] == "null";
    LiteralDocumentPart(src, 1, strtod);
    ArrayItemsRound(src, 1, [], strtod, ANull, 5, acc);
    ArrayAfterComma(src, 5, acc, strtod);
    assert ArrayItems(src, 1, [], strtod) == Ok(Parsed(AArray(acc), 6));
    assert ParseValue(src, 0, strtod) == Ok(Parsed(AArray(acc), 6));
  }

  /**
   * `["x"]` parsed into a node that is no longer an array but still holds the
   * element `1` of an earlier `operator=(const Value&)`: the vector's copy
   * assignment writes the string over the number with `operator=(const
   * Value&)`, which ignores strings, so the root is the array `[1]`.
   */
  lemma StaleArrayDocument(src: Bytes, strtod: Strtod)
    requires src == "[\"x\"]"
    ensures var stale := Assign(Default(), AssignArray(Default(), [FromDouble(1)]));
      var r := Parse(src, 0, stale, strtod);
      r.code == ParseOk && r.root.tag == Array && r.root.elems == [FromDouble(1)]
  {
    var stale := Assign(Default(), AssignArray(Default(), [FromDouble(1)]));
    var x := FromString("x");
    assert src[2] == 'x' && !SignedBelowSpace('x') && [] + ['x'] == "x";
    assert StringBody(src, 3, "x") == Ok(Parsed("x", 4));
    assert StringBody(src, 2, []) == Ok(Parsed("x", 4));
    assert ParseValue(src, 1, strtod) == Ok(Parsed(AString("x"), 4));
    assert Element(AString("x")) == x;
    ArrayItemsRound(src, 1, [], strtod, AString("x"), 4, [x]);
    assert ArrayItems(src, 1, [], strtod) == Ok(Parsed(AArray([x]), 5));
    assert ParseValue(src, 0, strtod) == Ok(Parsed(AArray([x]), 5));
    AssignArrayOverStale([x]);
  }

  /** The string body of the document `"\\uDC00"`. */
  lemma LoneLowSurrogateDocumentPart(src: Bytes)
    requires src == "\"\\uDC00\""
    ensures StringBody(src, 1, []) == Ok(Parsed([0xED as char, 0xB0 as char, 0x80 as char], 8))
  {
    var bytes: Bytes := [0xED as char, 0xB0 as char, 0x80 as char];
    assert HexFrom(src, 3, 0, 0) == Ok(Parsed(0xDC00, 7));
    assert UnicodeEscape(src, 3) == Ok(Parsed(0xDC00, 7));
    assert Utf8(0xDC00) == bytes;
    assert src[2] == 'u' && Unescape(src[2]).None? && [] + bytes == bytes;
    assert Escape(src, 2, []) == Ok(Parsed(bytes, 7));
    assert StringBody(src, 7, bytes) == Ok(Parsed(bytes, 8));
  }

  /** A low surrogate on its own is accepted and written as the three bytes of its UTF-8 form. */
  lemma LoneLowSurrogateDocument(src: Bytes, root: Value, strtod: Strtod)
    requires src == "\"\\uDC00\""
    ensures Parse(src, 0, root, strtod) == Outcome(ParseOk, AssignString(root, [0xED as char, 0xB0 as char, 0x80 as char]))
  {
    LoneLowSurrogateDocumentPart(src);
    assert ParseValue(src, 0, strtod) == Ok(Parsed(AString([0xED as char, 0xB0 as char, 0x80 as char]), 8));
  }

  /** A leading `0` ends the integer part: `0123` is the number 0 followed by text. */
  lemma LeadingZeroDocument(src: Bytes, root: Value, strtod: Strtod)
    requires src == "0123" && strtod(src).Converted?
    ensures Parse(src, 0, root, strtod) == Outcome(RootNotSingular, Clear(AssignDouble(root, strtod(src).d)))
  {
    assert src[0..] == src;
    assert ScanNumber(src, 0) == Some(1);
    assert ParseValue(src, 0, strtod) == Ok(Parsed(ANumber(strtod(src).d), 1));
  }

  /** A line feed or a tab is not blank: it is the lookahead of `parse_value`. */
  lemma ControlBeforeValueDocument(src: Bytes, root: Value, strtod: Strtod)
    requires src == "\nnull" || src == "\tnull"
    ensures Parse(src, 0, root, strtod) == Outcome(InvalidValue, root)
  {
    assert ParseValue(src, 0, strtod) == Err(InvalidValue);
  }

  /** A cut literal is `PARSE_INVALID_VALUE`. */
  lemma TruncatedLiteralDocument(src: Bytes, root: Value, strtod: Strtod)
    requires src == "nul"
    ensures Parse(src, 0, root, strtod) == Outcome(InvalidValue, root)
  {
    assert ParseValue(src, 0, strtod) == Err(InvalidValue);
  }

  /** The key `"a"` and its colon at `j`, with the value right after. */
  lemma KeyADocumentPart(src: Bytes, j: nat)
    requires j + 4 < |src| && src[j..j + 4] == "\"a\":" && src[j + 4] != ' '
    ensures MemberKey(src, j) == Ok(Parsed("a", j + 4))
  {
    assert src[j] == '\"' && src[j + 2] == '\"' && src[j + 3] == ':';
    StringBodyPlain(src, j + 1, j + 2, []);
    assert [] + src[j + 1..j + 2] == "a";
  }

  /** The literal `null` or `true` at `i`. */
  lemma LiteralDocumentPart(src: Bytes, i: nat, strtod: Strtod)
    requires i + 4 <= |src|
    ensures src[i..i + 4] == "null" ==> ParseValue(src, i, strtod) == Ok(Parsed(ANull, i + 4))
    ensures src[i..i + 4] == "true" ==> ParseValue(src, i, strtod) == Ok(Parsed(ABool(true), i + 4))
  {
    if src[i..i + 4] == "null" {
      assert src[i] == 'n';
    } else if src[i..i + 4] == "true" {
      assert src[i] == 't';
    }
  }

  /** The member `"a":null` at `j`, the first of its object. */
  lemma NullMemberDocumentPart(src: Bytes, j: nat, acc: seq<Member>, strtod: Strtod)
    requires j + 8 <= |src| && src[j..j + 4] == "\"a\":" && src[j + 4..j + 8] == "null" && (j + 8 == |src| || src[j + 8] != ' ')
    requires acc == [Member("a", Element(ANull))]
    ensures ObjectMembers(src, j, [], strtod) == ObjectAfterMember(src, j + 8, acc, strtod)
  {
    KeyADocumentPart(src, j);
    LiteralDocumentPart(src, j + 4, strtod);
    ObjectMembersRound(src, j, [], strtod, "a", j + 4, ANull, j + 8, acc);
  }

  /** The end of the source inside an object is a missing quotation mark. */
  lemma UnclosedObjectDocument(src: Bytes, root: Value, strtod: Strtod)
    requires src == "{\"a\":null"
    ensures Parse(src, 0, root, strtod) == Outcome(MissQuotationMark, root)
  {
    assert src[1..5] == "\"a\":" && src[5..9] == "null";
    NullMemberDocumentPart(src, 1, [Member("a", Element(ANull))], strtod);
    assert ParseValue(src, 0, strtod) == Err(MissQuotationMark);
  }
}
