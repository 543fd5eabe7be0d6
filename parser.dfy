/// `value_parse` of json.hpp: a cursor `it` over `json_source`, moved by
/// mutually recursive methods that store what they read into a target node.
///
/// `parse_value(Value* element = nullptr)` writes to `*element`, or to `*root`
/// when `element` is null; here every method receives the target `Cell`
/// itself (`root` when `element` is null, a fresh `Cell` for `tmp_element`).
/// Each method is proved to do what the functions of `JsonGrammar` describe.
module JsonParser {
  import opened JsonValue
  import opened JsonValueFacts
  import opened JsonCell
  import opened JsonGrammar

  /**
   * What a parsing method leaves behind for the outcome `r` of its grammar
   * function: on success the code `PARSE_OK`, the cursor after the value and
   * the assignment made to the target; on failure the code and an untouched
   * target.
   */
  ghost predicate Reports(r: Result<Parsed<Assignment>>, ret: ErrorCode, cursor: nat, before: Value, after: Value)
  {
    match r
    case Ok(p) => ret == ParseOk && cursor == p.end && after == Apply(before, p.value)
    case Err(e) => ret == e && after == before
  }

  /** The assignment `parse_literal` makes for the type it is given. */
  function LiteralOf(t: JsonType): Assignment
    requires t == Null || t == True || t == False
  {
    if t == Null then ANull else ABool(t == True)
  }

  class Parser {
    /** `json_source` */
    const src: Bytes
    /** `it`, as an index into `json_source` */
    var it: nat
    /** `root`: the node `parse()` fills */
    const root: Cell
    /** The conversion `strtod` performs. */
    const strtod: Strtod

    ghost predicate Valid()
      reads this
    {
      it <= |src|
    }

    /** `set_json_source(source, value)`: the cursor at the beginning of `source`. */
    constructor SetJsonSource(source: Bytes, value: Cell, convert: Strtod)
      ensures src == source && it == 0 && root == value && strtod == convert && Valid()
    {
      src := source;
      it := 0;
      root := value;
      strtod := convert;
    }

    /** `parse()`: one value between blanks, stored into `root`. */
    method Parse() returns (ret: ErrorCode)
      requires Valid() && root.Valid()
      modifies this, root
      ensures Valid() && root.Valid()
      ensures Outcome(ret, root.val) == JsonGrammar.Parse(src, old(it), old(root.val), strtod)
    {
      SkipBlank();
      ret := ParseValue(root);
      if ret == ParseOk {
        SkipBlank();
        if it != |src| {
          root.Clear();
          ret := RootNotSingular;
        }
      }
    }

    /** `skip_blank()` */
    method SkipBlank()
      requires Valid()
      modifies this
      ensures it == JsonGrammar.SkipBlank(src, old(it)) && Valid()
    {
      while it != |src| && src[it] == ' '
        invariant it <= |src|
        invariant JsonGrammar.SkipBlank(src, it) == JsonGrammar.SkipBlank(src, old(it))
        decreases |src| - it
      {
        it := it + 1;
      }
    }

    /** `parse_value(element)` with `dest` standing for the target. */
    method ParseValue(dest: Cell) returns (ret: ErrorCode)
      requires Valid() && dest.Valid()
      modifies this, dest
      ensures Valid() && dest.Valid()
      ensures Reports(JsonGrammar.ParseValue(src, old(it), strtod), ret, it, old(dest.val), dest.val)
      decreases |src| - it, 1
    {
      if it == |src| {
        return ExpectValue;
      }
      match src[it] {
        case 'n' => ret := ParseLiteral("null", Null, dest);
        case 't' => ret := ParseLiteral("true", True, dest);
        case 'f' => ret := ParseLiteral("false", False, dest);
        case '[' => ret := ParseArray(dest);
        case '{' => ret := ParseObject(dest);
        case '\"' => ret := ParseString(dest);
        case '\0' => ret := ExpectValue;
        case c =>
          if c == '-' || IsDigit(c) {
            ret := ParseNumber(dest);
          } else {
            ret := InvalidValue;
          }
      }
    }

    /** `parse_literal(dst, type, element)` */
    method ParseLiteral(dst: Bytes, t: JsonType, dest: Cell) returns (ret: ErrorCode)
      requires Valid() && dest.Valid() && |dst| > 0
      requires t == Null || t == True || t == False
      modifies this, dest
      ensures Valid() && dest.Valid()
      ensures Reports(JsonGrammar.ParseLiteral(src, old(it), dst, LiteralOf(t)), ret, it, old(dest.val), dest.val)
    {
      var len := |dst|;
      if it + len <= |src| && src[it..it + len] == dst {
        it := it + len;
        if t == Null {
          dest.Clear();
        } else if t == True {
          dest.AssignBool(true);
        } else {
          dest.AssignBool(false);
        }
        ret := ParseOk;
      } else {
        ret := InvalidValue;
      }
    }

    /** A digit loop of `parse_number`: advances the cursor from `from` past every decimal digit. */
    method DigitsFrom(from: nat) returns (end: nat)
      requires from <= |src|
      ensures end == JsonGrammar.SkipDigits(src, from)
    {
      end := from;
      while IsDigit(Peek(src, end))
        invariant end <= |src|
        invariant JsonGrammar.SkipDigits(src, end) == JsonGrammar.SkipDigits(src, from)
        decreases |src| - end
      {
        end := end + 1;
      }
    }

    /** The integer part of `parse_number` with `tmp_it` at `from`. */
    method ScanIntegerPart(from: nat) returns (r: Option<nat>)
      requires from <= |src|
      ensures r == IntegerPart(src, from)
    {
      var tmpIt := from;
      if Peek(src, tmpIt) == '0' {
        tmpIt := tmpIt + 1;
      } else {
        if !IsDigit1To9(Peek(src, tmpIt)) {
          return None;
        }
        tmpIt := DigitsFrom(tmpIt + 1);
      }
      return Some(tmpIt);
    }

    /** The fraction of `parse_number` with `tmp_it` at `from`. */
    method ScanFractionPart(from: nat) returns (r: Option<nat>)
      requires from <= |src|
      ensures r == FractionPart(src, from)
    {
      var tmpIt := from;
      if Peek(src, tmpIt) == '.' {
        tmpIt := tmpIt + 1;
        if !IsDigit(Peek(src, tmpIt)) {
          return None;
        }
        tmpIt := DigitsFrom(tmpIt + 1);
      }
      return Some(tmpIt);
    }

    /** The exponent of `parse_number` with `tmp_it` at `from`. */
    method ScanExponentPart(from: nat) returns (r: Option<nat>)
      requires from <= |src|
      ensures r == ExponentPart(src, from)
    {
      var tmpIt := from;
      if Peek(src, tmpIt) == 'e' || Peek(src, tmpIt) == 'E' {
        tmpIt := tmpIt + 1;
        if Peek(src, tmpIt) == '-' || Peek(src, tmpIt) == '+' {
          tmpIt := tmpIt + 1;
        }
        if !IsDigit(Peek(src, tmpIt)) {
          return None;
        }
        tmpIt := DigitsFrom(tmpIt + 1);
      }
      return Some(tmpIt);
    }

    /** The scan of `parse_number` with `tmp_it` from `from`: the end of the lexeme, or `None` where it returns `PARSE_INVALID_VALUE`. */
    method ScanNumberFrom(from: nat) returns (r: Option<nat>)
      requires from <= |src|
      ensures r == ScanNumber(src, from)
    {
      var tmpIt := from;
      if Peek(src, tmpIt) == '-' {
        tmpIt := tmpIt + 1;
      }
      r := ScanIntegerPart(tmpIt);
      if r.None? {
        return;
      }
      r := ScanFractionPart(r.value);
      if r.None? {
        return;
      }
      r := ScanExponentPart(r.value);
    }

    /** `parse_number(element)` */
    method ParseNumber(dest: Cell) returns (ret: ErrorCode)
      requires Valid() && dest.Valid()
      modifies this, dest
      ensures Valid() && dest.Valid()
      ensures Reports(JsonGrammar.ParseNumber(src, old(it), strtod), ret, it, old(dest.val), dest.val)
    {
      var scanned := ScanNumberFrom(it);
      if scanned.None? {
        return InvalidValue;
      }
      var number := strtod(src[it..]);
      if number.Overflow? {
        return NumberOverflow;
      }
      it := scanned.value;
      dest.AssignDouble(number.d);
      ret := ParseOk;
    }

    /** `parse_hex4(tmp_it, u)`: four hex digits from `from`; the cursor after them. */
    method ParseHex4(from: nat) returns (ret: ErrorCode, u: nat, end: nat)
      requires from <= |src|
      ensures match Hex4(src, from)
        case Ok(p) => ret == ParseOk && u == p.value && end == p.end
        case Err(e) => ret == e
    {
      u := 0;
      end := from;
      for i := 0 to 4
        invariant end == from + i <= |src|
        invariant HexFrom(src, end, i, u) == HexFrom(src, from, 0, 0)
      {
        HexFromRound(src, end, i, u);
        if end == |src| {
          return MissQuotationMark, u, end;
        }
        var ch := src[end];
        end := end + 1;
        var digit: nat;
        if '0' <= ch <= '9' {
          digit := ch as int - '0' as int;
        } else if 'a' <= ch <= 'f' {
          digit := ch as int - 'a' as int + 10;
        } else if 'A' <= ch <= 'F' {
          digit := ch as int - 'A' as int + 10;
        } else {
          return InvalidUnicodeHex, u, end;
        }
        assert digit == HexDigitValue(ch);
        u := u * 16 + digit;
      }
      ret := ParseOk;
    }

    /**
     * `parse_string(tmp_str, tmp_it)` with `tmp_it` on the opening quote: the
     * string read, appended to `tmpStr`, and the cursor after the closing quote.
     */
    method ParseStringRaw(tmpStr: Bytes, tmpIt: nat) returns (ret: ErrorCode, str: Bytes, end: nat)
      requires tmpIt < |src|
      ensures match StringBody(src, tmpIt + 1, tmpStr)
        case Ok(p) => ret == ParseOk && str == p.value && end == p.end
        case Err(e) => ret == e
    {
      str := tmpStr;
      end := tmpIt + 1;
      while end != |src|
        invariant end <= |src|
        invariant StringBody(src, end, str) == StringBody(src, tmpIt + 1, tmpStr)
        decreases |src| - end
      {
        var ch := src[end];
        end := end + 1;
        match ch {
          case '\"' =>
            return ParseOk, str, end;
          case '\\' =>
            ret, str, end := ParseEscape(end, str);
            if ret != ParseOk {
              return;
            }
          case '\0' =>
            return MissQuotationMark, str, end;
          case _ =>
            if SignedBelowSpace(ch) {
              return InvalidStringChar, str, end;
            }
            str := str + [ch];
        }
      }
      ret := MissQuotationMark;
    }

    /**
     * The `case '\\'` branch of `parse_string` with the cursor after the
     * backslash: `str` with the escaped byte(s) appended, and the cursor after
     * the escape.
     */
    method ParseEscape(from: nat, tmpStr: Bytes) returns (ret: ErrorCode, str: Bytes, end: nat)
      requires from <= |src|
      ensures match Escape(src, from, tmpStr)
        case Ok(p) => ret == ParseOk && str == p.value && end == p.end
        case Err(e) => ret == e
    {
      str := tmpStr;
      end := from;
      if end == |src| {
        return MissQuotationMark, str, end;
      }
      var e := src[end];
      end := end + 1;
      match e {
        case '\"' => str := str + ['\"'];
        case 'n' => str := str + ['\n'];
        case 'r' => str := str + ['\r'];
        case 't' => str := str + ['\t'];
        case 'f' => str := str + [12 as char];
        case 'b' => str := str + [8 as char];
        case '/' => str := str + ['/'];
        case '\\' => str := str + ['\\'];
        case 'u' =>
          var u;
          ret, u, end := ParseUnicodeEscape(end);
          if ret != ParseOk {
            return;
          }
          str := str + Utf8(u);
        case _ =>
          return InvalidStringEscape, str, end;
      }
      ret := ParseOk;
    }

    /**
     * The `case 'u'` branch of `parse_string` with the cursor after `\u`: the
     * code point (a surrogate pair combined) and the cursor after the escape.
     */
    method ParseUnicodeEscape(from: nat) returns (ret: ErrorCode, u: nat, end: nat)
      requires from <= |src|
      ensures match UnicodeEscape(src, from)
        case Ok(p) => ret == ParseOk && u == p.value && end == p.end
        case Err(e) => ret == e
    {
      ret, u, end := ParseHex4(from);
      if ret != ParseOk {
        return;
      }
      if 0xD800 <= u <= 0xDBFF {
        if end == |src| {
          return MissQuotationMark, u, end;
        }
        if src[end] != '\\' {
          return InvalidUnicodeSurrogate, u, end + 1;
        }
        end := end + 1;
        if end == |src| {
          return MissQuotationMark, u, end;
        }
        if src[end] != 'u' {
          return InvalidUnicodeSurrogate, u, end + 1;
        }
        end := end + 1;
        var low;
        ret, low, end := ParseHex4(end);
        if ret != ParseOk {
          return;
        }
        if low < 0xDC00 || low > 0xDFFF {
          return InvalidUnicodeSurrogate, u, end;
        }
        u := 0x10000 + (u - 0xD800) * 0x400 + (low - 0xDC00);
      }
      if u > 0x10FFFF {
        return InvalidUnicodeHex, u, end;
      }
    }

    /** `parse_string(element)` with the cursor on the opening quote. */
    method ParseString(dest: Cell) returns (ret: ErrorCode)
      requires Valid() && dest.Valid() && it < |src|
      modifies this, dest
      ensures Valid() && dest.Valid()
      ensures Reports(JsonGrammar.ParseString(src, old(it)), ret, it, old(dest.val), dest.val)
    {
      var tmpStr, tmpIt;
      ret, tmpStr, tmpIt := ParseStringRaw([], it);
      if ret == ParseOk {
        it := tmpIt;
        dest.AssignString(tmpStr);
      }
    }

    /** `Value tmp_element; parse_value(&tmp_element)`: a nested value, parsed into a fresh node. */
    method ParseElement() returns (ret: ErrorCode, element: Value)
      requires Valid()
      modifies this
      ensures Valid()
      ensures match JsonGrammar.ParseValue(src, old(it), strtod)
        case Ok(p) => ret == ParseOk && it == p.end && element == Element(p.value) && WellFormed(element)
        case Err(e) => ret == e
      decreases |src| - it, 2
    {
      var tmpElement := new Cell();
      ret := ParseValue(tmpElement);
      element := tmpElement.val;
    }

    /** `parse_array(element)` with the cursor on `[`. */
    method ParseArray(dest: Cell) returns (ret: ErrorCode)
      requires Valid() && dest.Valid() && it < |src|
      modifies this, dest
      ensures Valid() && dest.Valid()
      ensures Reports(JsonGrammar.ParseArray(src, old(it), strtod), ret, it, old(dest.val), dest.val)
      decreases |src| - it, 0
    {
      ghost var before := dest.val;
      ghost var r := JsonGrammar.ParseArray(src, it, strtod);
      it := it + 1;
      var tmpArray: seq<Value> := [];
      SkipBlank();
      if Peek(src, it) == ']' {
        assert r == Ok(Parsed(AArray([]), it + 1));
        it := it + 1;
        dest.AssignArray(tmpArray);
        assert dest.val == Apply(before, AArray([]));
        return ParseOk;
      }
      assert r == ArrayItems(src, it, [], strtod);
      ret, tmpArray := ParseArrayItems();
      if ret == ParseOk {
        dest.AssignArray(tmpArray);
        assert dest.val == Apply(before, AArray(tmpArray));
      }
    }

    /**
     * The `while (it != json_source.end())` loop of `parse_array`, from the
     * cursor on: the elements pushed, or the failure that ends the loop.
     */
    method ParseArrayItems() returns (ret: ErrorCode, tmpArray: seq<Value>)
      requires Valid()
      modifies this
      ensures Valid()
      ensures match ArrayItems(src, old(it), [], strtod)
        case Ok(p) => ret == ParseOk && it == p.end && p.value == AArray(tmpArray)
        case Err(e) => ret == e
      decreases |src| - it, 4
    {
      tmpArray := [];
      ghost var target := ArrayItems(src, it, [], strtod);
      while it != |src|
        invariant Valid()
        invariant forall k :: 0 <= k < |tmpArray| ==> WellFormed(tmpArray[k])
        invariant ArrayItems(src, it, tmpArray, strtod) == target
        decreases |src| - it
      {
        var done;
        ret, tmpArray, done := ParseArrayElement(tmpArray);
        if done { return; }
      }
      ret := ParseOk;
    }

    /** One round of the loop of `parse_array`: a value, then `,` or `]`. */
    method ParseArrayElement(acc: seq<Value>) returns (ret: ErrorCode, tmpArray: seq<Value>, done: bool)
      requires Valid() && it < |src| && forall k :: 0 <= k < |acc| ==> WellFormed(acc[k])
      modifies this
      ensures Valid() && forall k :: 0 <= k < |tmpArray| ==> WellFormed(tmpArray[k])
      ensures !done ==> old(it) < it && ArrayItems(src, old(it), acc, strtod) == ArrayItems(src, it, tmpArray, strtod)
      ensures done ==> match ArrayItems(src, old(it), acc, strtod)
        case Ok(p) => ret == ParseOk && it == p.end && p.value == AArray(tmpArray)
        case Err(e) => ret == e
      decreases |src| - it, 3
    {
      ghost var j := it;
      tmpArray := acc;
      done := true;
      SkipBlank();
      var tmpElement;
      ret, tmpElement := ParseElement();
      if ret != ParseOk {
        ArrayItemsFails(src, j, acc, strtod);
        return;
      }
      ghost var p := JsonGrammar.ParseValue(src, JsonGrammar.SkipBlank(src, j), strtod).value;
      tmpArray := acc + [tmpElement];
      SkipBlank();
      ArrayItemsRound(src, j, acc, strtod, p.value, p.end, tmpArray);
      ret, done := ParseArraySeparator(tmpArray);
    }

    /** The `,` or `]` that follows an element of an array. */
    method ParseArraySeparator(acc: seq<Value>) returns (ret: ErrorCode, done: bool)
      requires Valid() && forall k :: 0 <= k < |acc| ==> WellFormed(acc[k])
      modifies this
      ensures Valid()
      ensures !done ==> old(it) < it && ArrayAfterElement(src, old(it), acc, strtod) == ArrayItems(src, it, acc, strtod)
      ensures done ==> match ArrayAfterElement(src, old(it), acc, strtod)
        case Ok(p) => ret == ParseOk && it == p.end && p.value == AArray(acc)
        case Err(e) => ret == e
    {
      if Peek(src, it) == ',' {
        ghost var m := it;
        ArrayAfterComma(src, m, acc, strtod);
        it := it + 1;
        assert it == m + 1;
        return ParseOk, false;
      } else if Peek(src, it) == ']' {
        it := it + 1;
        return ParseOk, true;
      } else {
        return MissCommaOrSquareBraket, true;
      }
    }

    method ParseMemberKey() returns (ret: ErrorCode, keyStr: Bytes)
      requires Valid()
      modifies this
      ensures Valid()
      ensures match MemberKey(src, old(it))
        case Ok(p) => ret == ParseOk && keyStr == p.value && it == p.end
        case Err(e) => ret == e
    {
      SkipBlank();
      if it == |src| {
        return MissQuotationMark, [];
      }
      if src[it] != '\"' {
        return MissKey, [];
      }
      var tmpIt;
      ret, keyStr, tmpIt := ParseStringRaw([], it);
      if ret != ParseOk {
        return MissKey, keyStr;
      }
      it := tmpIt;
      SkipBlank();
      if it == |src| {
        return MissQuotationMark, keyStr;
      }
      if src[it] != ':' {
        return MissColon, keyStr;
      }
      it := it + 1;
      SkipBlank();
      if it == |src| {
        return MissQuotationMark, keyStr;
      }
    }

    /** `parse_object(element)` with the cursor on `{`. */
    method ParseObject(dest: Cell) returns (ret: ErrorCode)
      requires Valid() && dest.Valid() && it < |src|
      modifies this, dest
      ensures Valid() && dest.Valid()
      ensures Reports(JsonGrammar.ParseObject(src, old(it), strtod), ret, it, old(dest.val), dest.val)
      decreases |src| - it, 0
    {
      ghost var before := dest.val;
      ghost var r := JsonGrammar.ParseObject(src, it, strtod);
      it := it + 1;
      SkipBlank();
      var tmpObject: seq<Member> := [];
      if Peek(src, it) == '}' {
        assert r == Ok(Parsed(AObject([]), it));
        dest.AssignObject(tmpObject);
        assert dest.val == Apply(before, AObject([]));
        return ParseOk;
      }
      assert r == ObjectMembers(src, it, [], strtod);
      ret, tmpObject := ParseObjectMembers();
      if ret == ParseOk {
        dest.AssignObject(tmpObject);
        assert dest.val == Apply(before, AObject(tmpObject));
      }
    }

    /**
     * The `for (;;)` loop of `parse_object`, from the cursor on: the members
     * inserted, or the failure that ends the loop.
     */
    method ParseObjectMembers() returns (ret: ErrorCode, tmpObject: seq<Member>)
      requires Valid()
      modifies this
      ensures Valid()
      ensures match ObjectMembers(src, old(it), [], strtod)
        case Ok(p) => ret == ParseOk && it == p.end && p.value == AObject(tmpObject)
        case Err(e) => ret == e
      decreases |src| - it, 4
    {
      tmpObject := [];
      ghost var target := ObjectMembers(src, it, [], strtod);
      while true
        invariant Valid() && old(it) <= it
        invariant Sorted(tmpObject) && MembersWellFormed(tmpObject)
        invariant ObjectMembers(src, it, tmpObject, strtod) == target
        decreases |src| - it
      {
        var done;
        ret, tmpObject, done := ParseMember(tmpObject);
        if done {
          return;
        }
      }
    }

    /** One round of the loop of `parse_object`: a key, a colon, a value, then `,` or `}`. */
    method ParseMember(acc: seq<Member>) returns (ret: ErrorCode, tmpObject: seq<Member>, done: bool)
      requires Valid() && Sorted(acc) && MembersWellFormed(acc)
      modifies this
      ensures Valid() && Sorted(tmpObject) && MembersWellFormed(tmpObject)
      ensures !done ==> old(it) < it && ObjectMembers(src, old(it), acc, strtod) == ObjectMembers(src, it, tmpObject, strtod)
      ensures done ==> match ObjectMembers(src, old(it), acc, strtod)
        case Ok(p) => ret == ParseOk && it == p.end && p.value == AObject(tmpObject)
        case Err(e) => ret == e
      decreases |src| - it, 3
    {
      ghost var j := it;
      tmpObject := acc;
      done := true;
      var keyStr;
      ret, keyStr := ParseMemberKey();
      if ret != ParseOk {
        return;
      }
      ghost var key := MemberKey(src, j).value;
      var tmpRoot;
      ret, tmpRoot := ParseElement();
      if ret != ParseOk {
        return;
      }
      ghost var p := JsonGrammar.ParseValue(src, key.end, strtod).value;
      InsertSorted(acc, keyStr, tmpRoot);
      InsertMembersWellFormed(acc, keyStr, tmpRoot);
      tmpObject := Insert(tmpObject, keyStr, tmpRoot);
      SkipBlank();
      ObjectMembersRound(src, j, acc, strtod, keyStr, key.end, p.value, p.end, tmpObject);
      ret, done := ParseMemberSeparator(tmpObject);
    }

    /** The `,` or `}` that follows a member of an object; the end of the source reports a missing quotation mark. */
    method ParseMemberSeparator(acc: seq<Member>) returns (ret: ErrorCode, done: bool)
      requires Valid() && Sorted(acc) && MembersWellFormed(acc)
      modifies this
      ensures Valid()
      ensures !done ==> old(it) < it && ObjectAfterMember(src, old(it), acc, strtod) == ObjectMembers(src, it, acc, strtod)
      ensures done ==> match ObjectAfterMember(src, old(it), acc, strtod)
        case Ok(p) => ret == ParseOk && it == p.end && p.value == AObject(acc)
        case Err(e) => ret == e
    {
      if it == |src| {
        return MissQuotationMark, true;
      }
      if src[it] == '}' {
        it := it + 1;
        return ParseOk, true;
      } else if src[it] == ',' {
        ghost var m := it;
        ObjectAfterComma(src, m, acc, strtod);
        it := it + 1;
        assert it == m + 1;
        return ParseOk, false;
      } else {
        return MissCommaOrCurlyBracket, true;
      }
    }
  }
}
