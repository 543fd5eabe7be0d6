/// leptjson.hpp: a first parser that recognises only the literals `null`,
/// `true` and `false`, surrounded by whitespace, in a NUL-terminated C
/// string. The context is a cursor into the string; the value is just a
/// type tag the parsing functions write into.
module LeptJson {

  /** `error_num` */
  datatype ParseError = Ok | ExpectValue | InvalidValue | RootNotSingular

  /** `lept_type` */
  datatype LeptType = Null | False | True | Object | Number | String | Array

  // ---------------------------------------------------------------------------
  // The C string

  /** A C string: somewhere in the buffer there is a terminating `'\0'`. */
  predicate IsCString(s: seq<char>)
  {
    '\0' in s
  }

  /** Where the C string ends: the first `'\0'`. */
  function Nul(s: seq<char>): (r: nat)
    requires IsCString(s)
    ensures r < |s| && s[r] == '\0'
    ensures forall k :: 0 <= k < r ==> s[k] != '\0'
  {
    if s[0] == '\0' then 0 else 1 + Nul(s[1..])
  }

  /** The characters `lept_parse_whitespace` skips: space, LF, TAB and CR. */
  predicate IsWs(ch: char)
  {
    ch == ' ' || ch == '\n' || ch == '\t' || ch == '\r'
  }

  predicate AllWs(s: seq<char>)
  {
    forall k :: 0 <= k < |s| ==> IsWs(s[k])
  }

  /** Where the whitespace loop starting at `p` stops: the first character from `p` on that is not whitespace. */
  function SkipWs(s: seq<char>, p: nat): (r: nat)
    requires IsCString(s) && p <= Nul(s)
    ensures p <= r <= Nul(s)
    ensures AllWs(s[p..r]) && !IsWs(s[r])
    decreases Nul(s) - p
  {
    if IsWs(s[p]) then SkipWs(s, p + 1) else p
  }

  /**
   * `strncmp(s + p, lit, strlen(lit)) == 0` for a literal without `'\0'`:
   * the comparison stops at the literal's length, or earlier at a difference,
   * which the string's `'\0'` always is.
   */
  predicate Matches(s: seq<char>, p: nat, lit: seq<char>)
  {
    p + |lit| <= |s| && s[p..p + |lit|] == lit
  }

  const NullText: seq<char> := "null"
  const TrueText: seq<char> := "true"
  const FalseText: seq<char> := "false"

  // ---------------------------------------------------------------------------
  // What each function does, as a function of the cursor and the stored type

  /** The error code, the cursor and the stored type after one of the parsing functions. */
  datatype Step = Step(code: ParseError, next: nat, ty: LeptType)

  /**
   * `lept_parse_null`/`_true`/`_false`: when `lit` is at the cursor,
   * advance by `advance` and store `ty`; otherwise fail and change nothing.
   */
  function LiteralStep(s: seq<char>, p: nat, t: LeptType, lit: seq<char>, advance: nat, ty: LeptType): Step
  {
    if Matches(s, p, lit) then Step(Ok, p + advance, ty) else Step(InvalidValue, p, t)
  }

  /** `lept_parse_value`: dispatch on the character at the cursor. */
  function ValueStep(s: seq<char>, p: nat, t: LeptType): Step
    requires p < |s|
  {
    if s[p] == 'n' then LiteralStep(s, p, t, NullText, 4, Null)
    else if s[p] == 'f' then LiteralStep(s, p, t, FalseText, |FalseText|, False)
    else if s[p] == 't' then LiteralStep(s, p, t, TrueText, 3, True)
    else if s[p] == '\0' then Step(ExpectValue, p, t)
    else Step(InvalidValue, p, t)
  }

  /** A literal at the cursor lies before the string's `'\0'`. */
  lemma MatchBeforeNul(s: seq<char>, p: nat, lit: seq<char>)
    requires IsCString(s) && p <= Nul(s) && Matches(s, p, lit) && '\0' !in lit
    ensures p + |lit| <= Nul(s)
  {
    assert forall k :: 0 <= k < |lit| ==> s[p + k] == lit[k];
  }

  /** `lept_parse_value` never moves the cursor past the string's `'\0'`. */
  lemma ValueEnd(s: seq<char>, p: nat, t: LeptType)
    requires IsCString(s) && p <= Nul(s)
    ensures ValueStep(s, p, t).next <= Nul(s)
  {
    if s[p] == 'n' && Matches(s, p, NullText) {
      MatchBeforeNul(s, p, NullText);
    } else if s[p] == 'f' && Matches(s, p, FalseText) {
      MatchBeforeNul(s, p, FalseText);
    } else if s[p] == 't' && Matches(s, p, TrueText) {
      MatchBeforeNul(s, p, TrueText);
    }
  }

  /** The result of `lept_parse` and the type it leaves in the value. */
  datatype Parsed = Parsed(code: ParseError, ty: LeptType)

  /**
   * `lept_parse`: store `Null`, skip whitespace, parse a value; after a
   * value, skip whitespace again and report anything but the end of the
   * string, keeping the type the value stored.
   */
  function LeptParse(s: seq<char>): Parsed
    requires IsCString(s)
  {
    var p := SkipWs(s, 0);
    var st := ValueStep(s, p, Null);
    if st.code == Ok then
      ValueEnd(s, p, Null);
      if s[SkipWs(s, st.next)] != '\0' then Parsed(RootNotSingular, st.ty) else Parsed(Ok, st.ty)
    else Parsed(st.code, st.ty)
  }

  // ---------------------------------------------------------------------------
  // The structures and the functions of leptjson.hpp

  /** `lept_value`, whose only field is the type. */
  class LeptValue {
    var ty: LeptType

    constructor(t: LeptType)
      ensures ty == t
    {
      ty := t;
    }
  }

  /** `lept_context`: the cursor `json` into the string `text`. */
  class Context {
    const text: seq<char>
    var json: nat

    /** The cursor is within the C string, at its `'\0'` at the latest. */
    predicate Valid()
      reads this
    {
      IsCString(text) && json <= Nul(text)
    }

    constructor(s: seq<char>)
      requires IsCString(s)
      ensures text == s && json == 0 && Valid()
    {
      text := s;
      json := 0;
    }
  }

  /** `lept_parse_whitespace`: move the cursor past space, LF, TAB and CR. */
  method ParseWhitespace(c: Context)
    requires c.Valid()
    modifies c
    ensures c.Valid() && c.json == SkipWs(c.text, old(c.json))
  {
    var p := c.json;
    while IsWs(c.text[p])
      invariant c.json <= p <= Nul(c.text)
      invariant SkipWs(c.text, p) == SkipWs(c.text, c.json)
      decreases Nul(c.text) - p
    {
      p := p + 1;
    }
    c.json := p;
  }

  /** `lept_parse_null` */
  method ParseNull(c: Context, v: LeptValue) returns (r: ParseError)
    requires c.Valid()
    modifies c, v
    ensures c.Valid()
    ensures Step(r, c.json, v.ty) == LiteralStep(c.text, old(c.json), old(v.ty), NullText, 4, Null)
  {
    if !Matches(c.text, c.json, NullText) {
      return InvalidValue;
    }
    MatchBeforeNul(c.text, c.json, NullText);
    c.json := c.json + 4;
    v.ty := Null;
    return Ok;
  }

  /** `lept_parse_true`: compares four characters but advances three. */
  method ParseTrue(c: Context, v: LeptValue) returns (r: ParseError)
    requires c.Valid()
    modifies c, v
    ensures c.Valid()
    ensures Step(r, c.json, v.ty) == LiteralStep(c.text, old(c.json), old(v.ty), TrueText, 3, True)
  {
    if !Matches(c.text, c.json, TrueText) {
      return InvalidValue;
    }
    MatchBeforeNul(c.text, c.json, TrueText);
    c.json := c.json + 3;
    v.ty := True;
    return Ok;
  }

  /** `lept_parse_false` */
  method ParseFalse(c: Context, v: LeptValue) returns (r: ParseError)
    requires c.Valid()
    modifies c, v
    ensures c.Valid()
    ensures Step(r, c.json, v.ty) == LiteralStep(c.text, old(c.json), old(v.ty), FalseText, |FalseText|, False)
  {
    if !Matches(c.text, c.json, FalseText) {
      return InvalidValue;
    }
    MatchBeforeNul(c.text, c.json, FalseText);
    c.json := c.json + |FalseText|;
    v.ty := False;
    return Ok;
  }

  /** `lept_parse_value` */
  method ParseValue(c: Context, v: LeptValue) returns (r: ParseError)
    requires c.Valid()
    modifies c, v
    ensures c.Valid()
    ensures Step(r, c.json, v.ty) == ValueStep(c.text, old(c.json), old(v.ty))
  {
    var ch := c.text[c.json];
    if ch == 'n' {
      r := ParseNull(c, v);
    } else if ch == 'f' {
      r := ParseFalse(c, v);
    } else if ch == 't' {
      r := ParseTrue(c, v);
    } else if ch == '\0' {
      r := ExpectValue;
    } else {
      r := InvalidValue;
    }
  }

  /** `lept_parse` */
  method Parse(v: LeptValue, json: seq<char>) returns (r: ParseError)
    requires IsCString(json)
    modifies v
    ensures Parsed(r, v.ty) == LeptParse(json)
  {
    var c := new Context(json);
    v.ty := Null;
    ParseWhitespace(c);
    r := ParseValue(c, v);
    if r == Ok {
      ParseWhitespace(c);
      if c.text[c.json] != '\0' {
        return RootNotSingular;
      }
    }
  }

  /** `lept_get_type` */
  function GetType(v: LeptValue): (t: LeptType)
    reads v
    ensures t == v.ty
  {
    v.ty
  }

  // ---------------------------------------------------------------------------
  // What `lept_parse` accepts

  /** The whitespace loop stops at the first non-whitespace character after `p`. */
  lemma {:induction false} SkipWsAt(s: seq<char>, p: nat, i: nat)
    requires IsCString(s) && p <= i <= Nul(s) && AllWs(s[p..i]) && !IsWs(s[i])
    ensures SkipWs(s, p) == i
    decreases i - p
  {
    if p < i {
      assert IsWs(s[p..i][0]);
      assert s[p + 1..i] == s[p..i][1..];
      SkipWsAt(s, p + 1, i);
    }
  }

  /** `"true"` stops one character short, so the document is reported as not singular, with the type already `True`. */
  lemma TrueDocument()
    ensures LeptParse("true\0") == Parsed(RootNotSingular, True)
  {
    var s := "true\0";
    SkipWsAt(s, 0, 0);
    assert s[0..4] == TrueText;
    SkipWsAt(s, 3, 3);
  }

  /** An unknown word is an invalid value, and the type is the `Null` stored before parsing. */
  lemma MisspelledNull()
    ensures LeptParse("nul\0") == Parsed(InvalidValue, Null)
  {
    SkipWsAt("nul\0", 0, 0);
  }

  /** `lept_parse` expects a value exactly when the string holds nothing but whitespace. */
  lemma ExpectValueIff(s: seq<char>)
    requires IsCString(s)
    ensures LeptParse(s).code == ExpectValue <==> AllWs(s[..Nul(s)])
  {
    var p := SkipWs(s, 0);
    if s[p] == '\0' {
      assert p == Nul(s);
      assert s[0..p] == s[..Nul(s)];
    }
    if AllWs(s[..Nul(s)]) {
      assert s[0..Nul(s)] == s[..Nul(s)];
      SkipWsAt(s, 0, Nul(s));
    }
  }

  /**
   * The type `lept_parse` leaves: success only with `Null` or `False`; on a
   * failure to parse a value the type stays `Null`; and `True` only ever
   * comes with `RootNotSingular`.
   */
  lemma Outcomes(s: seq<char>)
    requires IsCString(s)
    ensures LeptParse(s).code == Ok ==> LeptParse(s).ty == Null || LeptParse(s).ty == False
    ensures LeptParse(s).code == ExpectValue || LeptParse(s).code == InvalidValue ==> LeptParse(s).ty == Null
    ensures LeptParse(s).ty == True ==> LeptParse(s).code == RootNotSingular
  {
    var p := SkipWs(s, 0);
    if s[p] == 't' && Matches(s, p, TrueText) {
      MatchBeforeNul(s, p, TrueText);
      assert s[p + 3] == s[p..p + 4][3] == 'e';
      SkipWsAt(s, p + 3, p + 3);
    }
  }

  /** The documents `lept_parse` accepts: whitespace, `null` or `false`, whitespace. */
  ghost predicate Accepted(t: seq<char>)
  {
    exists i, j :: 0 <= i <= j <= |t| && AllWs(t[..i]) && (t[i..j] == NullText || t[i..j] == FalseText) && AllWs(t[j..])
  }

  /** `t` followed by its `'\0'`, where the string ends. */
  lemma Terminate(t: seq<char>)
    requires '\0' !in t
    ensures IsCString(t + "\0") && Nul(t + "\0") == |t|
  {
    var s := t + "\0";
    assert s[|t|] == '\0';
    assert forall k :: 0 <= k < |t| ==> s[k] == t[k];
  }

  /** Where the pieces of a document `lept_parse` succeeds on lie in the C string. */
  lemma OkShape(s: seq<char>) returns (i: nat, j: nat)
    requires IsCString(s) && LeptParse(s).code == Ok
    ensures i <= j <= Nul(s) && AllWs(s[0..i]) && AllWs(s[j..Nul(s)])
    ensures s[i..j] == NullText || s[i..j] == FalseText
  {
    i := SkipWs(s, 0);
    ValueEnd(s, i, Null);
    Outcomes(s);
    j := ValueStep(s, i, Null).next;
    assert SkipWs(s, j) == Nul(s);
  }

  /** A document `lept_parse` succeeds on is accepted. */
  lemma OkIsAccepted(t: seq<char>)
    requires '\0' !in t
    ensures IsCString(t + "\0")
    ensures LeptParse(t + "\0").code == Ok ==> Accepted(t)
  {
    Terminate(t);
    var s := t + "\0";
    if LeptParse(s).code == Ok {
      var i, j := OkShape(s);
      assert t[..i] == s[0..i];
      assert t[i..j] == s[i..j];
      assert t[j..] == s[j..|t|];
    }
  }

  /**
   * A document made of whitespace, `null` or `false`, and more whitespace:
   * it parses when the string ends there, and is not singular when anything
   * else follows; either way the type is the literal's.
   */
  lemma LiteralDocument(t: seq<char>, i: nat, j: nat, k: nat)
    requires '\0' !in t
    requires i <= j <= k <= |t| && AllWs(t[..i]) && (t[i..j] == NullText || t[i..j] == FalseText)
    requires AllWs(t[j..k]) && (k == |t| || !IsWs(t[k]))
    ensures IsCString(t + "\0")
    ensures LeptParse(t + "\0") == Parsed(if k == |t| then Ok else RootNotSingular, if t[i..j] == NullText then Null else False)
  {
    Terminate(t);
    var s := t + "\0";
    var lit := t[i..j];
    assert |lit| > 0 && s[i..j] == lit;
    assert s[i] == lit[0];
    assert s[0..i] == t[..i];
    SkipWsAt(s, 0, i);
    assert Matches(s, i, lit);
    assert s[j..k] == t[j..k];
    SkipWsAt(s, j, k);
  }

  /** `"null"` parses, and the type is `Null`. */
  lemma NullDocument()
    ensures LeptParse("null\0") == Parsed(Ok, Null)
  {
    LiteralDocument("null", 0, 4, 4);
    assert "null" + "\0" == "null\0";
  }

  /** Whitespace of all four kinds around a literal is skipped. */
  lemma SpacedFalse()
    ensures LeptParse(" \t\nfalse\r \0") == Parsed(Ok, False)
  {
    var t := " \t\nfalse\r ";
    assert t[..3] == " \t\n";
    assert t[3..8] == FalseText;
    assert t[8..] == "\r ";
    LiteralDocument(t, 3, 8, 10);
    assert t + "\0" == " \t\nfalse\r \0";
  }

  /** Text after a value is an error, but the type the value stored stays. */
  lemma TrailingText()
    ensures LeptParse("false x\0") == Parsed(RootNotSingular, False)
    ensures LeptParse("null x\0") == Parsed(RootNotSingular, Null)
  {
    var f := "false x";
    assert f[0..5] == FalseText;
    assert f[5..6] == " ";
    LiteralDocument(f, 0, 5, 6);
    assert f + "\0" == "false x\0";
    var n := "null x";
    assert n[0..4] == NullText;
    assert n[4..5] == " ";
    LiteralDocument(n, 0, 4, 5);
    assert n + "\0" == "null x\0";
  }

  /** For a C string `t`, `lept_parse` succeeds exactly on the accepted documents. */
  lemma OkIff(t: seq<char>)
    requires '\0' !in t
    ensures IsCString(t + "\0")
    ensures LeptParse(t + "\0").code == Ok <==> Accepted(t)
  {
    OkIsAccepted(t);
    if Accepted(t) {
      var i, j :| 0 <= i <= j <= |t| && AllWs(t[..i]) && (t[i..j] == NullText || t[i..j] == FalseText) && AllWs(t[j..]);
      LiteralDocument(t, i, j, |t|);
    }
  }
}
