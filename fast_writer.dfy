/// `FastWriter` of json.hpp: the whole document on one line. A container is
/// built by appending every item followed by `" , "` and then removing the
/// last two bytes with two `pop_back` calls; object keys are written without
/// quotes. For an empty container the two `pop_back` calls remove the opening
/// `"[ "` or `"{ "` itself, so all that is left is the closing bracket.
module JsonFastWriter {
  import opened JsonValue
  import opened JsonValueFacts
  import opened JsonCell
  import opened JsonGrammar
  import opened JsonWriter
  import opened JsonRender

  /** What follows every item until the two `pop_back` calls. */
  const Separator: Bytes := " , "

  /** What both container methods start with. */
  const ArrayOpen: Bytes := "[ "
  const ObjectOpen: Bytes := "{ "

  /** One item of an array, as the writer renders it. */
  function ItemTexts(fmt: Format, v: Value): (r: seq<Bytes>)
    requires v.tag == Array && Writable(v)
    ensures |r| == |v.elems|
    decreases v, 0
  {
    seq(|v.elems|, i requires 0 <= i < |v.elems| => FastText(fmt, v.elems[i]))
  }

  /** One member of an object, as the writer renders it: the bare key, `" : "`, the value. */
  function MemberTexts(fmt: Format, v: Value): (r: seq<Bytes>)
    requires v.tag == Object && Writable(v)
    ensures |r| == |v.members|
    decreases v, 0
  {
    seq(|v.members|, i requires 0 <= i < |v.members| => v.members[i].key + Colon + FastText(fmt, v.members[i].val))
  }

  /**
   * The text `FastWriter::write` produces: a non-empty array is
   * `"[ " + join(items, " , ") + " ]"`, a non-empty object the same with
   * braces and `key : value` members, and an empty container only its
   * closing bracket.
   */
  function FastText(fmt: Format, v: Value): Bytes
    requires Writable(v)
    decreases v, 1
  {
    if v.tag == Array then
      if |v.elems| == 0 then "]" else ArrayOpen + Join(ItemTexts(fmt, v), Separator) + " ]"
    else if v.tag == Object then
      if |v.members| == 0 then "}" else ObjectOpen + Join(MemberTexts(fmt, v), Separator) + " }"
    else ScalarText(fmt, v)
  }

  /** `FastWriter::write` */
  method Write(fmt: Format, root: Value) returns (s: Bytes)
    requires Writable(root) && WellFormed(root)
    ensures s == FastText(fmt, root)
  {
    s := ConvertValue(fmt, root);
  }

  /** `Writer::convert_value`, dispatching to `FastWriter`'s container methods. */
  method ConvertValue(fmt: Format, v: Value) returns (s: Bytes)
    requires Writable(v) && WellFormed(v)
    ensures s == FastText(fmt, v)
    decreases v, 2
  {
    if v.tag == Array {
      s := ConvertArray(fmt, v);
    } else if v.tag == Object {
      s := ConvertObject(fmt, v);
    } else {
      s := ConvertScalar(fmt, v);
    }
  }

  /** The two `pop_back` calls and the closing bracket that end both container methods. */
  lemma Close(s: Bytes, open: Bytes, parts: seq<Bytes>, close: Byte)
    requires |open| == 2 && s == open + Terminated(parts, Separator)
    ensures |s| >= 2
    ensures |parts| == 0 ==> s[..|s| - 2] + [close] == [close]
    ensures |parts| > 0 ==> s[..|s| - 2] + [close] == open + Join(parts, Separator) + [' ', close]
  {
    if |parts| > 0 {
      DropTrailing(open, parts, Separator, s, close);
    } else {
      assert s == open;
    }
  }

  /** Text after the items `..i` of an array, extended by item `i` and the separator. */
  lemma ItemStep(fmt: Format, v: Value, i: nat, before: Bytes, item: Bytes, s: Bytes)
    requires v.tag == Array && Writable(v) && i < |v.elems|
    requires before == ArrayOpen + Terminated(ItemTexts(fmt, v)[..i], Separator)
    requires item == FastText(fmt, v.elems[i]) && s == before + item + Separator
    ensures s == ArrayOpen + Terminated(ItemTexts(fmt, v)[..i + 1], Separator)
  {
    AppendPiece(ArrayOpen, ItemTexts(fmt, v), i, Separator, before);
  }

  /** Text after the members `..i` of an object, extended by member `i` and the separator. */
  lemma MemberStep(fmt: Format, v: Value, i: nat, before: Bytes, item: Bytes, s: Bytes)
    requires v.tag == Object && Writable(v) && i < |v.members|
    requires before == ObjectOpen + Terminated(MemberTexts(fmt, v)[..i], Separator)
    requires item == FastText(fmt, v.members[i].val) && s == before + v.members[i].key + Colon + item + Separator
    ensures s == ObjectOpen + Terminated(MemberTexts(fmt, v)[..i + 1], Separator)
  {
    AppendLabelled(ObjectOpen, MemberTexts(fmt, v), i, Separator, before, v.members[i].key, item);
  }

  /** After the last item, the two `pop_back` calls and `"]"` give the array's text. */
  lemma CloseArray(fmt: Format, v: Value, i: nat, s: Bytes)
    requires v.tag == Array && Writable(v) && i == |v.elems|
    requires s == ArrayOpen + Terminated(ItemTexts(fmt, v)[..i], Separator)
    ensures |s| >= 2 && s[..|s| - 2] + "]" == FastText(fmt, v)
  {
    var parts := ItemTexts(fmt, v);
    assert parts[..|v.elems|] == parts;
    Close(s, ArrayOpen, parts, ']');
  }

  /** After the last member, the two `pop_back` calls and `"}"` give the object's text. */
  lemma CloseObject(fmt: Format, v: Value, i: nat, s: Bytes)
    requires v.tag == Object && Writable(v) && i == |v.members|
    requires s == ObjectOpen + Terminated(MemberTexts(fmt, v)[..i], Separator)
    ensures |s| >= 2 && s[..|s| - 2] + "}" == FastText(fmt, v)
  {
    var parts := MemberTexts(fmt, v);
    assert parts[..|v.members|] == parts;
    Close(s, ObjectOpen, parts, '}');
  }

  /** `FastWriter::convert_array` */
  method ConvertArray(fmt: Format, v: Value) returns (s: Bytes)
    requires v.tag == Array && Writable(v) && WellFormed(v)
    ensures s == FastText(fmt, v)
    decreases v, 1
  {
    s := ArrayOpen;
    var i := 0;
    while i < Size(v)
      invariant i <= |v.elems|
      invariant s == ArrayOpen + Terminated(ItemTexts(fmt, v)[..i], Separator)
    {
      ghost var before := s;
      var item := ConvertValue(fmt, At(v, i));
      s := s + item;
      s := s + Separator;
      ItemStep(fmt, v, i, before, item, s);
      assert s == ArrayOpen + Terminated(ItemTexts(fmt, v)[..i + 1], Separator);
      i := i + 1;
    }
    CloseArray(fmt, v, i, s);
    ghost var full := s;
    s := s[..|s| - 1];
    s := s[..|s| - 1];
    assert s == full[..|full| - 2];
    s := s + "]";
  }

  /** Looking up the `i`-th name of a well-formed object yields its `i`-th member, which is writable and well formed. */
  lemma MemberLookup(v: Value, i: nat)
    requires v.tag == Object && Writable(v) && WellFormed(v) && i < |v.members|
    ensures Get(v, v.members[i].key) == v.members[i].val
    ensures Writable(v.members[i].val) && WellFormed(v.members[i].val)
  {
    FindSortedAt(v.members, i);
  }

  /** One round of the loop of `FastWriter::convert_object`: the name, `" : "`, the value looked up by the name, the separator. */
  method AppendMember(fmt: Format, v: Value, names: seq<Bytes>, i: nat, s: Bytes) returns (s': Bytes)
    requires v.tag == Object && Writable(v) && WellFormed(v)
    requires names == Keys(v.members) && i < |names|
    ensures s' == s + v.members[i].key + Colon + FastText(fmt, v.members[i].val) + Separator
    decreases v, 0
  {
    s' := s + names[i];
    s' := s' + Colon;
    var member := Get(v, names[i]);
    assert member == v.members[i].val && Writable(member) && WellFormed(member) by {
      MemberLookup(v, i);
    }
    var item := ConvertValue(fmt, member);
    s' := s' + item;
    s' := s' + Separator;
  }

  /** `FastWriter::convert_object`: the names in the map's order, each value looked up by its name. */
  method ConvertObject(fmt: Format, v: Value) returns (s: Bytes)
    requires v.tag == Object && Writable(v) && WellFormed(v)
    ensures s == FastText(fmt, v)
    decreases v, 1
  {
    s := ObjectOpen;
    var names := GetMemberNames(v);
    var i := 0;
    while i < |names|
      invariant i <= |names| == |v.members|
      invariant names == Keys(v.members)
      invariant s == ObjectOpen + Terminated(MemberTexts(fmt, v)[..i], Separator)
    {
      ghost var before := s;
      s := AppendMember(fmt, v, names, i, s);
      MemberStep(fmt, v, i, before, FastText(fmt, v.members[i].val), s);
      assert s == ObjectOpen + Terminated(MemberTexts(fmt, v)[..i + 1], Separator);
      i := i + 1;
    }
    CloseObject(fmt, v, i, s);
    ghost var full := s;
    s := s[..|s| - 1];
    s := s[..|s| - 1];
    assert s == full[..|full| - 2];
    s := s + "}";
  }

  // ---------------------------------------------------------------------------
  // What the text looks like

  /** An empty array or object is written as its closing bracket alone. */
  lemma EmptyContainerText(fmt: Format, v: Value)
    requires Writable(v) && (v.tag == Array || v.tag == Object) && Size(v) == 0
    ensures FastText(fmt, v) == if v.tag == Array then "]" else "}"
  {
  }

  /** A key is written as its raw bytes: `{"a": null}` becomes `{ a : null }`. */
  lemma UnquotedKey(fmt: Format)
    ensures FastText(fmt, FromMember("a", Default())) == "{ a : null }"
  {
    var v := FromMember("a", Default());
    assert FastText(fmt, Default()) == "null";
    assert MemberTexts(fmt, v)[0] == "a : null";
    assert MemberTexts(fmt, v) == ["a : null"];
  }
}
