/// `StyleWriter` of json.hpp: one item per line, indented by `PUSH_TAB`,
/// which writes four spaces for every level counted in the field `tab_count`.
/// A container raises `tab_count` when it opens and lowers it after its last
/// item; an empty container has no last item, so it leaves `tab_count` one
/// higher than it found it, and every line written after it is indented one
/// level deeper. Object keys are written without quotes.
module JsonStyleWriter {
  import opened JsonValue
  import opened JsonValueFacts
  import opened JsonCell
  import opened JsonWriter
  import opened JsonRender

  /** What `PUSH_TAB` writes per level. */
  const Indent: Bytes := "    "
  const ArrayStart: Bytes := "[\n"
  const ObjectStart: Bytes := "{\n"
  /** What follows every item but the last. */
  const NextLine: Bytes := ",\n"
  /** What follows the last item. */
  const LastLine: Bytes := "\n"

  /** `PUSH_TAB` at level `n`: `4 * n` spaces. */
  function Tabs(n: nat): (r: Bytes)
    ensures |r| == 4 * n && forall k :: 0 <= k < |r| ==> r[k] == ' '
  {
    if n == 0 then [] else Tabs(n - 1) + Indent
  }

  /** Text written, and the value of `tab_count` afterwards. */
  datatype Styled = Styled(text: Bytes, tabs: nat)

  predicate IsContainer(v: Value)
  {
    v.tag == Array || v.tag == Object
  }

  /** The `k`-th item of a container: an element, or the value of the `k`-th member in key order. */
  function Child(v: Value, k: nat): Value
    requires IsContainer(v) && k < Size(v)
  {
    if v.tag == Array then v.elems[k] else v.members[k].val
  }

  /** What stands before the `k`-th item's text on its line: nothing, or the bare key and `" : "`. */
  function Label(v: Value, k: nat): Bytes
    requires IsContainer(v) && k < Size(v)
  {
    if v.tag == Array then [] else v.members[k].key + Colon
  }

  function Start(v: Value): Bytes
    requires IsContainer(v)
  {
    if v.tag == Array then ArrayStart else ObjectStart
  }

  function End(v: Value): Bytes
    requires IsContainer(v)
  {
    if v.tag == Array then "]" else "}"
  }

  /**
   * What `convert_value` writes for `v` when `tab_count` is `t`, and the
   * `tab_count` it leaves: a container opens its bracket and a line, raises
   * the count, writes its items, and closes with the bracket indented by
   * the count it is left with.
   */
  function StyleText(fmt: Format, v: Value, t: nat): (r: Styled)
    requires Writable(v)
    ensures r.tabs >= t
    decreases v, 1, 0
  {
    if IsContainer(v) then
      var b := Children(fmt, v, Size(v), t + 1);
      Styled(Start(v) + b.text + Tabs(b.tabs) + End(v), b.tabs)
    else Styled(ScalarText(fmt, v), t)
  }

  /**
   * The lines of the first `i` items of container `v`, written from
   * `tab_count` `t0` on: each indented at the current count, each but the
   * last followed by `",\n"`, the last by `"\n"` and a decrement.
   */
  function Children(fmt: Format, v: Value, i: nat, t0: nat): (r: Styled)
    requires IsContainer(v) && Writable(v) && i <= Size(v) && t0 >= 1
    ensures i < Size(v) ==> r.tabs >= t0
    ensures r.tabs + 1 >= t0
    decreases v, 0, i
  {
    if i == 0 then Styled([], t0)
    else
      var p := Children(fmt, v, i - 1, t0);
      var e := StyleText(fmt, Child(v, i - 1), p.tabs);
      var line := p.text + Tabs(p.tabs) + Label(v, i - 1) + e.text;
      if i == Size(v) then Styled(line + LastLine, e.tabs - 1) else Styled(line + NextLine, e.tabs)
  }

  // ---------------------------------------------------------------------------
  // The writer

  /**
   * `StyleWriter`, whose one field is `tab_count`. The member functions it
   * calls while writing read and update `tab_count` and nothing else of the
   * object; below they take its value in and give the new value back, and
   * `Write` stores the final value in the field.
   */
  class StyleWriter {
    var tabCount: nat

    /** `size_t tab_count = 0` */
    constructor()
      ensures tabCount == 0
    {
      tabCount := 0;
    }

    /** `StyleWriter::write`: resets `tab_count`, then writes the root. */
    method Write(fmt: Format, root: Value) returns (s: Bytes)
      requires Writable(root) && WellFormed(root)
      modifies this
      ensures Styled(s, tabCount) == StyleText(fmt, root, 0)
    {
      tabCount := 0;
      s, tabCount := ConvertValue(fmt, root, tabCount);
    }
  }

  /** `PUSH_TAB(str)` with `tab_count` equal to `tabs` */
  method PushTab(s: Bytes, tabs: nat) returns (s': Bytes)
    ensures s' == s + Tabs(tabs)
  {
    s' := s;
    var n := 0;
    while n < tabs
      invariant n <= tabs
      invariant s' == s + Tabs(n)
    {
      s' := s' + Indent;
      n := n + 1;
    }
  }

  /** `Writer::convert_value`, dispatching to `StyleWriter`'s container methods. */
  method ConvertValue(fmt: Format, v: Value, tabs: nat) returns (s: Bytes, tabs': nat)
    requires Writable(v) && WellFormed(v)
    ensures Styled(s, tabs') == StyleText(fmt, v, tabs)
    decreases v, 2
  {
    if v.tag == Array {
      s, tabs' := ConvertArray(fmt, v, tabs);
    } else if v.tag == Object {
      s, tabs' := ConvertObject(fmt, v, tabs);
    } else {
      s := ConvertScalar(fmt, v);
      tabs' := tabs;
    }
  }

  /** `StyleWriter::convert_array` */
  method ConvertArray(fmt: Format, v: Value, tabs: nat) returns (s: Bytes, tabs': nat)
    requires v.tag == Array && Writable(v) && WellFormed(v)
    ensures Styled(s, tabs') == StyleText(fmt, v, tabs)
    decreases v, 1
  {
    s := ArrayStart;
    tabs' := tabs + 1;
    ghost var t0 := tabs';
    var i := 0;
    while i < Size(v)
      invariant i <= Size(v)
      invariant Styled(s, tabs') == Opened(ArrayStart, Children(fmt, v, i, t0))
    {
      s, tabs' := ArrayItem(fmt, v, i, t0, s, tabs');
      i := i + 1;
    }
    s := CloseContainer(fmt, v, tabs, i, t0, s, tabs');
  }

  /** One round of the loop of `convert_array`: the indented item, then `",\n"`, or `"\n"` and a decrement after the last. */
  method ArrayItem(fmt: Format, v: Value, i: nat, ghost t0: nat, s: Bytes, tabs: nat) returns (s': Bytes, tabs': nat)
    requires v.tag == Array && Writable(v) && WellFormed(v) && i < Size(v) && t0 >= 1
    requires Styled(s, tabs) == Opened(ArrayStart, Children(fmt, v, i, t0))
    ensures Styled(s', tabs') == Opened(ArrayStart, Children(fmt, v, i + 1, t0))
    decreases v, 0
  {
    s' := PushTab(s, tabs);
    ChildFacts(v, i);
    var item;
    item, tabs' := ConvertValue(fmt, At(v, i), tabs);
    ghost var e := Styled(item, tabs');
    s' := s' + item;
    if i + 1 != Size(v) {
      s' := s' + NextLine;
    } else {
      s' := s' + LastLine;
      tabs' := tabs' - 1;
    }
    ghost var sep := if i + 1 < Size(v) then NextLine else LastLine;
    assert s' == s + Tabs(tabs) + Label(v, i) + e.text + sep by {
      NoLabel(s + Tabs(tabs), item, sep);
    }
    ChildStep(fmt, v, i, t0, ArrayStart, s, Children(fmt, v, i, t0), e, sep, s', tabs');
  }

  /** `StyleWriter::convert_object`: the names in the map's order, each value looked up by its name. */
  method ConvertObject(fmt: Format, v: Value, tabs: nat) returns (s: Bytes, tabs': nat)
    requires v.tag == Object && Writable(v) && WellFormed(v)
    ensures Styled(s, tabs') == StyleText(fmt, v, tabs)
    decreases v, 1
  {
    s := ObjectStart;
    tabs' := tabs + 1;
    ghost var t0 := tabs';
    var names := GetMemberNames(v);
    var i := 0;
    while i < |names|
      invariant names == Keys(v.members)
      invariant i <= Size(v)
      invariant Styled(s, tabs') == Opened(Start(v), Children(fmt, v, i, t0))
    {
      s, tabs' := ObjectMember(fmt, v, names, i, t0, s, tabs');
      i := i + 1;
    }
    s := CloseContainer(fmt, v, tabs, i, t0, s, tabs');
  }

  /** One round of the loop of `convert_object`: the indented name, `" : "`, the value looked up by the name, then the line end. */
  method ObjectMember(fmt: Format, v: Value, names: seq<Bytes>, i: nat, ghost t0: nat, s: Bytes, tabs: nat) returns (s': Bytes, tabs': nat)
    requires v.tag == Object && Writable(v) && WellFormed(v) && names == Keys(v.members) && i < |names| && t0 >= 1
    requires Styled(s, tabs) == Opened(Start(v), Children(fmt, v, i, t0))
    ensures Styled(s', tabs') == Opened(Start(v), Children(fmt, v, i + 1, t0))
    decreases v, 0
  {
    var name := names[i];
    s' := PushTab(s, tabs);
    s' := s' + name;
    s' := s' + Colon;
    ChildFacts(v, i);
    var member := Get(v, name);
    var item;
    item, tabs' := ConvertValue(fmt, member, tabs);
    ghost var e := Styled(item, tabs');
    s' := s' + item;
    if i + 1 != Size(v) {
      s' := s' + NextLine;
    } else {
      tabs' := tabs' - 1;
      s' := s' + LastLine;
    }
    ghost var sep := if i + 1 < Size(v) then NextLine else LastLine;
    assert s' == s + Tabs(tabs) + Label(v, i) + e.text + sep by {
      KeyLabel(s + Tabs(tabs), name, item, sep);
    }
    ChildStep(fmt, v, i, t0, Start(v), s, Children(fmt, v, i, t0), e, sep, s', tabs');
  }

  /** The end of both container methods: `PUSH_TAB` at the count the items leave, then the closing bracket. */
  method CloseContainer(fmt: Format, v: Value, t: nat, ghost i: nat, ghost t0: nat, s: Bytes, tabs: nat) returns (s': Bytes)
    requires IsContainer(v) && Writable(v) && i == Size(v) && t0 == t + 1
    requires Styled(s, tabs) == Opened(Start(v), Children(fmt, v, i, t0))
    ensures Styled(s', tabs) == StyleText(fmt, v, t)
  {
    ghost var text := Children(fmt, v, i, t0).text;
    FromChildren(fmt, v, t, text, tabs);
    s' := PushTab(s, tabs);
    if v.tag == Array {
      s' := s' + "]";
    } else {
      s' := s' + "}";
    }
  }

  /** A container's text, given the text and the count its items leave. */
  lemma FromChildren(fmt: Format, v: Value, t: nat, text: Bytes, tabs: nat)
    requires IsContainer(v) && Writable(v) && Children(fmt, v, Size(v), t + 1) == Styled(text, tabs)
    ensures StyleText(fmt, v, t) == Styled(Start(v) + text + Tabs(tabs) + End(v), tabs)
  {
  }

  /** An array item has no label. */
  lemma NoLabel(a: Bytes, item: Bytes, sep: Bytes)
    ensures a + item + sep == a + [] + item + sep
  {
    assert a + [] == a;
  }

  /** A member's key and `" : "`, written one after the other, form its label. */
  lemma KeyLabel(a: Bytes, key: Bytes, item: Bytes, sep: Bytes)
    ensures a + key + Colon + item + sep == a + (key + Colon) + item + sep
  {
    assert a + key + Colon == a + (key + Colon);
  }

  /** `a + (b + c) == a + b + c` */
  lemma Regroup(a: Bytes, b: Bytes, c: Bytes)
    ensures a + (b + c) == a + b + c
  {
  }

  /** The text of the first items after the opening bracket, with the count they leave. */
  function Opened(start: Bytes, p: Styled): Styled
  {
    Styled(start + p.text, p.tabs)
  }

  /** What the writer needs of item `k`: writable, well formed and, in an object, found under its own key. */
  lemma ChildFacts(v: Value, k: nat)
    requires IsContainer(v) && Writable(v) && WellFormed(v) && k < Size(v)
    ensures Writable(Child(v, k)) && WellFormed(Child(v, k))
    ensures v.tag == Array ==> At(v, k) == Child(v, k)
    ensures v.tag == Object ==> Get(v, v.members[k].key) == Child(v, k)
  {
    if v.tag == Object {
      FindSortedAt(v.members, k);
    }
  }

  /** One round of either container loop extends the text and the count to `i + 1` items. */
  lemma ChildStep(fmt: Format, v: Value, i: nat, t0: nat, start: Bytes, before: Bytes, p: Styled, e: Styled, sep: Bytes, s: Bytes, tabs: nat)
    requires IsContainer(v) && Writable(v) && i < Size(v) && t0 >= 1
    requires p == Children(fmt, v, i, t0) && before == start + p.text
    requires e == StyleText(fmt, Child(v, i), p.tabs)
    requires sep == (if i + 1 < Size(v) then NextLine else LastLine)
    requires tabs == (if i + 1 < Size(v) then e.tabs else e.tabs - 1)
    requires s == before + Tabs(p.tabs) + Label(v, i) + e.text + sep
    ensures Styled(s, tabs) == Opened(start, Children(fmt, v, i + 1, t0))
  {
    var line := p.text + Tabs(p.tabs) + Label(v, i) + e.text;
    assert Children(fmt, v, i + 1, t0) == Styled(line + sep, tabs);
    Regroup(start, p.text, Tabs(p.tabs));
    Regroup(start, p.text + Tabs(p.tabs), Label(v, i));
    Regroup(start, p.text + Tabs(p.tabs) + Label(v, i), e.text);
    Regroup(start, line, sep);
  }
}
