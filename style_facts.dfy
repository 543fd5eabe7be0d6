/// What the text of `StyleWriter` looks like, and what it does to
/// `tab_count`: every empty container in the document raises the count by
/// one for good; a document without empty containers gives the count back
/// and lays out one item per line, indented four spaces per level, with the
/// closing bracket at the container's own level.
module JsonStyleFacts {
  import opened JsonValue
  import opened JsonWriter
  import opened JsonRender
  import opened JsonStyleWriter

  /** How many empty arrays and objects `v` holds, itself included. */
  function EmptyContainers(v: Value): nat
    decreases v, 1, 0
  {
    if IsContainer(v) then
      if Size(v) == 0 then 1 else EmptyBelow(v, Size(v))
    else 0
  }

  /** How many empty containers the first `i` items of container `v` hold. */
  function EmptyBelow(v: Value, i: nat): nat
    requires IsContainer(v) && i <= Size(v)
    decreases v, 0, i
  {
    if i == 0 then 0 else EmptyBelow(v, i - 1) + EmptyContainers(Child(v, i - 1))
  }

  /** Writing `v` raises `tab_count` by exactly the number of empty containers in it. */
  lemma {:induction false} TabCount(fmt: Format, v: Value, t: nat)
    requires Writable(v)
    ensures StyleText(fmt, v, t).tabs == t + EmptyContainers(v)
    decreases v, 1, 0
  {
    if IsContainer(v) {
      ChildrenTabCount(fmt, v, Size(v), t + 1);
    }
  }

  /** The count after the first `i` items: one decrement only once the last item is written. */
  lemma {:induction false} ChildrenTabCount(fmt: Format, v: Value, i: nat, t0: nat)
    requires IsContainer(v) && Writable(v) && i <= Size(v) && t0 >= 1
    ensures Children(fmt, v, i, t0).tabs == t0 + EmptyBelow(v, i) - (if i == Size(v) && i > 0 then 1 else 0)
    decreases v, 0, i
  {
    if i > 0 {
      ChildrenTabCount(fmt, v, i - 1, t0);
      TabCount(fmt, Child(v, i - 1), Children(fmt, v, i - 1, t0).tabs);
    }
  }

  /** `tab_count` is back where it started after writing `v` exactly when `v` holds no empty container. */
  lemma TabsRestored(fmt: Format, v: Value, t: nat)
    requires Writable(v)
    ensures StyleText(fmt, v, t).tabs == t <==> EmptyContainers(v) == 0
  {
    TabCount(fmt, v, t);
  }

  /** An empty container is its opening bracket, a line indented one level deeper, and its closing bracket; the count stays raised. */
  lemma EmptyContainerText(fmt: Format, v: Value, t: nat)
    requires IsContainer(v) && Writable(v) && Size(v) == 0
    ensures StyleText(fmt, v, t) == Styled(Start(v) + Tabs(t + 1) + End(v), t + 1)
  {
    assert Start(v) + [] == Start(v);
  }

  /**
   * The closing bracket of a container written at count `t` is indented
   * by `t` levels plus one for every empty container inside it (itself
   * included), not by `t` alone.
   */
  lemma ClosingIndent(fmt: Format, v: Value, t: nat)
    requires IsContainer(v) && Writable(v)
    ensures StyleText(fmt, v, t).text == Start(v) + Children(fmt, v, Size(v), t + 1).text + Tabs(t + EmptyContainers(v)) + End(v)
  {
    TabCount(fmt, v, t);
  }

  /** In `[[]]` the empty inner array leaves the count at one, so the outer `]` is indented four spaces. */
  lemma EmptyInsideArray(fmt: Format, v: Value)
    requires v.tag == Array && |v.elems| == 1 && v.elems[0].tag == Array && |v.elems[0].elems| == 0
    ensures Writable(v) && EmptyContainers(v) == 1
    ensures StyleText(fmt, v, 0).tabs == 1
    ensures StyleText(fmt, v, 0).text == ArrayStart + Children(fmt, v, 1, 1).text + "    " + "]"
  {
    assert Child(v, 0) == v.elems[0];
    assert EmptyContainers(v.elems[0]) == 1;
    assert EmptyBelow(v, 1) == 1;
    assert Tabs(1) == "    ";
    ClosingIndent(fmt, v, 0);
    TabCount(fmt, v, 0);
  }

  /** Item `k` on its line at count `t0`: the indentation, the label, the item's text. */
  function Line(fmt: Format, v: Value, k: nat, t0: nat): Bytes
    requires IsContainer(v) && Writable(v) && k < Size(v)
  {
    Tabs(t0) + Label(v, k) + StyleText(fmt, Child(v, k), t0).text
  }

  /** The lines of the items of container `v` at count `t0`, without their line ends. */
  function Lines(fmt: Format, v: Value, t0: nat): (r: seq<Bytes>)
    requires IsContainer(v) && Writable(v)
    ensures |r| == Size(v)
  {
    seq(Size(v), k requires 0 <= k < Size(v) => Line(fmt, v, k, t0))
  }

  /** When no item before `i` holds an empty container, none of those items does. */
  lemma {:induction false} NoEmptyBefore(v: Value, i: nat, k: nat)
    requires IsContainer(v) && i <= Size(v) && EmptyBelow(v, i) == 0 && k < i
    ensures EmptyContainers(Child(v, k)) == 0
    decreases i
  {
    if k < i - 1 {
      NoEmptyBefore(v, i - 1, k);
    }
  }

  /** One more item, without empty containers in it, adds its line and the line end to the text and keeps the count. */
  lemma LineStep(fmt: Format, v: Value, i: nat, t0: nat, before: Bytes)
    requires IsContainer(v) && Writable(v) && 0 < i <= Size(v) && t0 >= 1
    requires Children(fmt, v, i - 1, t0) == Styled(before, t0)
    requires EmptyContainers(Child(v, i - 1)) == 0
    ensures i < Size(v) ==> Children(fmt, v, i, t0) == Styled(before + Line(fmt, v, i - 1, t0) + NextLine, t0)
    ensures i == Size(v) ==> Children(fmt, v, i, t0) == Styled(before + Line(fmt, v, i - 1, t0) + LastLine, t0 - 1)
  {
    var e := StyleText(fmt, Child(v, i - 1), t0);
    TabCount(fmt, Child(v, i - 1), t0);
    var line := before + Tabs(t0) + Label(v, i - 1) + e.text;
    Regroup(before, Tabs(t0), Label(v, i - 1));
    Regroup(before, Tabs(t0) + Label(v, i - 1), e.text);
    if i == Size(v) {
      assert Children(fmt, v, i, t0) == Styled(line + LastLine, e.tabs - 1);
    } else {
      assert Children(fmt, v, i, t0) == Styled(line + NextLine, e.tabs);
    }
  }

  /**
   * Without empty containers among them, the first `i` items are their
   * lines, each followed by `",\n"` while items remain; after the last
   * the lines are joined by `",\n"` and end in `"\n"`, and the count is one
   * lower than at the start.
   */
  lemma {:induction false} ChildrenLayout(fmt: Format, v: Value, i: nat, t0: nat)
    requires IsContainer(v) && Writable(v) && 0 < i <= Size(v) && t0 >= 1 && EmptyBelow(v, i) == 0
    ensures i < Size(v) ==> Children(fmt, v, i, t0) == Styled(Terminated(Lines(fmt, v, t0)[..i], NextLine), t0)
    ensures i == Size(v) ==> Children(fmt, v, i, t0) == Styled(Join(Lines(fmt, v, t0), NextLine) + LastLine, t0 - 1)
    decreases i
  {
    var lines := Lines(fmt, v, t0);
    var before := Terminated(lines[..i - 1], NextLine);
    if i == 1 {
      assert lines[..0] == [];
    } else {
      ChildrenLayout(fmt, v, i - 1, t0);
    }
    NoEmptyBefore(v, i, i - 1);
    LineStep(fmt, v, i, t0, before);
    assert lines[i - 1] == Line(fmt, v, i - 1, t0);
    if i == Size(v) {
      TerminatedThenLast(lines, NextLine);
    } else {
      TerminatedStep(lines, i - 1, NextLine);
    }
  }

  /**
   * A non-empty container without empty containers in it, written at
   * count `t`: its opening bracket and a line break, its items one per line
   * indented at `t + 1` levels and separated by `",\n"`, a line break, and
   * its closing bracket indented at `t` levels; the count is `t` again.
   */
  lemma Layout(fmt: Format, v: Value, t: nat)
    requires IsContainer(v) && Writable(v) && Size(v) > 0 && EmptyContainers(v) == 0
    ensures StyleText(fmt, v, t).tabs == t
    ensures StyleText(fmt, v, t).text == Start(v) + Join(Lines(fmt, v, t + 1), NextLine) + LastLine + Tabs(t) + End(v)
  {
    var j := Join(Lines(fmt, v, t + 1), NextLine);
    ChildrenLayout(fmt, v, Size(v), t + 1);
    FromChildren(fmt, v, t, j + LastLine, t);
    Regroup(Start(v), j, LastLine);
  }

  /** `Write` leaves in `tab_count` the number of empty containers in the document. */
  lemma WriteTabCount(fmt: Format, root: Value)
    requires Writable(root)
    ensures StyleText(fmt, root, 0).tabs == EmptyContainers(root)
  {
    TabCount(fmt, root, 0);
  }
}
