/// The part of `Writer::convert_value` that both writers share (literals,
/// numbers, strings), and the lists of pieces the two writers assemble their
/// containers from.
module JsonRender {
  import opened JsonValue
  import opened JsonGrammar
  import opened JsonWriter

  /** What both writers put between a key and its value. */
  const Colon: Bytes := " : "

  /** What `convert_value` writes for a value that is not a container. */
  function ScalarText(fmt: Format, v: Value): Bytes
    requires v.tag != Array && v.tag != Object && Writable(v)
  {
    if v.tag == Number then fmt(v.number).bytes
    else if v.tag == String then Quoted(v.str)
    else Literal(v.tag)
  }

  /** The scalar cases of `convert_value`, shared by both writers. */
  method ConvertScalar(fmt: Format, v: Value) returns (s: Bytes)
    requires v.tag != Array && v.tag != Object && Writable(v)
    ensures s == ScalarText(fmt, v)
    ensures v.tag == String ==> s == Quoted(v.str)
    ensures IsLiteral(v.tag) ==> LiteralAt(s, 0, s) && s[0] in "ntf"
  {
    if v.tag == Number {
      s := fmt(AsDouble(v)).bytes;
    } else if v.tag == String {
      s := ConvertString(v.str);
    } else {
      s := Literal(v.tag);
    }
  }

  // ---------------------------------------------------------------------------
  // Separated and terminated lists of pieces

  /** The pieces in order with `sep` between neighbours. */
  function Join(parts: seq<Bytes>, sep: Bytes): Bytes
    decreases |parts|
  {
    if |parts| == 0 then []
    else if |parts| == 1 then parts[0]
    else parts[0] + sep + Join(parts[1..], sep)
  }

  /** The pieces in order, each followed by `sep`: what a loop of `+= piece; += sep` builds. */
  function Terminated(parts: seq<Bytes>, sep: Bytes): (r: Bytes)
    ensures |parts| > 0 ==> |r| >= |sep|
    decreases |parts|
  {
    if |parts| == 0 then [] else Terminated(parts[..|parts| - 1], sep) + parts[|parts| - 1] + sep
  }

  /** One more piece at the end of a terminated list. */
  lemma TerminatedStep(parts: seq<Bytes>, i: nat, sep: Bytes)
    requires i < |parts|
    ensures Terminated(parts[..i + 1], sep) == Terminated(parts[..i], sep) + parts[i] + sep
  {
    assert parts[..i + 1][..i] == parts[..i];
  }

  /** Appending the next piece and `sep` to text that ends in a terminated list extends the list. */
  lemma AppendPiece(open: Bytes, parts: seq<Bytes>, i: nat, sep: Bytes, before: Bytes)
    requires i < |parts| && before == open + Terminated(parts[..i], sep)
    ensures before + parts[i] + sep == open + Terminated(parts[..i + 1], sep)
  {
    TerminatedStep(parts, i, sep);
  }

  /** The same, when the next piece is written as a key, `" : "` and a value. */
  lemma AppendLabelled(open: Bytes, parts: seq<Bytes>, i: nat, sep: Bytes, before: Bytes, key: Bytes, item: Bytes)
    requires i < |parts| && before == open + Terminated(parts[..i], sep) && parts[i] == key + Colon + item
    ensures before + key + Colon + item + sep == open + Terminated(parts[..i + 1], sep)
  {
    assert before + key + Colon + item == before + parts[i];
    AppendPiece(open, parts, i, sep, before);
  }

  /** Dropping all but the first byte of the last separator of a non-empty terminated list. */
  lemma DropTrailing(open: Bytes, parts: seq<Bytes>, sep: Bytes, s: Bytes, close: Byte)
    requires |parts| > 0 && |sep| == 3 && s == open + Terminated(parts, sep)
    ensures |s| >= 2 && s[..|s| - 2] + [close] == open + Join(parts, sep) + [sep[0], close]
  {
    var j := Join(parts, sep);
    TerminatedIsJoin(parts, sep);
    assert s == (open + j) + sep;
    assert s[..|s| - 2] == open + j + [sep[0]];
  }

  /** A joined list grows at its end by a separator and the new piece. */
  lemma {:induction false} JoinSnoc(parts: seq<Bytes>, x: Bytes, sep: Bytes)
    requires |parts| > 0
    ensures Join(parts + [x], sep) == Join(parts, sep) + sep + x
    decreases |parts|
  {
    if |parts| == 1 {
      assert (parts + [x])[1..] == [x];
    } else {
      assert (parts + [x])[1..] == parts[1..] + [x];
      JoinSnoc(parts[1..], x, sep);
    }
  }

  /** A terminated list of all pieces but the last, followed by the last piece, is the joined list. */
  lemma TerminatedThenLast(parts: seq<Bytes>, sep: Bytes)
    requires |parts| > 0
    ensures Terminated(parts[..|parts| - 1], sep) + parts[|parts| - 1] == Join(parts, sep)
  {
    var n := |parts|;
    if n == 1 {
      assert parts[..0] == [];
    } else {
      TerminatedIsJoin(parts[..n - 1], sep);
      assert parts[..n - 1] + [parts[n - 1]] == parts;
      JoinSnoc(parts[..n - 1], parts[n - 1], sep);
    }
  }

  /** A non-empty terminated list is the joined list followed by one more separator. */
  lemma {:induction false} TerminatedIsJoin(parts: seq<Bytes>, sep: Bytes)
    requires |parts| > 0
    ensures Terminated(parts, sep) == Join(parts, sep) + sep
    decreases |parts|
  {
    var n := |parts|;
    if n == 1 {
      assert parts[..0] == [];
    } else {
      TerminatedIsJoin(parts[..n - 1], sep);
      assert parts[..n - 1] + [parts[n - 1]] == parts;
      JoinSnoc(parts[..n - 1], parts[n - 1], sep);
    }
  }
}
