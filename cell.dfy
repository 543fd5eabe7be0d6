/// The mutators of `JSON::Value`, which update a node in place.
///
/// A `Cell` is the storage that a `Value*` or a `Value&` refers to: the
/// parser's `root` and `element`, or a caller's variable. Each method updates
/// `val` the way the C++ member function updates the object's fields, and its
/// postcondition ties the new record to the function of `JsonValue` that
/// describes it; `JsonValueFacts` proves what those functions mean.
module JsonCell {
  import opened JsonValue
  import opened JsonValueFacts

  /** `getMemberNames()`: the keys, collected in the map's order. */
  method GetMemberNames(v: Value) returns (names: seq<Bytes>)
    requires v.tag == Object
    ensures names == Keys(v.members)
  {
    names := [];
    var i := 0;
    while i < |v.members|
      invariant i <= |v.members|
      invariant names == Keys(v.members[..i])
    {
      assert v.members[..i + 1] == v.members[..i] + [v.members[i]];
      names := names + [v.members[i].key];
      i := i + 1;
    }
    assert v.members[..i] == v.members;
  }

  /** The loop of `resize` on an object: erase the key of `rbegin()` `d` times. */
  method DropGreatestKeys(obj: seq<Member>, d: nat) returns (r: seq<Member>)
    requires Sorted(obj) && d <= |obj|
    ensures r == DropGreatest(obj, d)
  {
    DropGreatestIsPrefix(obj, d);
    r := obj;
    var deleteSize: nat := d;
    while deleteSize > 0
      invariant deleteSize <= d
      invariant r == obj[..|obj| - d + deleteSize]
    {
      SortedPrefix(obj, |r|);
      EraseGreatest(r);
      r := Erase(r, r[|r| - 1].key);
      deleteSize := deleteSize - 1;
    }
  }

  class Cell {
    var val: Value

    /** The invariant of every `std::map` held in the node. */
    ghost predicate Valid()
      reads this
    {
      WellFormed(val)
    }

    /** `Value()` */
    constructor ()
      ensures val == Default() && Valid()
    {
      val := Default();
    }

    /** `Value(const double)` */
    constructor OfDouble(d: Double)
      ensures val == FromDouble(d) && Valid()
    {
      val := FromDouble(d);
    }

    /** `Value(const std::string&)` */
    constructor OfString(s: Bytes)
      ensures val == FromString(s) && Valid()
    {
      val := FromString(s);
    }

    /** `Value(key, value)` */
    constructor OfMember(k: Bytes, x: Value)
      requires WellFormed(x)
      ensures val == FromMember(k, x) && Valid()
    {
      val := FromMember(k, x);
    }

    /** `clear()` */
    method Clear()
      requires Valid()
      modifies this
      ensures val == JsonValue.Clear(old(val)) && Valid()
    {
      ghost var v := val;
      ClearWellFormed(v);
      match val.tag {
        case String => val := val.(str := []);
        case Array => val := val.(elems := []);
        case Object => val := val.(members := []);
        case _ =>
      }
      val := val.(tag := Null);
      assert val == JsonValue.Clear(v);
    }

    /** `resize(size)`; on an object, erases the key of `rbegin()` until the size fits. */
    method Resize(size: nat)
      requires Valid() && (val.tag == Array || val.tag == Object)
      modifies this
      ensures val == JsonValue.Resize(old(val), size) && Valid()
    {
      ghost var v := val;
      ghost var r := JsonValue.Resize(val, size);
      if val.tag == Array {
        var a := val.elems;
        val := val.(elems := if size <= |a| then a[..size] else a + Padding(size - |a|));
      } else if |val.members| > size {
        var members := DropGreatestKeys(val.members, |val.members| - size);
        val := val.(members := members);
      }
      assert val == r;
      ResizeWellFormed(v, size);
    }

    /** `removeMember(key)`: erases `key` if present and returns a copy of the node. */
    method RemoveMember(k: Bytes) returns (copy: Value)
      requires Valid()
      modifies this
      ensures val == JsonValue.RemoveMember(old(val), k) && copy == val && Valid()
    {
      RemoveMemberWellFormed(val, k);
      if Find(val.members, k).Some? {
        val := val.(members := Erase(val.members, k));
      }
      copy := val;
    }

    /** `operator=(bool)` */
    method AssignBool(b: bool)
      requires Valid()
      modifies this
      ensures val == JsonValue.AssignBool(old(val), b) && Valid()
    {
      Clear();
      val := val.(tag := if b then True else False);
    }

    /** `operator=(double)` */
    method AssignDouble(d: Double)
      requires Valid()
      modifies this
      ensures val == JsonValue.AssignDouble(old(val), d) && Valid()
    {
      Clear();
      val := val.(tag := Number, number := d);
    }

    /** `operator=(const std::string&)` */
    method AssignString(s: Bytes)
      requires Valid()
      modifies this
      ensures val == JsonValue.AssignString(old(val), s) && Valid()
    {
      Clear();
      val := val.(tag := String, str := s);
    }

    /**
     * `operator=(const std::vector<Value>&)`; the copy assignment of the
     * vector writes `items` over the elements left by `clear()` with
     * `operator=(const Value&)` when they are at least as many, and destroys
     * the excess.
     */
    method AssignArray(items: seq<Value>)
      requires Valid() && forall i :: 0 <= i < |items| ==> WellFormed(items[i])
      modifies this
      ensures val == JsonValue.AssignArray(old(val), items) && Valid()
    {
      AssignArrayWellFormed(val, items);
      Clear();
      val := val.(tag := Array);
      ghost var c := val;
      if |items| <= |val.elems| {
        var i := 0;
        while i < |items|
          invariant i <= |items| && |val.elems| == |c.elems|
          invariant val == c.(elems := val.elems)
          invariant forall j :: 0 <= j < i ==> val.elems[j] == JsonValue.Assign(c.elems[j], items[j])
          invariant forall j :: i <= j < |c.elems| ==> val.elems[j] == c.elems[j]
        {
          val := val.(elems := val.elems[i := JsonValue.Assign(val.elems[i], items[i])]);
          i := i + 1;
        }
        val := val.(elems := val.elems[..|items|]);
      } else {
        val := val.(elems := items);
      }
    }

    /** `operator=(const std::map<std::string, Value>&)` */
    method AssignObject(obj: seq<Member>)
      requires Valid() && Sorted(obj) && MembersWellFormed(obj)
      modifies this
      ensures val == JsonValue.AssignObject(old(val), obj) && Valid()
    {
      Clear();
      val := val.(tag := Object, members := obj);
    }

    /** The loop shared by `append` and `operator=` on objects: insert `from[name]` for each name of `from`. */
    method InsertMembersOf(from: Value)
      requires Valid() && WellFormed(from) && from.tag == Object
      modifies this
      ensures val == old(val).(members := Merge(old(val.members), from.members)) && Valid()
    {
      var names := GetMemberNames(from);
      var i := 0;
      while i < |names|
        invariant i <= |names| && Valid()
        invariant val == old(val).(members := val.members)
        invariant Merge(val.members, from.members[i..]) == Merge(old(val.members), from.members)
      {
        FindSortedAt(from.members, i);
        var x := Get(from, names[i]);
        assert x == from.members[i].val;
        MergeFrom(val.members, from.members, i);
        InsertSorted(val.members, names[i], x);
        InsertMembersWellFormed(val.members, names[i], x);
        val := val.(members := Insert(val.members, names[i], x));
        i := i + 1;
      }
      assert from.members[i..] == [];
    }

    /** `operator=(const Value&)`, with the defects of the original kept (see `JsonValue.Assign`). */
    method Assign(other: Value)
      requires Valid() && WellFormed(other)
      modifies this
      ensures val == JsonValue.Assign(old(val), other) && Valid()
    {
      AssignAsWritten(val, other);
      match other.tag {
        case Null => Clear();
        case True => AssignBool(true);
        case False => AssignBool(false);
        case Number => AssignDouble(AsDouble(other));
        case String =>
        case Array =>
          Clear();
          var i := 0;
          while i < Size(other)
            invariant i <= |other.elems|
            invariant val == JsonValue.Clear(old(val)).(elems := JsonValue.Clear(old(val)).elems + other.elems[..i])
          {
            assert other.elems[..i + 1] == other.elems[..i] + [other.elems[i]];
            val := val.(elems := val.elems + [At(other, i)]);
            i := i + 1;
          }
          assert other.elems[..i] == other.elems;
        case Object =>
          InsertMembersOf(other);
      }
    }

    /** `append(value)`: push onto an array, merge into an object (which must receive an object). */
    method Append(x: Value)
      requires Valid() && WellFormed(x)
      requires val.tag == Object ==> x.tag == Object
      modifies this
      ensures val == JsonValue.Append(old(val), x) && Valid()
    {
      AppendFacts(val, x);
      match val.tag {
        case Array => val := val.(elems := val.elems + [x]);
        case Object => InsertMembersOf(x);
        case _ =>
      }
    }

    /** Non-const `operator[](key)`; the returned reference is modelled by the member's value on return. */
    method IndexKey(k: Bytes) returns (member: Value)
      requires Valid()
      modifies this
      ensures val == JsonValue.IndexKey(old(val), k) && member == Get(val, k) && Valid()
    {
      IndexKeyFacts(val, k);
      if val.tag != Object {
        Clear();
      }
      val := val.(tag := Object);
      val := val.(members := Insert(val.members, k, Default()));
      member := Get(val, k);
    }
  }
}
