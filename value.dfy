/// The document node `JSON::Value` of json.hpp, as a record.
///
/// The C++ class keeps a type tag and ALL payload fields side by side: a
/// `double`, a `std::string`, a `std::vector<Value>` and a
/// `std::map<std::string, Value>`. Changing the tag does not erase the other
/// payloads, so a stale payload stays observable (through `isValidIndex`,
/// `isMember`, the const `operator[](key)`, and `operator=(const Value&)`).
/// The record below keeps every field for that reason.
///
/// `std::map` is an ordered container: its members are modelled as a list
/// sorted strictly by `KeyLess`, the byte-wise order of `std::string`.
module JsonValue {

  /** One byte of a `std::string`; `std::string` compares bytes as unsigned. */
  type Byte = c: char | c as int < 256

  type Bytes = seq<Byte>

  /** The IEEE-754 bit pattern of a `double`; the model never computes with it. */
  type Double = bv64

  datatype Option<T> = None | Some(value: T)

  /** `json_type` */
  datatype JsonType = Null | True | False | Number | String | Array | Object

  /** The tag and every payload field of a `Value` (the comment field is not modelled). */
  datatype Value = Value(tag: JsonType, number: Double, str: Bytes, elems: seq<Value>, members: seq<Member>)

  /** One entry of the `std::map<std::string, Value>` payload. */
  datatype Member = Member(key: Bytes, val: Value)

  // ---------------------------------------------------------------------------
  // The order of std::map keys

  /** `a < b` for `std::string`: lexicographic on unsigned bytes, a proper prefix first. */
  predicate KeyLess(a: Bytes, b: Bytes)
    decreases |a|
  {
    if |a| == 0 then |b| > 0
    else |b| > 0 && (a[0] < b[0] || (a[0] == b[0] && KeyLess(a[1..], b[1..])))
  }

  lemma {:induction false} KeyLessIrreflexive(a: Bytes)
    ensures !KeyLess(a, a)
    decreases |a|
  {
    if |a| > 0 {
      KeyLessIrreflexive(a[1..]);
    }
  }

  lemma {:induction false} KeyLessTransitive(a: Bytes, b: Bytes, c: Bytes)
    requires KeyLess(a, b) && KeyLess(b, c)
    ensures KeyLess(a, c)
    decreases |a|
  {
    if |a| > 0 && a[0] == b[0] && b[0] == c[0] {
      KeyLessTransitive(a[1..], b[1..], c[1..]);
    }
  }

  lemma {:induction false} KeyLessTotal(a: Bytes, b: Bytes)
    ensures a == b || KeyLess(a, b) || KeyLess(b, a)
    decreases |a|
  {
    if |a| > 0 && |b| > 0 && a[0] == b[0] {
      KeyLessTotal(a[1..], b[1..]);
      if a[1..] == b[1..] {
        assert a == [a[0]] + a[1..] && b == [b[0]] + b[1..];
      }
    }
  }

  lemma KeyLessAsymmetric(a: Bytes, b: Bytes)
    requires KeyLess(a, b)
    ensures !KeyLess(b, a)
  {
    if KeyLess(b, a) {
      KeyLessTransitive(a, b, a);
      KeyLessIrreflexive(a);
    }
  }

  // ---------------------------------------------------------------------------
  // The std::map payload as a sorted member list

  /** The representation invariant of `std::map`: keys strictly ascending. */
  ghost predicate Sorted(obj: seq<Member>)
  {
    forall i, j :: 0 <= i < j < |obj| ==> KeyLess(obj[i].key, obj[j].key)
  }

  /** The keys in enumeration order. */
  function Keys(obj: seq<Member>): (ks: seq<Bytes>)
    ensures |ks| == |obj|
    ensures forall i :: 0 <= i < |obj| ==> ks[i] == obj[i].key
  {
    seq(|obj|, i requires 0 <= i < |obj| => obj[i].key)
  }

  /** `std::map::find`: the value stored under `k`, if any. */
  function Find(obj: seq<Member>, k: Bytes): (r: Option<Value>)
    ensures r.None? <==> k !in Keys(obj)
    ensures r.Some? ==> exists i :: 0 <= i < |obj| && obj[i] == Member(k, r.value)
  {
    if |obj| == 0 then None
    else if obj[0].key == k then Some(obj[0].val)
    else
      var r := Find(obj[1..], k);
      assert Keys(obj) == [obj[0].key] + Keys(obj[1..]);
      assert r.Some? ==> exists i :: 0 <= i < |obj| && obj[i] == Member(k, r.value) by {
        if r.Some? {
          var i :| 0 <= i < |obj[1..]| && obj[1..][i] == Member(k, r.value);
          assert obj[i + 1] == Member(k, r.value);
        }
      }
      r
  }

  /** `std::map::insert`: adds `k -> x` unless `k` is already present (then nothing changes). */
  function Insert(obj: seq<Member>, k: Bytes, x: Value): seq<Member>
  {
    if |obj| == 0 then [Member(k, x)]
    else if obj[0].key == k then obj
    else if KeyLess(k, obj[0].key) then [Member(k, x)] + obj
    else [obj[0]] + Insert(obj[1..], k, x)
  }

  /** `std::map::erase(find(k))`: removes the entry with key `k`, if there is one. */
  function Erase(obj: seq<Member>, k: Bytes): (r: seq<Member>)
    ensures k in Keys(obj) ==> |r| == |obj| - 1
    ensures k !in Keys(obj) ==> r == obj
  {
    if |obj| == 0 then []
    else
      assert Keys(obj) == [obj[0].key] + Keys(obj[1..]);
      if obj[0].key == k then obj[1..] else [obj[0]] + Erase(obj[1..], k)
  }

  /** A run of `object.insert(make_pair(name, from[name]))` over the names of `from`, in order. */
  function Merge(obj: seq<Member>, from: seq<Member>): seq<Member>
    decreases |from|
  {
    if |from| == 0 then obj else Merge(Insert(obj, from[0].key, from[0].val), from[1..])
  }

  /** The erase loop of `resize` on an object: `d` times, erase the key of `rbegin()`. */
  function DropGreatest(obj: seq<Member>, d: nat): (r: seq<Member>)
    requires d <= |obj|
    ensures |r| == |obj| - d
    decreases d
  {
    if d == 0 then obj
    else
      assert obj[|obj| - 1].key in Keys(obj);
      DropGreatest(Erase(obj, obj[|obj| - 1].key), d - 1)
  }

  /** Every `std::map` payload in `v`, stale ones included, is sorted. */
  ghost predicate WellFormed(v: Value)
    decreases v
  {
    && Sorted(v.members)
    && (forall i :: 0 <= i < |v.elems| ==> WellFormed(v.elems[i]))
    && (forall i :: 0 <= i < |v.members| ==> WellFormed(v.members[i].val))
  }

  ghost predicate MembersWellFormed(obj: seq<Member>)
  {
    forall i :: 0 <= i < |obj| ==> WellFormed(obj[i].val)
  }

  // ---------------------------------------------------------------------------
  // Constructors and mutators of Value, as functions of the old record

  /** `Value()`: tag Null and empty payloads (the uninitialised `number` is taken to be 0). */
  function Default(): Value
  {
    Value(Null, 0, [], [], [])
  }

  /** `Value(const double)` */
  function FromDouble(d: Double): Value
  {
    Value(Number, 0, [], [], []).(number := d)
  }

  /** `Value(const char*)`, `Value(const std::string&)` and `Value(begin, end)` */
  function FromString(s: Bytes): Value
  {
    Value(String, 0, s, [], [])
  }

  /** `Value(key, value)`: an object holding one member. */
  function FromMember(k: Bytes, x: Value): Value
  {
    Value(Object, 0, [], [], [Member(k, x)])
  }

  /** `clear()`: releases the payload the tag selects, then sets the tag to Null. */
  function Clear(v: Value): (r: Value)
    ensures r.tag == Null && r.number == v.number
    ensures r.str == (if v.tag == String then [] else v.str)
    ensures r.elems == (if v.tag == Array then [] else v.elems)
    ensures r.members == (if v.tag == Object then [] else v.members)
  {
    match v.tag
    case String => v.(tag := Null, str := [])
    case Array => v.(tag := Null, elems := [])
    case Object => v.(tag := Null, members := [])
    case _ => v.(tag := Null)
  }

  /** `operator=(bool)` */
  function AssignBool(v: Value, b: bool): Value
  {
    Clear(v).(tag := if b then True else False)
  }

  /** `operator=(double)` */
  function AssignDouble(v: Value, d: Double): Value
  {
    Clear(v).(tag := Number, number := d)
  }

  /** `operator=(const std::string&)` and `operator=(const char*)` */
  function AssignString(v: Value, s: Bytes): Value
  {
    Clear(v).(tag := String, str := s)
  }

  /**
   * `operator=(const std::vector<Value>&)`: after `clear()`, `std::vector`'s
   * copy assignment. When the new array is no longer than the elements left
   * behind (a non-array keeps its stale `array`), each old slot is written
   * with `operator=(const Value&)` and the excess is destroyed; otherwise the
   * elements are copy-constructed, as a vector without spare capacity does.
   */
  function AssignArray(v: Value, items: seq<Value>): (r: Value)
    ensures r.tag == Array && |r.elems| == |items|
    ensures r.number == v.number && r.str == Clear(v).str && r.members == Clear(v).members
    ensures |items| <= |Clear(v).elems| ==>
      forall i :: 0 <= i < |items| ==> r.elems[i] == Assign(Clear(v).elems[i], items[i])
    ensures |items| > |Clear(v).elems| ==> r.elems == items
  {
    var c := Clear(v);
    c.(tag := Array, elems :=
      if |items| <= |c.elems| then seq(|items|, i requires 0 <= i < |items| => Assign(c.elems[i], items[i]))
      else items)
  }

  /** `operator=(const std::map<std::string, Value>&)` */
  function AssignObject(v: Value, obj: seq<Member>): Value
  {
    Clear(v).(tag := Object, members := obj)
  }

  /**
   * `operator=(const Value&)` as written: a String source changes nothing, an
   * Array source is appended after `clear()` and leaves the tag Null, and an
   * Object source is merged into the old members without `clear()` and
   * without setting the tag.
   */
  function Assign(v: Value, other: Value): Value
  {
    match other.tag
    case Null => Clear(v)
    case True => AssignBool(v, true)
    case False => AssignBool(v, false)
    case Number => AssignDouble(v, other.number)
    case String => v
    case Array => var c := Clear(v); c.(elems := c.elems + other.elems)
    case Object => v.(members := Merge(v.members, other.members))
  }

  /** `append`: push onto an array, merge an object's members into an object, else nothing. */
  function Append(v: Value, x: Value): Value
    requires v.tag == Object ==> x.tag == Object
  {
    match v.tag
    case Array => v.(elems := v.elems + [x])
    case Object => v.(members := Merge(v.members, x.members))
    case _ => v
  }

  /** `resize(size)`: `std::vector::resize` on an array; erase greatest keys of an object. */
  /** The `Value()` elements that `std::vector::resize` appends when it grows. */
  function Padding(n: nat): (r: seq<Value>)
    ensures |r| == n && forall i :: 0 <= i < n ==> r[i] == Default()
  {
    seq(n, _ => Default())
  }

  function Resize(v: Value, n: nat): Value
    requires v.tag == Array || v.tag == Object
  {
    if v.tag == Array then
      v.(elems := if n <= |v.elems| then v.elems[..n] else v.elems + Padding(n - |v.elems|))
    else if |v.members| > n then
      v.(members := DropGreatest(v.members, |v.members| - n))
    else v
  }

  /** `removeMember(key)`: erases `key` from the object payload (whatever the tag). */
  function RemoveMember(v: Value, k: Bytes): Value
  {
    v.(members := Erase(v.members, k))
  }

  /** Non-const `operator[](key)`: becomes an object (after `clear()` if it was not one) holding `key`. */
  function IndexKey(v: Value, k: Bytes): Value
  {
    var c := if v.tag != Object then Clear(v) else v;
    c.(tag := Object, members := Insert(c.members, k, Default()))
  }

  // ---------------------------------------------------------------------------
  // Queries

  /** Const `operator[](key)`: the member's value, or `Value()` when absent. */
  function Get(v: Value, k: Bytes): Value
  {
    match Find(v.members, k)
    case Some(x) => x
    case None => Default()
  }

  /** `operator[](index)`: asserts an array and an index in range. */
  function At(v: Value, i: nat): Value
    requires v.tag == Array && i < |v.elems|
  {
    v.elems[i]
  }

  /** `asDouble()`: asserts a Number. */
  function AsDouble(v: Value): Double
    requires v.tag == Number
  {
    v.number
  }

  /** `empty()`: true for every tag except a non-empty array or object. */
  function Empty(v: Value): (r: bool)
    ensures r <==> !(v.tag == Array && |v.elems| > 0) && !(v.tag == Object && |v.members| > 0)
  {
    match v.tag
    case Array => |v.elems| == 0
    case Object => |v.members| == 0
    case _ => true
  }

  /** `size()`: asserts an array or an object. */
  function Size(v: Value): (r: nat)
    requires v.tag == Array || v.tag == Object
    ensures r == if v.tag == Array then |v.elems| else |v.members|
  {
    if v.tag == Array then |v.elems| else |v.members|
  }

  predicate IsNull(v: Value) { v.tag == Null }
  predicate IsBool(v: Value) { v.tag == True || v.tag == False }
  predicate IsDouble(v: Value) { v.tag == Number }
  predicate IsString(v: Value) { v.tag == String }
  predicate IsArray(v: Value) { v.tag == Array }
  predicate IsObject(v: Value) { v.tag == Object }

  /** `isValidIndex(index)`: tests the array payload whatever the tag. */
  predicate IsValidIndex(v: Value, i: nat)
  {
    i < |v.elems|
  }

  /** `isMember(key)`: tests the object payload whatever the tag. */
  predicate IsMember(v: Value, k: Bytes)
  {
    Find(v.members, k).Some?
  }
}
