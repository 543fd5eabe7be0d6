/// Properties of the `Value` record and of its `std::map` payload.
module JsonValueFacts {
  import opened JsonValue

  // ---------------------------------------------------------------------------
  // std::map operations on a sorted member list

  lemma {:induction false} KeysOfCons(m: Member, obj: seq<Member>)
    ensures Keys([m] + obj) == [m.key] + Keys(obj)
  {
  }

  /** Every key after the first of a sorted list is greater than the first. */
  lemma HeadIsLeast(obj: seq<Member>, j: Bytes)
    requires Sorted(obj) && |obj| > 0 && j in Keys(obj[1..])
    ensures KeyLess(obj[0].key, j)
  {
    var i :| 0 <= i < |obj[1..]| && Keys(obj[1..])[i] == j;
    assert obj[i + 1].key == j;
  }

  lemma SortedTail(obj: seq<Member>)
    requires Sorted(obj) && |obj| > 0
    ensures Sorted(obj[1..])
  {
    var tail := obj[1..];
    forall i, j | 0 <= i < j < |tail| ensures KeyLess(tail[i].key, tail[j].key) {
      assert tail[i] == obj[i + 1] && tail[j] == obj[j + 1];
    }
  }

  /** A member whose key is below every key of a sorted list can go in front of it. */
  lemma SortedCons(m: Member, obj: seq<Member>)
    requires Sorted(obj)
    requires forall j :: j in Keys(obj) ==> KeyLess(m.key, j)
    ensures Sorted([m] + obj)
  {
    var r := [m] + obj;
    forall i, j | 0 <= i < j < |r| ensures KeyLess(r[i].key, r[j].key) {
      assert r[j] == obj[j - 1];
      assert obj[j - 1].key in Keys(obj);
      if i > 0 { assert r[i] == obj[i - 1]; }
    }
  }

  lemma MembersWellFormedCons(m: Member, obj: seq<Member>)
    ensures MembersWellFormed([m] + obj) <==> WellFormed(m.val) && MembersWellFormed(obj)
  {
    var r := [m] + obj;
    assert r[0] == m;
    assert forall i :: 0 <= i < |obj| ==> r[i + 1] == obj[i];
  }

  lemma {:induction false} FindCons(m: Member, obj: seq<Member>, j: Bytes)
    ensures Find([m] + obj, j) == if j == m.key then Some(m.val) else Find(obj, j)
  {
    assert ([m] + obj)[1..] == obj;
  }

  /** `std::map::insert` adds `k` to the key set and nothing else. */
  lemma {:induction false} InsertKeys(obj: seq<Member>, k: Bytes, x: Value)
    ensures forall j :: j in Keys(Insert(obj, k, x)) <==> j in Keys(obj) || j == k
    decreases |obj|
  {
    if |obj| > 0 {
      assert obj == [obj[0]] + obj[1..];
      KeysOfCons(obj[0], obj[1..]);
      if obj[0].key != k {
        if KeyLess(k, obj[0].key) {
          KeysOfCons(Member(k, x), obj);
        } else {
          InsertKeys(obj[1..], k, x);
          KeysOfCons(obj[0], Insert(obj[1..], k, x));
        }
      }
    } else {
      assert Keys([Member(k, x)]) == [k];
    }
  }

  /** `std::map::insert` keeps the keys sorted. */
  lemma {:induction false} InsertSorted(obj: seq<Member>, k: Bytes, x: Value)
    requires Sorted(obj)
    ensures Sorted(Insert(obj, k, x))
    decreases |obj|
  {
    if |obj| > 0 && obj[0].key != k {
      var tail := obj[1..];
      assert obj == [obj[0]] + tail;
      KeysOfCons(obj[0], tail);
      SortedTail(obj);
      if KeyLess(k, obj[0].key) {
        forall j | j in Keys(obj) ensures KeyLess(k, j) {
          if j != obj[0].key {
            HeadIsLeast(obj, j);
            KeyLessTransitive(k, obj[0].key, j);
          }
        }
        SortedCons(Member(k, x), obj);
      } else {
        KeyLessTotal(k, obj[0].key);
        InsertSorted(tail, k, x);
        InsertKeys(tail, k, x);
        forall j | j in Keys(Insert(tail, k, x)) ensures KeyLess(obj[0].key, j) {
          if j != k { HeadIsLeast(obj, j); }
        }
        SortedCons(obj[0], Insert(tail, k, x));
      }
    }
  }

  /** A sorted list never holds its first key again. */
  lemma HeadNotInTail(obj: seq<Member>)
    requires Sorted(obj) && |obj| > 0
    ensures obj[0].key !in Keys(obj[1..])
  {
    if obj[0].key in Keys(obj[1..]) {
      HeadIsLeast(obj, obj[0].key);
      KeyLessIrreflexive(obj[0].key);
    }
  }

  /** `std::map::insert` never overwrites: lookups see `x` only under a new key `k`. */
  lemma {:induction false} InsertFind(obj: seq<Member>, k: Bytes, x: Value, j: Bytes)
    requires Sorted(obj)
    ensures Find(Insert(obj, k, x), j) == if j == k && k !in Keys(obj) then Some(x) else Find(obj, j)
    decreases |obj|
  {
    if |obj| > 0 && obj[0].key != k {
      var tail := obj[1..];
      assert obj == [obj[0]] + tail;
      KeysOfCons(obj[0], tail);
      FindCons(obj[0], tail, j);
      if KeyLess(k, obj[0].key) {
        FindCons(Member(k, x), obj, j);
        if k in Keys(obj) {
          HeadIsLeast(obj, k);
          KeyLessAsymmetric(k, obj[0].key);
        }
      } else {
        SortedTail(obj);
        InsertFind(tail, k, x, j);
        FindCons(obj[0], Insert(tail, k, x), j);
      }
    }
  }

  /** Inserting a present key changes nothing. */
  lemma {:induction false} InsertPresent(obj: seq<Member>, k: Bytes, x: Value)
    requires Sorted(obj) && k in Keys(obj)
    ensures Insert(obj, k, x) == obj
    decreases |obj|
  {
    if obj[0].key != k {
      var tail := obj[1..];
      assert obj == [obj[0]] + tail;
      KeysOfCons(obj[0], tail);
      HeadIsLeast(obj, k);
      KeyLessAsymmetric(obj[0].key, k);
      SortedTail(obj);
      InsertPresent(tail, k, x);
    }
  }

  lemma {:induction false} InsertMembersWellFormed(obj: seq<Member>, k: Bytes, x: Value)
    requires MembersWellFormed(obj) && WellFormed(x)
    ensures MembersWellFormed(Insert(obj, k, x))
    decreases |obj|
  {
    if |obj| > 0 {
      assert obj == [obj[0]] + obj[1..];
      MembersWellFormedCons(obj[0], obj[1..]);
      if obj[0].key != k {
        if KeyLess(k, obj[0].key) {
          MembersWellFormedCons(Member(k, x), obj);
        } else {
          InsertMembersWellFormed(obj[1..], k, x);
          MembersWellFormedCons(obj[0], Insert(obj[1..], k, x));
        }
      }
    } else {
      MembersWellFormedCons(Member(k, x), []);
      assert [Member(k, x)] + [] == [Member(k, x)];
    }
  }

  /** `std::map::insert`: sorted, adds exactly `k` when absent, never overwrites. */
  lemma InsertFacts(obj: seq<Member>, k: Bytes, x: Value)
    requires Sorted(obj)
    ensures Sorted(Insert(obj, k, x))
    ensures forall j :: j in Keys(Insert(obj, k, x)) <==> j in Keys(obj) || j == k
    ensures forall j :: Find(Insert(obj, k, x), j) == if j == k && k !in Keys(obj) then Some(x) else Find(obj, j)
    ensures k in Keys(obj) ==> Insert(obj, k, x) == obj
    ensures MembersWellFormed(obj) && WellFormed(x) ==> MembersWellFormed(Insert(obj, k, x))
  {
    InsertSorted(obj, k, x);
    InsertKeys(obj, k, x);
    forall j ensures Find(Insert(obj, k, x), j) == if j == k && k !in Keys(obj) then Some(x) else Find(obj, j) {
      InsertFind(obj, k, x, j);
    }
    if k in Keys(obj) { InsertPresent(obj, k, x); }
    if MembersWellFormed(obj) && WellFormed(x) { InsertMembersWellFormed(obj, k, x); }
  }

  /** `std::map::erase` removes at most the key `k` from the key set. */
  lemma {:induction false} EraseKeys(obj: seq<Member>, k: Bytes)
    ensures forall j :: j in Keys(Erase(obj, k)) ==> j in Keys(obj)
    ensures forall j :: j != k && j in Keys(obj) ==> j in Keys(Erase(obj, k))
    decreases |obj|
  {
    if |obj| > 0 {
      assert obj == [obj[0]] + obj[1..];
      KeysOfCons(obj[0], obj[1..]);
      if obj[0].key != k {
        EraseKeys(obj[1..], k);
        KeysOfCons(obj[0], Erase(obj[1..], k));
      }
    }
  }

  /** `std::map::erase` keeps the keys sorted. */
  lemma {:induction false} EraseSorted(obj: seq<Member>, k: Bytes)
    requires Sorted(obj)
    ensures Sorted(Erase(obj, k))
    decreases |obj|
  {
    if |obj| > 0 {
      SortedTail(obj);
      if obj[0].key != k {
        var rest := Erase(obj[1..], k);
        EraseSorted(obj[1..], k);
        EraseKeys(obj[1..], k);
        forall j | j in Keys(rest) ensures KeyLess(obj[0].key, j) {
          HeadIsLeast(obj, j);
        }
        SortedCons(obj[0], rest);
      }
    }
  }

  /** On a sorted list, `std::map::erase` leaves no member under `k`. */
  lemma {:induction false} EraseRemovesKey(obj: seq<Member>, k: Bytes)
    requires Sorted(obj)
    ensures k !in Keys(Erase(obj, k))
    decreases |obj|
  {
    if |obj| > 0 {
      if obj[0].key == k {
        HeadNotInTail(obj);
      } else {
        SortedTail(obj);
        EraseRemovesKey(obj[1..], k);
        KeysOfCons(obj[0], Erase(obj[1..], k));
      }
    }
  }

  /** `std::map::erase` leaves every other lookup unchanged. */
  lemma {:induction false} EraseFind(obj: seq<Member>, k: Bytes, j: Bytes)
    requires j != k
    ensures Find(Erase(obj, k), j) == Find(obj, j)
    decreases |obj|
  {
    if |obj| > 0 {
      assert obj == [obj[0]] + obj[1..];
      FindCons(obj[0], obj[1..], j);
      if obj[0].key != k {
        EraseFind(obj[1..], k, j);
        FindCons(obj[0], Erase(obj[1..], k), j);
      }
    }
  }

  lemma {:induction false} EraseMembersWellFormed(obj: seq<Member>, k: Bytes)
    requires MembersWellFormed(obj)
    ensures MembersWellFormed(Erase(obj, k))
    decreases |obj|
  {
    if |obj| > 0 {
      assert obj == [obj[0]] + obj[1..];
      MembersWellFormedCons(obj[0], obj[1..]);
      if obj[0].key != k {
        EraseMembersWellFormed(obj[1..], k);
        MembersWellFormedCons(obj[0], Erase(obj[1..], k));
      }
    }
  }

  /** `std::map::erase(find(k))` on a sorted list: `k` is gone and nothing else changed. */
  lemma EraseFacts(obj: seq<Member>, k: Bytes)
    requires Sorted(obj)
    ensures Sorted(Erase(obj, k))
    ensures forall j :: j in Keys(Erase(obj, k)) <==> j in Keys(obj) && j != k
    ensures forall j :: j != k ==> Find(Erase(obj, k), j) == Find(obj, j)
    ensures MembersWellFormed(obj) ==> MembersWellFormed(Erase(obj, k))
  {
    EraseSorted(obj, k);
    EraseKeys(obj, k);
    EraseRemovesKey(obj, k);
    forall j | j != k ensures Find(Erase(obj, k), j) == Find(obj, j) {
      EraseFind(obj, k, j);
    }
    if MembersWellFormed(obj) {
      EraseMembersWellFormed(obj, k);
    }
  }

  /** On a sorted list, erasing the key of `rbegin()` removes exactly the last member. */
  lemma EraseGreatest(obj: seq<Member>)
    requires Sorted(obj) && |obj| > 0
    ensures Erase(obj, obj[|obj| - 1].key) == obj[..|obj| - 1]
  {
    var last := obj[|obj| - 1];
    var init := obj[..|obj| - 1];
    assert last.key !in Keys(init) by {
      if last.key in Keys(init) {
        var i :| 0 <= i < |init| && Keys(init)[i] == last.key;
        assert obj[i].key == last.key;
        assert KeyLess(obj[i].key, last.key);
        KeyLessIrreflexive(last.key);
      }
    }
    assert obj == init + [last];
    EraseSplit(obj, init, last);
  }

  lemma {:induction false} EraseSplit(obj: seq<Member>, init: seq<Member>, last: Member)
    requires obj == init + [last] && last.key !in Keys(init)
    ensures Erase(obj, last.key) == init
    decreases |init|
  {
    if |init| == 0 {
      assert obj[1..] == [];
    } else {
      assert init == [init[0]] + init[1..];
      KeysOfCons(init[0], init[1..]);
      assert obj[0] == init[0] && obj[1..] == init[1..] + [last];
      EraseSplit(obj[1..], init[1..], last);
    }
  }

  lemma SortedPrefix(obj: seq<Member>, n: nat)
    requires Sorted(obj) && n <= |obj|
    ensures Sorted(obj[..n])
  {
    var init := obj[..n];
    forall i, j | 0 <= i < j < |init| ensures KeyLess(init[i].key, init[j].key) {
      assert init[i] == obj[i] && init[j] == obj[j];
    }
  }

  lemma DropGreatestStep(obj: seq<Member>, d: nat)
    requires 0 < d <= |obj|
    ensures DropGreatest(obj, d) == DropGreatest(Erase(obj, obj[|obj| - 1].key), d - 1)
  {
  }

  /** On a sorted list, one round of the `resize` loop drops the last member. */
  lemma DropGreatestOnce(obj: seq<Member>, d: nat)
    requires Sorted(obj) && 0 < d <= |obj|
    ensures DropGreatest(obj, d) == DropGreatest(obj[..|obj| - 1], d - 1)
  {
    EraseGreatest(obj);
    DropGreatestStep(obj, d);
  }

  /** `resize` of an object erases the greatest keys: on a sorted list it keeps the first `|obj| - d`. */
  lemma {:induction false} DropGreatestIsPrefix(obj: seq<Member>, d: nat)
    requires Sorted(obj) && d <= |obj|
    ensures DropGreatest(obj, d) == obj[..|obj| - d]
    decreases d
  {
    if d == 0 {
      assert obj[..|obj|] == obj;
    } else {
      var init := obj[..|obj| - 1];
      DropGreatestOnce(obj, d);
      SortedPrefix(obj, |obj| - 1);
      DropGreatestIsPrefix(init, d - 1);
      PrefixOfPrefix(obj, |obj| - 1, |obj| - d);
    }
  }

  lemma PrefixOfPrefix<T>(s: seq<T>, m: nat, n: nat)
    requires n <= m <= |s|
    ensures s[..m][..n] == s[..n]
  {
  }

  lemma {:induction false} MergeKeys(obj: seq<Member>, from: seq<Member>)
    ensures forall j :: j in Keys(Merge(obj, from)) <==> j in Keys(obj) || j in Keys(from)
    decreases |from|
  {
    if |from| > 0 {
      InsertKeys(obj, from[0].key, from[0].val);
      MergeKeys(Insert(obj, from[0].key, from[0].val), from[1..]);
      assert from == [from[0]] + from[1..];
      KeysOfCons(from[0], from[1..]);
    }
  }

  lemma {:induction false} MergeSorted(obj: seq<Member>, from: seq<Member>)
    requires Sorted(obj)
    ensures Sorted(Merge(obj, from))
    decreases |from|
  {
    if |from| > 0 {
      InsertSorted(obj, from[0].key, from[0].val);
      MergeSorted(Insert(obj, from[0].key, from[0].val), from[1..]);
    }
  }

  lemma {:induction false} MergeFind(obj: seq<Member>, from: seq<Member>, j: Bytes)
    requires Sorted(obj)
    ensures Find(Merge(obj, from), j) == if j in Keys(obj) then Find(obj, j) else Find(from, j)
    decreases |from|
  {
    if |from| > 0 {
      var obj' := Insert(obj, from[0].key, from[0].val);
      InsertSorted(obj, from[0].key, from[0].val);
      InsertKeys(obj, from[0].key, from[0].val);
      InsertFind(obj, from[0].key, from[0].val, j);
      MergeFind(obj', from[1..], j);
      assert from == [from[0]] + from[1..];
      FindCons(from[0], from[1..], j);
    }
  }

  lemma {:induction false} MergeMembersWellFormed(obj: seq<Member>, from: seq<Member>)
    requires MembersWellFormed(obj) && MembersWellFormed(from)
    ensures MembersWellFormed(Merge(obj, from))
    decreases |from|
  {
    if |from| > 0 {
      assert from == [from[0]] + from[1..];
      MembersWellFormedCons(from[0], from[1..]);
      InsertMembersWellFormed(obj, from[0].key, from[0].val);
      MergeMembersWellFormed(Insert(obj, from[0].key, from[0].val), from[1..]);
    }
  }

  /** Merging (`append`, `operator=` on objects): old members win, new keys come from `from` (first occurrence). */
  /** `Merge` from the `i`-th member on is one insertion followed by the merge of the rest. */
  lemma MergeFrom(obj: seq<Member>, from: seq<Member>, i: nat)
    requires i < |from|
    ensures Merge(obj, from[i..]) == Merge(Insert(obj, from[i].key, from[i].val), from[i + 1..])
  {
    assert from[i..][1..] == from[i + 1..];
  }

  lemma MergeFacts(obj: seq<Member>, from: seq<Member>)
    requires Sorted(obj)
    ensures Sorted(Merge(obj, from))
    ensures forall j :: j in Keys(Merge(obj, from)) <==> j in Keys(obj) || j in Keys(from)
    ensures forall j :: Find(Merge(obj, from), j) == if j in Keys(obj) then Find(obj, j) else Find(from, j)
    ensures MembersWellFormed(obj) && MembersWellFormed(from) ==> MembersWellFormed(Merge(obj, from))
  {
    MergeSorted(obj, from);
    MergeKeys(obj, from);
    forall j ensures Find(Merge(obj, from), j) == if j in Keys(obj) then Find(obj, j) else Find(from, j) {
      MergeFind(obj, from, j);
    }
    if MembersWellFormed(obj) && MembersWellFormed(from) { MergeMembersWellFormed(obj, from); }
  }

  // ---------------------------------------------------------------------------
  // Mutators of Value

  /** `clear()` empties the payload the tag selected and keeps the stale ones: `isValidIndex` can still see an old array. */
  lemma ClearKeepsStalePayload(v: Value, i: nat)
    requires v.tag != Array && IsValidIndex(v, i)
    ensures Clear(v).tag == Null && IsValidIndex(Clear(v), i)
  {
  }

  /** `removeMember` of an absent key changes nothing; removing twice is removing once. */
  lemma RemoveMemberTwice(v: Value, k: Bytes)
    requires WellFormed(v)
    ensures !IsMember(RemoveMember(v, k), k)
    ensures RemoveMember(RemoveMember(v, k), k) == RemoveMember(v, k)
    ensures forall j :: j != k ==> Get(RemoveMember(v, k), j) == Get(v, j)
  {
    EraseFacts(v.members, k);
  }

  /** `resize` on an array truncates or pads with `Value()`. */
  lemma ResizeArray(v: Value, n: nat)
    requires v.tag == Array
    ensures Resize(v, n).tag == Array && |Resize(v, n).elems| == n
    ensures forall i :: 0 <= i < n && i < |v.elems| ==> Resize(v, n).elems[i] == v.elems[i]
    ensures forall i :: |v.elems| <= i < n ==> Resize(v, n).elems[i] == Default()
  {
  }

  /** `resize` on an object keeps the `n` least keys, each with its value. */
  lemma ResizeObject(v: Value, n: nat)
    requires v.tag == Object && WellFormed(v)
    ensures Resize(v, n).members == v.members[..if n < |v.members| then n else |v.members|]
    ensures WellFormed(Resize(v, n))
  {
    if |v.members| > n {
      DropGreatestIsPrefix(v.members, |v.members| - n);
      var r := v.(members := v.members[..n]);
      assert Resize(v, n) == r;
      SortedPrefix(v.members, n);
      assert MembersWellFormed(v.members);
      forall i | 0 <= i < n ensures WellFormed(r.members[i].val) {
        assert r.members[i] == v.members[i];
      }
      assert WellFormed(r);
    } else {
      assert Resize(v, n) == v;
    }
  }

  /** `append` pushes onto an array, or merges into an object keeping every existing member. */
  lemma AppendFacts(v: Value, x: Value)
    requires v.tag == Object ==> x.tag == Object
    requires WellFormed(v) && WellFormed(x)
    ensures v.tag == Array ==> Append(v, x).elems == v.elems + [x]
    ensures v.tag == Object ==> forall j :: Get(Append(v, x), j) == if IsMember(v, j) then Get(v, j) else Get(x, j)
    ensures Append(v, x).tag == v.tag
    ensures WellFormed(Append(v, x))
  {
    if v.tag == Array {
      var r := Append(v, x);
      assert forall i :: 0 <= i < |r.elems| ==> r.elems[i] == x || r.elems[i] == v.elems[i];
    } else if v.tag == Object {
      MergeFacts(v.members, x.members);
    }
  }

  /**
   * `operator=(const Value&)` as written: it does not copy a string, it
   * leaves the tag Null after copying an array, and it merges an object into
   * the old members without clearing them or setting the tag.
   */
  lemma AssignAsWritten(v: Value, other: Value)
    requires WellFormed(v) && WellFormed(other)
    ensures other.tag == String ==> Assign(v, other) == v
    ensures other.tag == Array ==> Assign(v, other).tag == Null && Assign(v, other).elems == Clear(v).elems + other.elems
    ensures other.tag == Object ==> Assign(v, other).tag == v.tag
    ensures other.tag == Object ==> forall j :: IsMember(v, j) ==> Get(Assign(v, other), j) == Get(v, j)
    ensures other.tag == Object ==> forall j :: IsMember(other, j) ==> IsMember(Assign(v, other), j)
    ensures other.tag in {Null, True, False, Number} ==> Assign(v, other).tag == other.tag
    ensures other.tag == Number ==> Assign(v, other).number == other.number
    ensures WellFormed(Assign(v, other))
  {
    if other.tag == Object {
      MergeFacts(v.members, other.members);
    } else if other.tag == Array {
      var r := Assign(v, other);
      assert forall i :: 0 <= i < |r.elems| ==> r.elems[i] in Clear(v).elems || r.elems[i] in other.elems;
    }
  }

  /** `operator=(const std::vector<Value>&)` keeps a node well-formed: each slot written over is. */
  lemma AssignArrayWellFormed(v: Value, items: seq<Value>)
    requires WellFormed(v) && forall k :: 0 <= k < |items| ==> WellFormed(items[k])
    ensures WellFormed(AssignArray(v, items))
  {
    var c := Clear(v);
    ClearWellFormed(v);
    if |items| <= |c.elems| {
      forall i | 0 <= i < |items|
        ensures WellFormed(AssignArray(v, items).elems[i])
      {
        AssignAsWritten(c.elems[i], items[i]);
      }
    }
  }

  /**
   * A node that was not an array but still holds elements from an earlier
   * `operator=(const Value&)` of an array gets the new elements written over
   * the stale ones slot by slot; when the node had no such elements the
   * array is a copy of the new one.
   */
  lemma AssignArrayOverStale(items: seq<Value>)
    ensures AssignArray(Default(), items).elems == items
    ensures var stale := Assign(Default(), AssignArray(Default(), [FromDouble(1)]));
      stale.tag == Null &&
      AssignArray(stale, [FromString("x")]).elems == [FromDouble(1)]
  {
    var a := AssignArray(Default(), [FromDouble(1)]);
    var stale := Assign(Default(), a);
    assert stale.elems == [FromDouble(1)];
    var r := AssignArray(stale, [FromString("x")]);
    assert r.elems[0] == Assign(FromDouble(1), FromString("x")) == FromDouble(1);
  }

  /** Non-const `operator[](key)`: the result is an object holding `key`; other members are kept, even stale ones. */
  lemma IndexKeyFacts(v: Value, k: Bytes)
    requires WellFormed(v)
    ensures IndexKey(v, k).tag == Object && IsMember(IndexKey(v, k), k)
    ensures Get(IndexKey(v, k), k) == if IsMember(v, k) && v.tag == Object then Get(v, k) else Get(Clear(v), k)
    ensures forall j :: j != k && v.tag != Object ==> Get(IndexKey(v, k), j) == Get(Clear(v), j)
    ensures forall j :: j != k && v.tag == Object ==> Get(IndexKey(v, k), j) == Get(v, j)
    ensures WellFormed(IndexKey(v, k))
  {
    var c := if v.tag != Object then Clear(v) else v;
    InsertFacts(c.members, k, Default());
  }

  /** `getMemberNames()` lists the keys in strictly ascending byte order. */
  lemma MemberNamesAscending(v: Value)
    requires WellFormed(v)
    ensures forall i, j :: 0 <= i < j < |Keys(v.members)| ==> KeyLess(Keys(v.members)[i], Keys(v.members)[j])
  {
  }

  // ---------------------------------------------------------------------------
  // The std::map invariant is kept by every mutator

  /** In a sorted list, looking up the key of member `i` yields member `i`'s value. */
  lemma FindSortedAt(obj: seq<Member>, i: nat)
    requires Sorted(obj) && i < |obj|
    ensures Find(obj, obj[i].key) == Some(obj[i].val)
  {
    var r := Find(obj, obj[i].key);
    assert obj[i].key in Keys(obj);
    var j :| 0 <= j < |obj| && obj[j] == Member(obj[i].key, r.value);
    if j != i {
      if j < i { KeyLessIrreflexive(obj[i].key); } else { KeyLessIrreflexive(obj[i].key); }
    }
  }

  lemma ClearWellFormed(v: Value)
    requires WellFormed(v)
    ensures WellFormed(Clear(v))
  {
  }

  lemma ResizeWellFormed(v: Value, n: nat)
    requires (v.tag == Array || v.tag == Object) && WellFormed(v)
    ensures WellFormed(Resize(v, n))
  {
    if v.tag == Array {
      var r := Resize(v, n);
      forall i | 0 <= i < |r.elems| ensures WellFormed(r.elems[i]) {
        if i < |v.elems| { assert r.elems[i] == v.elems[i]; } else { assert r.elems[i] == Default(); }
      }
    } else {
      ResizeObject(v, n);
    }
  }

  lemma RemoveMemberWellFormed(v: Value, k: Bytes)
    requires WellFormed(v)
    ensures WellFormed(RemoveMember(v, k))
  {
    EraseFacts(v.members, k);
  }
}
