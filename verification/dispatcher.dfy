/**
 * `_differentKeys` and the body of the `hashchange` handler: both URLs are parsed, the keys whose
 * values differ are computed for the path and for the query, and the listeners are listed in the
 * order the handler calls them. Calling a listener is the foreign part; the model returns the
 * sequence of listeners called.
 */
module Dispatch {
  import opened Wrappers
  import opened Seqs
  import Registry
  import Fragment

  /** A plain object as `data.each` visits it: its own keys in enumeration order, each with its value. */
  type Object = seq<(string, string)>

  /** `obj[key]`: the value under `key`, or `undefined`. */
  function Lookup(o: Object, k: string): (r: Option<string>)
    ensures r.None? <==> k !in KeysOf(o)
    decreases |o|
  {
    if o == [] then None
    else if o[0].0 == k then assert KeysOf(o)[0] == k; Some(o[0].1)
    else
      assert KeysOf(o) == [o[0].0] + KeysOf(o[1..]);
      Lookup(o[1..], k)
  }

  function KeysOf(o: Object): seq<string> {
    seq(|o|, i requires 0 <= i < |o| => o[i].0)
  }

  /** The keys of a JavaScript object are distinct. */
  predicate UniqueKeys(o: Object) {
    forall i, j :: 0 <= i < j < |o| ==> o[i].0 != o[j].0
  }

  /** A list without repetitions. */
  predicate Distinct(ks: seq<string>) {
    forall i, j :: 0 <= i < j < |ks| ==> ks[i] != ks[j]
  }

  /** An array seen as an object: each index, as a property name, holding its element. */
  function ArrayObject(a: seq<string>): (o: Object)
    ensures |o| == |a| && forall i :: 0 <= i < |a| ==> o[i] == (Registry.Decimal(i), a[i])
  {
    seq(|a|, i requires 0 <= i < |a| => (Registry.Decimal(i), a[i]))
  }

  // ---------------------------------------------------------------------------------------------
  // _differentKeys

  /** The first loop of `_differentKeys`: each key of `o1`, in order, whose value `o2` does not hold. */
  function ChangedKeys(o1: Object, o2: Object): (ks: seq<string>)
    decreases |o1|
  {
    if o1 == [] then []
    else (if Lookup(o2, o1[0].0) != Some(o1[0].1) then [o1[0].0] else []) + ChangedKeys(o1[1..], o2)
  }

  /**
   * The second loop of `_differentKeys`: each key of `o2`, in order, whose value `o1` does not
   * hold is pushed onto `keys` unless `keys` already has it.
   */
  function AddedKeys(o2: Object, o1: Object, keys: seq<string>): seq<string>
    decreases |o2|
  {
    if o2 == [] then keys
    else
      var k, v := o2[0].0, o2[0].1;
      AddedKeys(o2[1..], o1, if Lookup(o1, k) != Some(v) && k !in keys then keys + [k] else keys)
  }

  /** `_differentKeys(obj1, obj2)`. */
  function DifferentKeys(o1: Object, o2: Object): seq<string> {
    AddedKeys(o2, o1, ChangedKeys(o1, o2))
  }

  /** The keys of `o2`, in order, that `o1` does not have. */
  function FreshKeys(o2: Object, o1: Object): (ks: seq<string>)
    decreases |o2|
  {
    if o2 == [] then []
    else (if o2[0].0 !in KeysOf(o1) then [o2[0].0] else []) + FreshKeys(o2[1..], o1)
  }

  /** In an object with distinct keys, the value under the key at index `i` is the one at `i`. */
  lemma {:induction false} LookupAt(o: Object, i: int)
    requires UniqueKeys(o) && 0 <= i < |o|
    ensures Lookup(o, o[i].0) == Some(o[i].1)
    decreases |o|
  {
    if i > 0 {
      assert o[0].0 != o[i].0;
      LookupAt(o[1..], i - 1);
    }
  }

  /** What `Lookup` finds is the value at some index holding the key. */
  lemma {:induction false} LookupSome(o: Object, k: string)
    requires Lookup(o, k).Some?
    ensures exists i :: 0 <= i < |o| && o[i].0 == k && o[i].1 == Lookup(o, k).value
    decreases |o|
  {
    if o[0].0 != k {
      LookupSome(o[1..], k);
      var i :| 0 <= i < |o[1..]| && o[1..][i].0 == k && o[1..][i].1 == Lookup(o, k).value;
      assert o[i + 1] == o[1..][i];
    }
  }

  /** The first loop keeps exactly the keys of `o1` whose value differs in `o2`. */
  lemma {:induction false} ChangedKeysMembers(o1: Object, o2: Object)
    requires UniqueKeys(o1)
    ensures forall k :: k in ChangedKeys(o1, o2) <==> k in KeysOf(o1) && Lookup(o2, k) != Lookup(o1, k)
    ensures Distinct(ChangedKeys(o1, o2))
    decreases |o1|
  {
    if o1 != [] {
      var rest := o1[1..];
      ChangedKeysMembers(rest, o2);
      LookupAt(o1, 0);
      var k0 := o1[0].0;
      assert KeysOf(o1) == [k0] + KeysOf(rest);
      assert k0 !in KeysOf(rest) by {
        forall j | 0 <= j < |rest| ensures rest[j].0 != k0 { assert rest[j] == o1[j + 1]; }
      }
      forall k | k in KeysOf(rest) ensures Lookup(o1, k) == Lookup(rest, k) { }
      DistinctCons(k0, ChangedKeys(rest, o2), Lookup(o2, k0) != Some(o1[0].1));
    }
  }

  lemma DistinctCons(k: string, ks: seq<string>, keep: bool)
    requires Distinct(ks) && k !in ks
    ensures Distinct((if keep then [k] else []) + ks)
  {
    if keep {
      var all := [k] + ks;
      forall i, j | 0 <= i < j < |all| ensures all[i] != all[j] {
        assert all[j] == ks[j - 1];
        if i > 0 { assert all[i] == ks[i - 1]; }
      }
    }
  }

  /**
   * The second loop adds exactly the keys `o1` does not have, in the order of `o2`, when the
   * first loop has already collected every key of `o1` whose value differs.
   */
  lemma {:induction false} AddedKeysFresh(o2: Object, o1: Object, keys: seq<string>)
    requires UniqueKeys(o1) && UniqueKeys(o2)
    requires forall k :: k in keys && k in KeysOf(o2) ==> k in KeysOf(o1)
    requires forall i :: 0 <= i < |o2| && o2[i].0 in KeysOf(o1) && Lookup(o1, o2[i].0) != Some(o2[i].1) ==> o2[i].0 in keys
    ensures AddedKeys(o2, o1, keys) == keys + FreshKeys(o2, o1)
    decreases |o2|
  {
    if o2 != [] {
      var k, rest := o2[0].0, o2[1..];
      var next := AddedKeysNext(o2, o1, keys);
      AddedKeysFresh(rest, o1, next);
      assert AddedKeys(rest, o1, next) == next + FreshKeys(rest, o1);
      if k in KeysOf(o1) {
        assert FreshKeys(o2, o1) == FreshKeys(rest, o1);
      } else {
        assert FreshKeys(o2, o1) == [k] + FreshKeys(rest, o1);
        AppendAssoc(keys, [k], FreshKeys(rest, o1));
      }
    }
  }

  /** One step of the second loop: the key of `o2` at the front is added exactly when `o1` lacks it. */
  lemma AddedKeysNext(o2: Object, o1: Object, keys: seq<string>) returns (next: seq<string>)
    requires UniqueKeys(o1) && UniqueKeys(o2) && o2 != []
    requires forall k :: k in keys && k in KeysOf(o2) ==> k in KeysOf(o1)
    requires forall i :: 0 <= i < |o2| && o2[i].0 in KeysOf(o1) && Lookup(o1, o2[i].0) != Some(o2[i].1) ==> o2[i].0 in keys
    ensures next == if o2[0].0 in KeysOf(o1) then keys else keys + [o2[0].0]
    ensures UniqueKeys(o2[1..])
    ensures forall k :: k in next && k in KeysOf(o2[1..]) ==> k in KeysOf(o1)
    ensures forall i :: 0 <= i < |o2[1..]| && o2[1..][i].0 in KeysOf(o1) && Lookup(o1, o2[1..][i].0) != Some(o2[1..][i].1) ==> o2[1..][i].0 in next
    ensures AddedKeys(o2, o1, keys) == AddedKeys(o2[1..], o1, next)
  {
    var k, v := o2[0].0, o2[0].1;
    var rest := o2[1..];
    ObjectTail(o2);
    next := if k in KeysOf(o1) then keys else keys + [k];
    forall k' | k' in next && k' in KeysOf(rest) ensures k' in KeysOf(o1) {
      assert k' in KeysOf(o2);
    }
    forall i | 0 <= i < |rest| && rest[i].0 in KeysOf(o1) && Lookup(o1, rest[i].0) != Some(rest[i].1)
      ensures rest[i].0 in next
    {
      assert rest[i] == o2[i + 1];
    }
    if k in KeysOf(o1) {
      assert Lookup(o1, k) != Some(v) ==> k in keys;
    } else {
      assert k !in keys;
    }
  }

  /** A non-empty object with distinct keys: its first key, then the rest, which does not repeat it. */
  lemma ObjectTail(o: Object)
    requires UniqueKeys(o) && o != []
    ensures KeysOf(o) == [o[0].0] + KeysOf(o[1..])
    ensures UniqueKeys(o[1..]) && o[0].0 !in KeysOf(o[1..])
  {
    var rest := o[1..];
    assert KeysOf(o) == [o[0].0] + KeysOf(rest);
    forall j | 0 <= j < |rest| ensures rest[j].0 != o[0].0 { assert rest[j] == o[j + 1]; }
  }

  /**
   * `_differentKeys` lists first the keys of `obj1` whose values differ, in the order of `obj1`,
   * then the keys only `obj2` has, in the order of `obj2`.
   */
  lemma DifferentKeysSplit(o1: Object, o2: Object)
    requires UniqueKeys(o1) && UniqueKeys(o2)
    ensures DifferentKeys(o1, o2) == ChangedKeys(o1, o2) + FreshKeys(o2, o1)
  {
    var keys := ChangedKeys(o1, o2);
    ChangedKeysMembers(o1, o2);
    forall i | 0 <= i < |o2| && o2[i].0 in KeysOf(o1) && Lookup(o1, o2[i].0) != Some(o2[i].1)
      ensures o2[i].0 in keys
    {
      LookupAt(o2, i);
    }
    AddedKeysFresh(o2, o1, keys);
  }

  /** The keys only `o2` has: all distinct, and exactly the keys of `o2` absent from `o1`. */
  lemma {:induction false} FreshKeysMembers(o2: Object, o1: Object)
    requires UniqueKeys(o2)
    ensures forall k :: k in FreshKeys(o2, o1) <==> k in KeysOf(o2) && k !in KeysOf(o1)
    ensures Distinct(FreshKeys(o2, o1))
    decreases |o2|
  {
    if o2 != [] {
      var rest := o2[1..];
      FreshKeysMembers(rest, o1);
      var k0 := o2[0].0;
      assert KeysOf(o2) == [k0] + KeysOf(rest);
      assert k0 !in KeysOf(rest) by {
        forall j | 0 <= j < |rest| ensures rest[j].0 != k0 { assert rest[j] == o2[j + 1]; }
      }
      DistinctCons(k0, FreshKeys(rest, o1), k0 !in KeysOf(o1));
    }
  }

  /**
   * `_differentKeys` of two objects lists each key whose values differ (a key one object lacks
   * counts as differing) exactly once.
   */
  lemma DifferentKeysMembers(o1: Object, o2: Object)
    requires UniqueKeys(o1) && UniqueKeys(o2)
    ensures forall k :: k in DifferentKeys(o1, o2) <==> Lookup(o1, k) != Lookup(o2, k)
    ensures Distinct(DifferentKeys(o1, o2))
  {
    DifferentKeysSplit(o1, o2);
    ChangedKeysMembers(o1, o2);
    FreshKeysMembers(o2, o1);
    var a, b := ChangedKeys(o1, o2), FreshKeys(o2, o1);
    var all := a + b;
    forall i, j | 0 <= i < j < |all| ensures all[i] != all[j] {
      if j < |a| {
        assert all[i] == a[i] && all[j] == a[j];
      } else if i >= |a| {
        assert all[i] == b[i - |a|] && all[j] == b[j - |a|];
      } else {
        assert all[i] == a[i] && all[j] == b[j - |a|];
        assert a[i] in a && all[j] in b;
      }
    }
  }

  /** An object compared with itself has no differing key. */
  lemma DifferentKeysSame(o: Object)
    requires UniqueKeys(o)
    ensures DifferentKeys(o, o) == []
  {
    DifferentKeysMembers(o, o);
    NonEmptyIff(DifferentKeys(o, o));
  }

  // ---------------------------------------------------------------------------------------------
  // Arrays as objects

  /** An array has distinct property names. */
  lemma ArrayUnique(a: seq<string>)
    ensures UniqueKeys(ArrayObject(a))
  {
    forall i, j | 0 <= i < j < |a| ensures Registry.Decimal(i) != Registry.Decimal(j) {
      Registry.DecimalInjective(i, j);
    }
  }

  /** `a[i]`, or `undefined` past the end. */
  function ElementAt(a: seq<string>, i: nat): Option<string> {
    if i < |a| then Some(a[i]) else None
  }

  /** Looking up the decimal text of `i` in an array gives its element at `i`. */
  lemma LookupIndex(a: seq<string>, i: nat)
    ensures Lookup(ArrayObject(a), Registry.Decimal(i)) == ElementAt(a, i)
  {
    var o := ArrayObject(a);
    ArrayUnique(a);
    if i < |a| {
      LookupAt(o, i);
    } else {
      forall j | 0 <= j < |o| ensures o[j].0 != Registry.Decimal(i) {
        Registry.DecimalInjective(j, i);
      }
    }
  }

  /** Every property name of an array is the decimal text of an index. */
  lemma ArrayKeys(a: seq<string>, k: string)
    requires k in KeysOf(ArrayObject(a))
    ensures exists i :: 0 <= i < |a| && k == Registry.Decimal(i)
  {
    var o := ArrayObject(a);
    var j :| 0 <= j < |o| && KeysOf(o)[j] == k;
  }

  /**
   * The changed path keys of two paths are the decimal texts of exactly the indices at which
   * the paths differ, an index past the end of one path counting as differing.
   */
  lemma PathKeysChanged(a: seq<string>, b: seq<string>)
    ensures forall i: nat :: Registry.Decimal(i) in DifferentKeys(ArrayObject(a), ArrayObject(b)) <==> ElementAt(a, i) != ElementAt(b, i)
    ensures forall k :: k in DifferentKeys(ArrayObject(a), ArrayObject(b)) ==> exists i: nat :: k == Registry.Decimal(i) && ElementAt(a, i) != ElementAt(b, i)
  {
    ArrayUnique(a);
    ArrayUnique(b);
    DifferentKeysMembers(ArrayObject(a), ArrayObject(b));
    forall i: nat ensures Registry.Decimal(i) in DifferentKeys(ArrayObject(a), ArrayObject(b)) <==> ElementAt(a, i) != ElementAt(b, i) {
      LookupIndex(a, i);
      LookupIndex(b, i);
    }
    forall k | k in DifferentKeys(ArrayObject(a), ArrayObject(b))
      ensures exists i: nat :: k == Registry.Decimal(i) && ElementAt(a, i) != ElementAt(b, i)
    {
      if k in KeysOf(ArrayObject(a)) {
        ArrayKeys(a, k);
      } else {
        assert Lookup(ArrayObject(a), k) == None;
        ArrayKeys(b, k);
      }
      var i: nat :| k == Registry.Decimal(i);
      LookupIndex(a, i);
      LookupIndex(b, i);
    }
  }

  // ---------------------------------------------------------------------------------------------
  // The handler

  /** What the handler reads of a parsed URL; `{}` (no marker) reads as an empty path and query. */
  datatype Snapshot = Snapshot(path: Object, query: Object)

  function SnapshotOf(r: Fragment.ParseResult): (s: Snapshot)
    ensures UniqueKeys(s.path)
  {
    match r
    case NoRoute => Snapshot([], [])
    case Route(path, query) =>
      ArrayUnique(path);
      Snapshot(ArrayObject(path), query)
  }

  /** The buckets of the given keys, key after key, each in registration order; a missing bucket adds nothing. */
  function Fanout(m: Registry.Buckets, keys: seq<string>): seq<Registry.Listener>
    decreases |keys|
  {
    if keys == [] then [] else Fanout(m, keys[..|keys| - 1]) + Registry.Bucket(m, keys[|keys| - 1])
  }

  /**
   * The listeners the handler calls, in order: the path's global list if some path key changed,
   * then the bucket of each changed path key, then the query's global list if some query key
   * changed, then the bucket of each changed query key.
   */
  function DispatchOrder(s: Registry.State, current: Snapshot, previous: Snapshot): seq<Registry.Listener> {
    var pathKeys := DifferentKeys(current.path, previous.path);
    var queryKeys := DifferentKeys(current.query, previous.query);
    (if pathKeys != [] then s.pathAll else []) + Fanout(s.pathMap, pathKeys)
      + (if queryKeys != [] then s.queryAll else []) + Fanout(s.queryMap, queryKeys)
  }

  /** A listener is in the fan-out exactly when it is in the bucket of one of the keys. */
  lemma {:induction false} FanoutMembers(m: Registry.Buckets, keys: seq<string>, l: Registry.Listener)
    ensures l in Fanout(m, keys) <==> exists k :: k in keys && l in Registry.Bucket(m, k)
    decreases |keys|
  {
    if keys != [] {
      var init, last := keys[..|keys| - 1], keys[|keys| - 1];
      FanoutMembers(m, init, l);
      LastSplit(keys);
      if l in Registry.Bucket(m, last) {
        assert last in keys;
      }
      if exists k :: k in keys && l in Registry.Bucket(m, k) {
        var k :| k in keys && l in Registry.Bucket(m, k);
        if k != last {
          assert k in init;
        }
      }
    }
  }

  /**
   * A listener is called exactly when, for the path or for the query, it is in the global list
   * and some key changed, or it is in the bucket of a key whose values differ between the two
   * snapshots. A listener under an unchanged key only is never called.
   */
  lemma DispatchMembers(s: Registry.State, current: Snapshot, previous: Snapshot, l: Registry.Listener)
    requires UniqueKeys(current.path) && UniqueKeys(previous.path)
    requires UniqueKeys(current.query) && UniqueKeys(previous.query)
    ensures l in DispatchOrder(s, current, previous)
            <==> || Reached(s.pathAll, s.pathMap, current.path, previous.path, l)
                 || Reached(s.queryAll, s.queryMap, current.query, previous.query, l)
  {
    PartMembers(s.pathAll, s.pathMap, current.path, previous.path, l);
    PartMembers(s.queryAll, s.queryMap, current.query, previous.query, l);
    var a := PartCalls(s.pathAll, s.pathMap, current.path, previous.path);
    var b := PartCalls(s.queryAll, s.queryMap, current.query, previous.query);
    DispatchParts(s, current, previous);
    InConcat(a, b, l);
  }

  /** The dispatch is the calls for the path followed by the calls for the query. */
  lemma DispatchParts(s: Registry.State, current: Snapshot, previous: Snapshot)
    ensures DispatchOrder(s, current, previous)
            == PartCalls(s.pathAll, s.pathMap, current.path, previous.path)
               + PartCalls(s.queryAll, s.queryMap, current.query, previous.query)
  {
  }

  lemma InConcat(a: seq<Registry.Listener>, b: seq<Registry.Listener>, l: Registry.Listener)
    ensures l in a + b <==> l in a || l in b
  {
  }

  /** The calls for one part: its global list when some key changed, then the buckets of the changed keys. */
  function PartCalls(all: seq<Registry.Listener>, m: Registry.Buckets, o1: Object, o2: Object): seq<Registry.Listener> {
    var keys := DifferentKeys(o1, o2);
    (if keys != [] then all else []) + Fanout(m, keys)
  }

  /**
   * A listener of one part is reached when some key of that part changed and it is in the
   * global list, or it is in the bucket of a key whose values differ.
   */
  ghost predicate Reached(all: seq<Registry.Listener>, m: Registry.Buckets, o1: Object, o2: Object, l: Registry.Listener) {
    || ((exists k :: Lookup(o1, k) != Lookup(o2, k)) && l in all)
    || (exists k :: Lookup(o1, k) != Lookup(o2, k) && l in Registry.Bucket(m, k))
  }

  lemma PartMembers(all: seq<Registry.Listener>, m: Registry.Buckets, o1: Object, o2: Object, l: Registry.Listener)
    requires UniqueKeys(o1) && UniqueKeys(o2)
    ensures l in PartCalls(all, m, o1, o2) <==> Reached(all, m, o1, o2, l)
  {
    var keys := DifferentKeys(o1, o2);
    DifferentKeysMembers(o1, o2);
    FanoutMembers(m, keys, l);
    NonEmptyIff(keys);
  }

  lemma NonEmptyIff(ks: seq<string>)
    ensures ks != [] <==> exists k :: k in ks
  {
    if ks != [] {
      assert ks[0] in ks;
    }
  }

  /** When the URL's path and query did not change, no listener is called. */
  lemma DispatchUnchanged(s: Registry.State, snapshot: Snapshot)
    requires UniqueKeys(snapshot.path) && UniqueKeys(snapshot.query)
    ensures DispatchOrder(s, snapshot, snapshot) == []
  {
    DifferentKeysSame(snapshot.path);
    DifferentKeysSame(snapshot.query);
  }

  /**
   * The handler for a change from `oldURL` to `newURL`: both are parsed with the default
   * separators, and the listeners are called in dispatch order.
   */
  function HashChange(s: Registry.State, newURL: Option<string>, oldURL: Option<string>, codec: Fragment.QueryCodec): seq<Registry.Listener> {
    DispatchOrder(s, SnapshotOf(Fragment.Parse(newURL, "", "", codec)), SnapshotOf(Fragment.Parse(oldURL, "", "", codec)))
  }

  /**
   * An example: with global path listener 1, listener 2 under path index 0 and listener 3 under
   * index 1, a change of the second path segment calls 1 and then 3.
   */
  lemma DispatchExample(s: Registry.State, current: Snapshot, previous: Snapshot)
    requires s == Registry.State([1], map["0" := [2], "1" := [3]], [4], map[])
    requires current == Snapshot([("0", "a"), ("1", "b")], []) && previous == Snapshot([("0", "a"), ("1", "c")], [])
    ensures DispatchOrder(s, current, previous) == [1, 3]
  {
    DifferentKeysSame([]);
    ExampleChanged(current.path, previous.path);
    ExampleFresh(current.path, previous.path);
    DifferentKeysSplit(current.path, previous.path);
    ExampleFanout(s.pathMap);
    assert DifferentKeys(current.path, previous.path) == ["1"];
    assert DifferentKeys(current.query, previous.query) == [];
  }

  lemma ExampleChanged(o1: Object, o2: Object)
    requires o1 == [("0", "a"), ("1", "b")] && o2 == [("0", "a"), ("1", "c")]
    ensures ChangedKeys(o1, o2) == ["1"] && UniqueKeys(o1) && UniqueKeys(o2)
  {
    assert Lookup(o2, "0") == Some("a");
    assert Lookup(o2, "1") == Some("c") by { assert Lookup(o2[1..], "1") == Some("c"); }
    var tail := o1[1..];
    assert tail == [("1", "b")] && tail[1..] == [];
    assert ChangedKeys(tail, o2) == ["1"] + ChangedKeys([], o2);
    assert ChangedKeys(o1, o2) == [] + ChangedKeys(tail, o2);
  }

  lemma ExampleFresh(o1: Object, o2: Object)
    requires o1 == [("0", "a"), ("1", "b")] && o2 == [("0", "a"), ("1", "c")]
    ensures FreshKeys(o2, o1) == []
  {
    assert KeysOf(o1) == ["0", "1"];
    var tail := o2[1..];
    assert tail == [("1", "c")] && tail[1..] == [];
    assert FreshKeys(tail, o1) == [] + FreshKeys([], o1);
    assert FreshKeys(o2, o1) == [] + FreshKeys(tail, o1);
  }

  lemma ExampleFanout(m: Registry.Buckets)
    requires m == map["0" := [2], "1" := [3]]
    ensures Fanout(m, ["1"]) == [3]
  {
    assert ["1"][..0] == [];
  }
}
