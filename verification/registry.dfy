/**
 * The listener registry of `hashbang`: for each of the two parts `path` and `query`, a global
 * list of listeners and a map from key to a bucket of listeners, with the operations `on` and
 * `un` over it as values. The class `Hashbang.Router` holds the same state in fields and is
 * proved to follow these functions.
 *
 * A listener is known by its identity, which is what `indexOf` compares. A key is a property
 * name: JavaScript turns a number into its decimal text, so `on('path', 0, fn)` and
 * `on('path', '0', fn)` reach the same bucket.
 */
module Registry {
  import opened Wrappers
  import opened Seqs

  /** The identity of a callback. */
  type Listener = nat

  datatype Part = Path | Query

  /** The message `on` and `un` throw for any other part. */
  const PartError: string := "hashbang `part` must be `path` or `query`"

  /** What JavaScript throws when the three-argument `un` calls `indexOf` on a plain object. */
  const IndexOfError: string := "listenerMap.indexOf is not a function"

  /** `_isSafePart`: exactly `path` and `query` name a part. */
  function PartOf(name: string): (r: Option<Part>)
    ensures r == Some(Path) <==> name == "path"
    ensures r == Some(Query) <==> name == "query"
    ensures r.None? <==> name != "path" && name != "query"
  {
    if name == "path" then Some(Path) else if name == "query" then Some(Query) else None
  }

  function Opposite(p: Part): Part {
    if p == Path then Query else Path
  }

  // ---------------------------------------------------------------------------------------------
  // Keys

  function Digit(d: nat): (c: char)
    requires d < 10
    ensures '0' <= c <= '9' && c as int - '0' as int == d
  {
    ('0' as int + d) as char
  }

  /** `String(n)` for a natural number: its decimal digits, without leading zeros. */
  function Decimal(n: nat): (s: string)
    ensures s != [] && (|s| > 1 ==> s[0] != '0')
    ensures forall i :: 0 <= i < |s| ==> '0' <= s[i] <= '9'
    decreases n
  {
    if n < 10 then [Digit(n)] else Decimal(n / 10) + [Digit(n % 10)]
  }

  /** The number a text of decimal digits denotes. */
  function DigitsValue(s: string): nat
    requires forall i :: 0 <= i < |s| ==> '0' <= s[i] <= '9'
    decreases |s|
  {
    if s == [] then 0 else DigitsValue(s[..|s| - 1]) * 10 + (s[|s| - 1] as int - '0' as int)
  }

  /** Reading the decimal text of `n` gives `n` back. */
  lemma {:induction false} DecimalValue(n: nat)
    ensures DigitsValue(Decimal(n)) == n
    decreases n
  {
    if n >= 10 {
      DecimalValue(n / 10);
      var s := Decimal(n);
      assert s[..|s| - 1] == Decimal(n / 10);
    }
  }

  /** Distinct indices are distinct property names. */
  lemma DecimalInjective(m: nat, n: nat)
    ensures Decimal(m) == Decimal(n) <==> m == n
  {
    DecimalValue(m);
    DecimalValue(n);
  }

  /** An element of a key array: a string, or a number such as a path index. */
  datatype Key = Name(text: string) | Index(n: nat)

  /**
   * An argument after `part`, by what `data.type` reports for it. A function carries its
   * identity and its source text (what `String` gives when it is used as a key); any other value
   * carries the text `String` gives it.
   */
  datatype Arg = Fn(id: Listener, source: string) | Str(text: string) | Num(n: nat) | Arr(keys: seq<Key>) | Other(text: string)

  function PropertyName(k: Key): string {
    match k
    case Name(t) => t
    case Index(n) => Decimal(n)
  }

  /** The property names a key argument stands for: each element of an array, or the argument itself. */
  function KeyNames(a: Arg): (names: seq<string>)
    ensures a.Arr? ==> |names| == |a.keys| && forall i :: 0 <= i < |names| ==> names[i] == PropertyName(a.keys[i])
    ensures !a.Arr? ==> |names| == 1
    ensures a.Num? ==> names == [Decimal(a.n)]
  {
    match a
    case Arr(keys) => seq(|keys|, i requires 0 <= i < |keys| => PropertyName(keys[i]))
    case Fn(_, source) => [source]
    case Str(t) => [t]
    case Num(n) => [Decimal(n)]
    case Other(t) => [t]
  }

  // ---------------------------------------------------------------------------------------------
  // The state

  type Buckets = map<string, seq<Listener>>

  /** `pathAllListener`, `pathListenerMap`, `queryAllListener` and `queryListenerMap`. */
  datatype State = State(pathAll: seq<Listener>, pathMap: Buckets, queryAll: seq<Listener>, queryMap: Buckets) {

    function All(p: Part): seq<Listener> {
      if p == Path then pathAll else queryAll
    }

    function Map(p: Part): Buckets {
      if p == Path then pathMap else queryMap
    }

    /** The state with the global list of `p` replaced and everything else kept. */
    function WithAll(p: Part, l: seq<Listener>): (r: State)
      ensures r.All(p) == l && r.Map(p) == Map(p)
      ensures r.All(Opposite(p)) == All(Opposite(p)) && r.Map(Opposite(p)) == Map(Opposite(p))
    {
      if p == Path then this.(pathAll := l) else this.(queryAll := l)
    }

    /** The state with the buckets of `p` replaced and everything else kept. */
    function WithMap(p: Part, m: Buckets): (r: State)
      ensures r.Map(p) == m && r.All(p) == All(p)
      ensures r.All(Opposite(p)) == All(Opposite(p)) && r.Map(Opposite(p)) == Map(Opposite(p))
    {
      if p == Path then this.(pathMap := m) else this.(queryMap := m)
    }
  }

  /** The registry when the module is loaded. */
  const Empty: State := State([], map[], [], map[])

  /** A bucket, or nothing when the key has none. */
  function Bucket(m: Buckets, k: string): seq<Listener> {
    if k in m then m[k] else []
  }

  /** `add` repeated `c` times. */
  function Repeat(add: seq<Listener>, c: nat): seq<Listener> {
    if c == 0 then [] else Repeat(add, c - 1) + add
  }

  // ---------------------------------------------------------------------------------------------
  // on

  /**
   * The keyed branch of `on`, one key after another: the bucket is created when there is none
   * (an existing one, even empty, is kept) and `add` is pushed onto it; `add` is the listener, or
   * nothing when it is not a function.
   */
  function Attach(m: Buckets, names: seq<string>, add: seq<Listener>): Buckets
    decreases |names|
  {
    if names == [] then m
    else
      var prev := Attach(m, names[..|names| - 1], add);
      var k := names[|names| - 1];
      prev[k := Bucket(prev, k) + add]
  }

  /**
   * `hashbang.on(part, ...args)`: with one argument a function is pushed onto the global list
   * and anything else ignored; with two, the first is the key or keys and the second the
   * listener; any other number of arguments changes nothing. The other part never changes.
   */
  function On(s: State, part: string, args: seq<Arg>): (r: Result<State>)
    ensures r.Err? <==> PartOf(part).None?
    ensures r.Err? ==> r.error == PartError
    ensures r.Ok? ==> var p := Opposite(PartOf(part).value);
                      r.value.All(p) == s.All(p) && r.value.Map(p) == s.Map(p)
    ensures r.Ok? && |args| != 1 ==> r.value.All(PartOf(part).value) == s.All(PartOf(part).value)
    ensures r.Ok? && |args| != 2 ==> r.value.Map(PartOf(part).value) == s.Map(PartOf(part).value)
    ensures r.Ok? && |args| == 1 ==>
              var p := PartOf(part).value;
              r.value.All(p) == s.All(p) + (if args[0].Fn? then [args[0].id] else [])
    ensures r.Ok? && |args| == 2 ==>
              var p, names := PartOf(part).value, KeyNames(args[0]);
              var add := if args[1].Fn? then [args[1].id] else [];
              && r.value.Map(p).Keys == s.Map(p).Keys + (set k | k in names)
              && forall k :: Bucket(r.value.Map(p), k) == Bucket(s.Map(p), k) + Repeat(add, multiset(names)[k])
  {
    match PartOf(part)
    case None => Err(PartError)
    case Some(p) =>
      if |args| == 1 then
        Ok(if args[0].Fn? then s.WithAll(p, s.All(p) + [args[0].id]) else s)
      else if |args| == 2 then
        var add := if args[1].Fn? then [args[1].id] else [];
        AttachBuckets(s.Map(p), KeyNames(args[0]), add);
        Ok(s.WithMap(p, Attach(s.Map(p), KeyNames(args[0]), add)))
      else Ok(s)
  }

  /**
   * After the keyed branch of `on`, every named key has a bucket, and each bucket holds what it
   * held, followed by `add` once for each time its key is named; no other key changes.
   */
  lemma AttachBuckets(m: Buckets, names: seq<string>, add: seq<Listener>)
    ensures Attach(m, names, add).Keys == m.Keys + (set k | k in names)
    ensures forall k :: Bucket(Attach(m, names, add), k) == Bucket(m, k) + Repeat(add, multiset(names)[k])
  {
    AttachKeys(m, names, add);
    forall k ensures Bucket(Attach(m, names, add), k) == Bucket(m, k) + Repeat(add, multiset(names)[k]) {
      AttachBucket(m, names, add, k);
    }
  }

  lemma {:induction false} AttachKeys(m: Buckets, names: seq<string>, add: seq<Listener>)
    ensures Attach(m, names, add).Keys == m.Keys + (set k | k in names)
    decreases |names|
  {
    if names != [] {
      var init, last := names[..|names| - 1], names[|names| - 1];
      AttachKeys(m, init, add);
      LastSplit(names);
      assert (set k | k in names) == (set k | k in init) + {last};
    }
  }

  lemma {:induction false} AttachBucket(m: Buckets, names: seq<string>, add: seq<Listener>, k: string)
    ensures Bucket(Attach(m, names, add), k) == Bucket(m, k) + Repeat(add, multiset(names)[k])
    decreases |names|
  {
    if names == [] {
      assert Bucket(m, k) + [] == Bucket(m, k);
    } else {
      var init, last := names[..|names| - 1], names[|names| - 1];
      var prev := Attach(m, init, add);
      var c := multiset(init)[k];
      AttachBucket(m, init, add, k);
      assert multiset(names)[k] == if k == last then c + 1 else c by { LastSplit(names); }
      AttachStep(prev, last, add, k);
      RepeatMore(Bucket(m, k), add, c);
    }
  }

  lemma RepeatMore(b: seq<Listener>, add: seq<Listener>, c: nat)
    ensures b + Repeat(add, c) + add == b + Repeat(add, c + 1)
  {
  }

  lemma AttachStep(prev: Buckets, last: string, add: seq<Listener>, k: string)
    ensures Bucket(prev[last := Bucket(prev, last) + add], k) == if k == last then Bucket(prev, k) + add else Bucket(prev, k)
  {
  }

  /**
   * `on(part, key, fn)` with a function and a single key: the key's bucket is the old one (or
   * none) with `fn` at the end, and every other bucket and list is unchanged.
   */
  lemma OnKeyed(s: State, part: string, key: Arg, fn: Arg)
    requires PartOf(part).Some? && !key.Arr? && fn.Fn?
    ensures var p, k := PartOf(part).value, KeyNames(key)[0];
            var r := On(s, part, [key, fn]);
            && r.Ok?
            && r.value.Map(p) == s.Map(p)[k := Bucket(s.Map(p), k) + [fn.id]]
  {
    var p, k := PartOf(part).value, KeyNames(key)[0];
    assert KeyNames(key) == [k];
    assert Attach(s.Map(p), [k], [fn.id]) == Attach(s.Map(p), [], [fn.id])[k := Bucket(s.Map(p), k) + [fn.id]] by {
      assert [k][..0] == [];
    }
  }

  // ---------------------------------------------------------------------------------------------
  // un

  /** `Array.prototype.indexOf`: the first index holding `x`, or -1. */
  function IndexOf(xs: seq<Listener>, x: Listener): (i: int)
    ensures -1 <= i < |xs|
    ensures i == -1 <==> x !in xs
    ensures 0 <= i ==> xs[i] == x && x !in xs[..i]
    decreases |xs|
  {
    if xs == [] then -1
    else if xs[0] == x then 0
    else
      var j := IndexOf(xs[1..], x);
      if j == -1 then -1
      else
        assert xs[..j + 1] == [xs[0]] + xs[1..][..j];
        j + 1
  }

  /** `indexOf`, then `splice(i, 1)` when found: the first occurrence of `x` is removed. */
  function RemoveFirst(xs: seq<Listener>, x: Listener): (r: seq<Listener>)
    ensures x !in xs ==> r == xs
  {
    var i := IndexOf(xs, x);
    if i > -1 then xs[..i] + xs[i + 1..] else xs
  }

  /** Removing the first occurrence of `x` from a list whose first `x` follows `ys` leaves the rest in order. */
  lemma RemoveFirstSplit(ys: seq<Listener>, x: Listener, zs: seq<Listener>)
    requires x !in ys
    ensures RemoveFirst(ys + [x] + zs, x) == ys + zs
  {
    var xs := ys + [x] + zs;
    var i := IndexOf(xs, x);
    assert xs[|ys|] == x;
    assert forall j :: 0 <= j < |ys| ==> xs[j] == ys[j];
    assert forall j :: |ys| < j <= |xs| ==> xs[..j][|ys|] == x;
    assert i == |ys|;
    assert xs[..|ys|] == ys && xs[|ys| + 1..] == zs;
  }

  /** Removing takes exactly one `x` away when there is one, and nothing otherwise. */
  lemma RemoveFirstCount(xs: seq<Listener>, x: Listener)
    ensures multiset(RemoveFirst(xs, x)) == multiset(xs) - multiset{x}
    ensures |RemoveFirst(xs, x)| == if x in xs then |xs| - 1 else |xs|
  {
    var i := IndexOf(xs, x);
    if i > -1 {
      SpliceCount(xs, i);
    }
  }

  /** Cutting the element at `i` out of a list takes exactly that element out of its multiset. */
  lemma SpliceCount(xs: seq<Listener>, i: nat)
    requires i < |xs|
    ensures multiset(xs[..i] + xs[i + 1..]) == multiset(xs) - multiset{xs[i]}
    ensures |xs[..i] + xs[i + 1..]| == |xs| - 1
  {
    var ys, zs := xs[..i], xs[i + 1..];
    assert xs == ys + [xs[i]] + zs;
    assert multiset(xs) == multiset(ys) + multiset{xs[i]} + multiset(zs);
  }

  /** `listenerMap[k] = []` for each named key, creating the buckets that were missing. */
  function Clear(m: Buckets, names: seq<string>): Buckets
    decreases |names|
  {
    if names == [] then m else Clear(m, names[..|names| - 1])[names[|names| - 1] := []]
  }

  /** After clearing, the named keys hold empty buckets and the others what they held. */
  lemma {:induction false} ClearBuckets(m: Buckets, names: seq<string>)
    ensures Clear(m, names).Keys == m.Keys + (set k | k in names)
    ensures forall k :: k in Clear(m, names) ==> Clear(m, names)[k] == if k in names then [] else m[k]
    decreases |names|
  {
    if names != [] {
      var init, last := names[..|names| - 1], names[|names| - 1];
      ClearBuckets(m, init);
      LastSplit(names);
      assert (set k | k in names) == (set k | k in init) + {last};
    }
  }

  /**
   * The three-argument branch of `un` as its documentation describes it: the first occurrence of
   * the listener is removed from the bucket of each named key, where there is one.
   */
  function Detach(m: Buckets, names: seq<string>, x: Listener): Buckets
    decreases |names|
  {
    if names == [] then m
    else
      var prev := Detach(m, names[..|names| - 1], x);
      var k := names[|names| - 1];
      if k in prev then prev[k := RemoveFirst(prev[k], x)] else prev
  }

  /** `RemoveFirst` applied `c` times. */
  function RemoveTimes(xs: seq<Listener>, x: Listener, c: nat): seq<Listener> {
    if c == 0 then xs else RemoveFirst(RemoveTimes(xs, x, c - 1), x)
  }

  /**
   * Detaching keeps the set of keys, and each bucket loses the first occurrence of the listener
   * once for each time its key is named.
   */
  lemma {:induction false} DetachBuckets(m: Buckets, names: seq<string>, x: Listener)
    ensures Detach(m, names, x).Keys == m.Keys
    ensures forall k :: k in m ==> Detach(m, names, x)[k] == RemoveTimes(m[k], x, multiset(names)[k])
    decreases |names|
  {
    if names != [] {
      var init, last := names[..|names| - 1], names[|names| - 1];
      var prev := Detach(m, init, x);
      DetachBuckets(m, init, x);
      LastSplit(names);
      assert Detach(m, names, x) == if last in prev then prev[last := RemoveFirst(prev[last], x)] else prev;
      forall k | k in m ensures Detach(m, names, x)[k] == RemoveTimes(m[k], x, multiset(names)[k]) {
        if k == last {
          assert multiset(names)[k] == multiset(init)[k] + 1;
          assert Detach(m, names, x)[k] == RemoveFirst(prev[k], x);
        } else {
          assert multiset(names)[k] == multiset(init)[k];
          assert Detach(m, names, x)[k] == prev[k];
        }
      }
    }
  }

  /** A key argument: a string, an array, or (as the documentation has it) a number. */
  predicate IsKeys(a: Arg) {
    a.Str? || a.Arr? || a.Num?
  }

  /**
   * `hashbang.un(part, ...args)` as its documentation describes it: no argument empties the
   * global list; a function removes its first occurrence from the global list; a key or keys
   * empty those buckets; a key or keys and a function remove the function's first occurrence from
   * each of those buckets. Any other call changes nothing, and the other part never changes.
   */
  function Un(s: State, part: string, args: seq<Arg>): (r: Result<State>)
    ensures r.Err? <==> PartOf(part).None?
    ensures r.Err? ==> r.error == PartError
    ensures r.Ok? ==> var p := Opposite(PartOf(part).value);
                      r.value.All(p) == s.All(p) && r.value.Map(p) == s.Map(p)
    ensures r.Ok? && |args| == 0 ==>
              var p := PartOf(part).value;
              r.value.All(p) == [] && r.value.Map(p) == s.Map(p)
    ensures r.Ok? && |args| == 1 && args[0].Fn? ==>
              var p, x := PartOf(part).value, args[0].id;
              && r.value.All(p) == RemoveFirst(s.All(p), x)
              && multiset(r.value.All(p)) == multiset(s.All(p)) - multiset{x}
              && |r.value.All(p)| == (if x in s.All(p) then |s.All(p)| - 1 else |s.All(p)|)
              && r.value.Map(p) == s.Map(p)
    ensures r.Ok? && |args| == 1 && IsKeys(args[0]) ==>
              var p, names := PartOf(part).value, KeyNames(args[0]);
              && r.value.All(p) == s.All(p)
              && r.value.Map(p).Keys == s.Map(p).Keys + (set k | k in names)
              && forall k :: k in r.value.Map(p) ==> r.value.Map(p)[k] == if k in names then [] else s.Map(p)[k]
    ensures r.Ok? && |args| == 2 && IsKeys(args[0]) && args[1].Fn? ==>
              var p, names, x := PartOf(part).value, KeyNames(args[0]), args[1].id;
              && r.value.All(p) == s.All(p)
              && r.value.Map(p).Keys == s.Map(p).Keys
              && forall k :: k in s.Map(p) ==> r.value.Map(p)[k] == RemoveTimes(s.Map(p)[k], x, multiset(names)[k])
    ensures (&& r.Ok? && |args| != 0
             && !(|args| == 1 && (args[0].Fn? || IsKeys(args[0])))
             && !(|args| == 2 && IsKeys(args[0]) && args[1].Fn?)) ==> r.value == s
  {
    match PartOf(part)
    case None => Err(PartError)
    case Some(p) =>
      if |args| == 0 then Ok(s.WithAll(p, []))
      else if |args| == 1 && args[0].Fn? then
        RemoveFirstCount(s.All(p), args[0].id);
        Ok(s.WithAll(p, RemoveFirst(s.All(p), args[0].id)))
      else if |args| == 1 && IsKeys(args[0]) then
        ClearBuckets(s.Map(p), KeyNames(args[0]));
        Ok(s.WithMap(p, Clear(s.Map(p), KeyNames(args[0]))))
      else if |args| == 2 && IsKeys(args[0]) && args[1].Fn? then
        DetachBuckets(s.Map(p), KeyNames(args[0]), args[1].id);
        Ok(s.WithMap(p, Detach(s.Map(p), KeyNames(args[0]), args[1].id)))
      else Ok(s)
  }

  /**
   * `hashbang.un` as written: a number key is not recognised, so `un(part, 0)` and
   * `un(part, 0, fn)` change nothing; and the three-argument branch calls `indexOf` on the map
   * object, which throws as soon as there is a key to visit.
   */
  function UnAsWritten(s: State, part: string, args: seq<Arg>): (r: Result<State>)
    ensures r.Err? ==> r.error == PartError || r.error == IndexOfError
  {
    match PartOf(part)
    case None => Err(PartError)
    case Some(p) =>
      if |args| == 0 then Ok(s.WithAll(p, []))
      else if |args| == 1 && args[0].Fn? then Ok(s.WithAll(p, RemoveFirst(s.All(p), args[0].id)))
      else if |args| == 1 && (args[0].Str? || args[0].Arr?) then Ok(s.WithMap(p, Clear(s.Map(p), KeyNames(args[0]))))
      else if |args| == 2 && (args[0].Str? || args[0].Arr?) && args[1].Fn? then
        if KeyNames(args[0]) == [] then Ok(s) else Err(IndexOfError)
      else Ok(s)
  }

  /** Apart from a number key and the three-argument form with keys, the code does what its documentation says. */
  lemma UnAsWrittenAgrees(s: State, part: string, args: seq<Arg>)
    requires args == [] || !args[0].Num?
    requires !(|args| == 2 && args[1].Fn? && (args[0].Str? || args[0].Arr?) && KeyNames(args[0]) != [])
    ensures UnAsWritten(s, part, args) == Un(s, part, args)
  {
    if PartOf(part).Some? && |args| == 2 && args[1].Fn? && (args[0].Str? || args[0].Arr?) {
      var p := PartOf(part).value;
      assert Detach(s.Map(p), [], args[1].id) == s.Map(p);
      assert s.WithMap(p, s.Map(p)) == s;
    }
  }

  /**
   * Finding: `un(part, key, fn)` as written throws for any non-empty key list, where the
   * documented behaviour removes `fn` from each key's bucket.
   */
  lemma UnKeyedListenerThrows(s: State, part: string, key: Arg, fn: Arg)
    requires PartOf(part).Some? && (key.Str? || key.Arr?) && KeyNames(key) != [] && fn.Fn?
    ensures UnAsWritten(s, part, [key, fn]) == Err(IndexOfError)
    ensures Un(s, part, [key, fn]).Ok?
  {
  }

  /** Finding, on an example: `un('path', '0', fn)` throws where it should leave bucket `0` empty. */
  lemma UnKeyedListenerExample(s: State, fn: Arg)
    requires s == State([], map["0" := [7]], [], map[]) && fn == Fn(7, "fn")
    ensures UnAsWritten(s, "path", [Str("0"), fn]).Err?
    ensures Un(s, "path", [Str("0"), fn]) == Ok(State([], map["0" := []], [], map[]))
  {
    var m := s.pathMap;
    var args := [Str("0"), fn];
    assert KeyNames(args[0]) == ["0"];
    assert Un(s, "path", args) == Ok(s.WithMap(Path, Detach(m, ["0"], 7)));
    assert Detach(m, ["0"], 7) == Detach(m, [], 7)["0" := RemoveFirst(m["0"], 7)] by {
      assert ["0"][..0] == [];
    }
    RemoveFirstSplit([], 7, []);
    assert [] + [7] + [] == m["0"];
    assert Detach(m, ["0"], 7) == map["0" := []];
    assert s.WithMap(Path, map["0" := []]) == State([], map["0" := []], [], map[]);
  }

  /**
   * Finding: `un(part, n)` with a number key as written changes nothing, where the documented
   * behaviour empties the bucket of `n`.
   */
  lemma UnNumericKeyIgnored(s: State, part: string, n: nat)
    requires PartOf(part).Some?
    ensures UnAsWritten(s, part, [Num(n)]) == Ok(s)
    ensures var p := PartOf(part).value;
            var r := Un(s, part, [Num(n)]);
            r.Ok? && Decimal(n) in r.value.Map(p) && r.value.Map(p)[Decimal(n)] == []
  {
    var p := PartOf(part).value;
    ClearBuckets(s.Map(p), [Decimal(n)]);
  }

  /** Finding, on an example: `un('path', 0)` leaves bucket `0` holding its listener. */
  lemma UnNumericKeyExample(s: State)
    requires s == State([], map["0" := [7]], [], map[])
    ensures UnAsWritten(s, "path", [Num(0)]) == Ok(s)
    ensures Un(s, "path", [Num(0)]) == Ok(State([], map["0" := []], [], map[]))
  {
    assert Decimal(0) == "0";
    assert Clear(s.pathMap, ["0"]) == Clear(s.pathMap, [])["0" := []] by {
      assert ["0"][..0] == [];
    }
    assert s.pathMap["0" := []] == map["0" := []];
  }

  // ---------------------------------------------------------------------------------------------
  // on and un together

  /** `un(part, fn)` undoes `on(part, fn)` when `fn` was not yet in the global list. */
  lemma OnThenUn(s: State, part: string, fn: Arg, same: Arg)
    requires PartOf(part).Some? && fn.Fn? && same.Fn? && same.id == fn.id
    requires fn.id !in s.All(PartOf(part).value)
    ensures On(s, part, [fn]).Ok? && Un(On(s, part, [fn]).value, part, [same]) == Ok(s)
  {
    var p := PartOf(part).value;
    var t := s.WithAll(p, s.All(p) + [fn.id]);
    assert On(s, part, [fn]) == Ok(t);
    assert Un(t, part, [same]) == Ok(t.WithAll(p, RemoveFirst(t.All(p), fn.id)));
    RemoveFirstSplit(s.All(p), fn.id, []);
    assert s.All(p) + [fn.id] == s.All(p) + [fn.id] + [] && s.All(p) + [] == s.All(p);
    assert RemoveFirst(t.All(p), fn.id) == s.All(p);
    assert t.WithAll(p, s.All(p)) == s;
  }

  /**
   * `un(part, key, fn)` undoes `on(part, key, fn)` for one key when `fn` was not yet in its
   * bucket; only an empty bucket for the key may remain where there was none.
   */
  lemma OnThenUnKeyed(s: State, part: string, key: Arg, fn: Arg)
    requires PartOf(part).Some? && (key.Str? || key.Num?) && fn.Fn?
    requires fn.id !in Bucket(s.Map(PartOf(part).value), KeyNames(key)[0])
    ensures var p, k := PartOf(part).value, KeyNames(key)[0];
            On(s, part, [key, fn]).Ok?
            && Un(On(s, part, [key, fn]).value, part, [key, fn]) == Ok(s.WithMap(p, s.Map(p)[k := Bucket(s.Map(p), k)]))
  {
    var p, k := PartOf(part).value, KeyNames(key)[0];
    OnKeyed(s, part, key, fn);
    var m := s.Map(p);
    var b := Bucket(m, k);
    var t := s.WithMap(p, m[k := b + [fn.id]]);
    assert On(s, part, [key, fn]) == Ok(t);
    assert Un(t, part, [key, fn]) == Ok(t.WithMap(p, Detach(t.Map(p), KeyNames(key), fn.id)));
    DetachOne(m, k, b, fn.id);
    assert t.WithMap(p, m[k := b]) == s.WithMap(p, m[k := b]);
  }

  lemma DetachOne(m: Buckets, k: string, b: seq<Listener>, x: Listener)
    requires x !in b
    ensures Detach(m[k := b + [x]], [k], x) == m[k := b]
  {
    var t := m[k := b + [x]];
    assert Detach(t, [k], x) == Detach(t, [], x)[k := RemoveFirst(t[k], x)] by {
      assert [k][..0] == [];
    }
    assert RemoveFirst(t[k], x) == b by {
      RemoveFirstSplit(b, x, []);
      assert b + [x] == b + [x] + [] && b + [] == b;
    }
    assert t[k := b] == m[k := b];
  }

  /** Emptying a global list, or emptying buckets, a second time changes nothing more. */
  lemma UnClearIdempotent(s: State, part: string, args: seq<Arg>)
    requires PartOf(part).Some?
    requires args == [] || (|args| == 1 && IsKeys(args[0]))
    ensures Un(s, part, args).Ok? && Un(Un(s, part, args).value, part, args) == Un(s, part, args)
  {
    var p := PartOf(part).value;
    var t := Un(s, part, args).value;
    if args == [] {
      assert t == s.WithAll(p, []);
      assert Un(t, part, args) == Ok(t.WithAll(p, []));
      OwnFields(t, p);
    } else {
      var names := KeyNames(args[0]);
      var m := Clear(s.Map(p), names);
      assert t == s.WithMap(p, m);
      assert Un(t, part, args) == Ok(t.WithMap(p, Clear(m, names)));
      ClearBuckets(s.Map(p), names);
      ClearBuckets(m, names);
      assert Clear(m, names) == m;
      OwnFields(t, p);
    }
  }

  /** Writing back what a part already holds gives the same state. */
  lemma OwnFields(t: State, p: Part)
    ensures t.WithAll(p, t.All(p)) == t && t.WithMap(p, t.Map(p)) == t
  {
  }
}
