/**
 * The module-level state of `hashbang` as an object: the two global listener lists and the two
 * maps from key to bucket, which `on` and `un` update in place and the `hashchange` handler
 * reads. Each method is proved to do what the corresponding function of `Registry` or `Dispatch`
 * says.
 */
module Hashbang {
  import opened Wrappers
  import Registry
  import Dispatch
  import Fragment

  class Router {
    var pathAllListener: seq<Registry.Listener>
    var pathListenerMap: Registry.Buckets
    var queryAllListener: seq<Registry.Listener>
    var queryListenerMap: Registry.Buckets

    /** The registry the fields hold. */
    function Model(): Registry.State
      reads this
    {
      Registry.State(pathAllListener, pathListenerMap, queryAllListener, queryListenerMap)
    }

    /** The state when the module is loaded: no listener anywhere. */
    constructor ()
      ensures Model() == Registry.Empty
    {
      pathAllListener, pathListenerMap := [], map[];
      queryAllListener, queryListenerMap := [], map[];
    }

    /** Replaces the global list of `p`. */
    method SetAll(p: Registry.Part, l: seq<Registry.Listener>)
      modifies this
      ensures Model() == old(Model()).WithAll(p, l)
    {
      if p == Registry.Query { queryAllListener := l; } else { pathAllListener := l; }
    }

    /** Replaces the buckets of `p`. */
    method SetMap(p: Registry.Part, m: Registry.Buckets)
      modifies this
      ensures Model() == old(Model()).WithMap(p, m)
    {
      if p == Registry.Query { queryListenerMap := m; } else { pathListenerMap := m; }
    }

    /** `hashbang.on(part, ...args)`, updating the registry in place. */
    method On(part: string, args: seq<Registry.Arg>) returns (r: Result<()>)
      modifies this
      ensures Registry.On(old(Model()), part, args) == if r.Ok? then Ok(Model()) else Err(r.error)
      ensures r.Err? ==> Model() == old(Model())
    {
      var safe := Registry.PartOf(part);
      if safe.None? {
        return Err(Registry.PartError);
      }
      var p := safe.value;
      if |args| == 1 {
        if args[0].Fn? {
          SetAll(p, Model().All(p) + [args[0].id]);
        }
      } else if |args| == 2 {
        var listenerMap := AttachKeys(Model().Map(p), Registry.KeyNames(args[0]), args[1]);
        SetMap(p, listenerMap);
      }
      return Ok(());
    }

    /** `hashbang.un(part, ...args)` as its documentation describes it, updating the registry in place. */
    method Un(part: string, args: seq<Registry.Arg>) returns (r: Result<()>)
      modifies this
      ensures Registry.Un(old(Model()), part, args) == if r.Ok? then Ok(Model()) else Err(r.error)
      ensures r.Err? ==> Model() == old(Model())
    {
      var safe := Registry.PartOf(part);
      if safe.None? {
        return Err(Registry.PartError);
      }
      var p := safe.value;
      if |args| == 0 {
        SetAll(p, []);
      } else if |args| == 1 && args[0].Fn? {
        var list := Splice(Model().All(p), args[0].id);
        SetAll(p, list);
      } else if |args| == 1 && Registry.IsKeys(args[0]) {
        var listenerMap := ClearKeys(Model().Map(p), Registry.KeyNames(args[0]));
        SetMap(p, listenerMap);
      } else if |args| == 2 && Registry.IsKeys(args[0]) && args[1].Fn? {
        var listenerMap := DetachKeys(Model().Map(p), Registry.KeyNames(args[0]), args[1].id);
        SetMap(p, listenerMap);
      }
      return Ok(());
    }

    /**
     * The `hashchange` handler: the listeners it calls for a change from `oldURL` to `newURL`,
     * in the order it calls them.
     */
    method HashChange(newURL: Option<string>, oldURL: Option<string>, codec: Fragment.QueryCodec) returns (calls: seq<Registry.Listener>)
      ensures calls == Dispatch.HashChange(Model(), newURL, oldURL, codec)
    {
      var newObject := Dispatch.SnapshotOf(Fragment.Parse(newURL, "", "", codec));
      var oldObject := Dispatch.SnapshotOf(Fragment.Parse(oldURL, "", "", codec));
      var pathDifferentKeys := Dispatch.DifferentKeys(newObject.path, oldObject.path);
      var queryDifferentKeys := Dispatch.DifferentKeys(newObject.query, oldObject.query);
      calls := [];
      if |pathDifferentKeys| > 0 {
        calls := CallEach(calls, pathAllListener);
      }
      assert calls == if pathDifferentKeys != [] then pathAllListener else [];
      calls := CallBuckets(calls, pathListenerMap, pathDifferentKeys);
      ghost var path := calls;
      if |queryDifferentKeys| > 0 {
        calls := CallEach(calls, queryAllListener);
      }
      assert calls == path + if queryDifferentKeys != [] then queryAllListener else [];
      calls := CallBuckets(calls, queryListenerMap, queryDifferentKeys);
      assert calls == Dispatch.DispatchOrder(Model(), newObject, oldObject);
    }
  }

  /**
   * The keyed branch of `on`: for each key, the bucket is created when missing
   * (`listenerMap[k] || []`), then the listener is pushed onto it when it is a function.
   */
  method AttachKeys(m: Registry.Buckets, keys: seq<string>, listener: Registry.Arg) returns (listenerMap: Registry.Buckets)
    ensures listenerMap == Registry.Attach(m, keys, if listener.Fn? then [listener.id] else [])
  {
    ghost var add := if listener.Fn? then [listener.id] else [];
    listenerMap := m;
    var i := 0;
    while i < |keys|
      invariant 0 <= i <= |keys|
      invariant listenerMap == Registry.Attach(m, keys[..i], add)
    {
      var k := keys[i];
      var bucket := if k in listenerMap then listenerMap[k] else [];
      assert bucket == Registry.Bucket(listenerMap, k);
      if listener.Fn? {
        bucket := bucket + [listener.id];
      } else {
        assert bucket + add == bucket;
      }
      assert bucket == Registry.Bucket(listenerMap, k) + add;
      ghost var next := keys[..i + 1];
      assert next[..|next| - 1] == keys[..i] && next[|next| - 1] == k;
      ghost var want := Registry.Attach(m, next, add);
      assert want == listenerMap[k := Registry.Bucket(listenerMap, k) + add];
      listenerMap := listenerMap[k := bucket];
      assert listenerMap == want;
      i := i + 1;
    }
    assert keys[..|keys|] == keys;
  }

  /** `indexOf`, then `splice(findIndex, 1)` when found. */
  method Splice(list: seq<Registry.Listener>, x: Registry.Listener) returns (out: seq<Registry.Listener>)
    ensures out == Registry.RemoveFirst(list, x)
  {
    var findIndex := Registry.IndexOf(list, x);
    out := list;
    if findIndex > -1 {
      out := list[..findIndex] + list[findIndex + 1..];
    }
  }

  /** The two-argument `un` with keys: `listenerMap[k] = []` for each key. */
  method ClearKeys(m: Registry.Buckets, keys: seq<string>) returns (listenerMap: Registry.Buckets)
    ensures listenerMap == Registry.Clear(m, keys)
  {
    listenerMap := m;
    var i := 0;
    while i < |keys|
      invariant 0 <= i <= |keys|
      invariant listenerMap == Registry.Clear(m, keys[..i])
    {
      listenerMap := listenerMap[keys[i] := []];
      assert keys[..i + 1][..i] == keys[..i];
      i := i + 1;
    }
    assert keys[..|keys|] == keys;
  }

  /** The three-argument `un` as documented: the first occurrence of `x` leaves each key's bucket. */
  method DetachKeys(m: Registry.Buckets, keys: seq<string>, x: Registry.Listener) returns (listenerMap: Registry.Buckets)
    ensures listenerMap == Registry.Detach(m, keys, x)
  {
    listenerMap := m;
    var i := 0;
    while i < |keys|
      invariant 0 <= i <= |keys|
      invariant listenerMap == Registry.Detach(m, keys[..i], x)
    {
      var k := keys[i];
      if k in listenerMap {
        var bucket := Splice(listenerMap[k], x);
        listenerMap := listenerMap[k := bucket];
      }
      assert keys[..i + 1][..i] == keys[..i];
      i := i + 1;
    }
    assert keys[..|keys|] == keys;
  }

  /** `data.each(listeners, ...)`: each listener is called, in order. */
  method CallEach(calls: seq<Registry.Listener>, listeners: seq<Registry.Listener>) returns (out: seq<Registry.Listener>)
    ensures out == calls + listeners
  {
    out := calls;
    var j := 0;
    while j < |listeners|
      invariant 0 <= j <= |listeners|
      invariant out == calls + listeners[..j]
    {
      out := out + [listeners[j]];
      assert listeners[..j + 1] == listeners[..j] + [listeners[j]];
      j := j + 1;
    }
    assert listeners[..|listeners|] == listeners;
  }

  /** For each changed key that has a bucket, each listener of the bucket is called, in order. */
  method CallBuckets(calls: seq<Registry.Listener>, listenerMap: Registry.Buckets, keys: seq<string>) returns (out: seq<Registry.Listener>)
    ensures out == calls + Dispatch.Fanout(listenerMap, keys)
  {
    out := calls;
    var i := 0;
    while i < |keys|
      invariant 0 <= i <= |keys|
      invariant out == calls + Dispatch.Fanout(listenerMap, keys[..i])
    {
      var key := keys[i];
      if key in listenerMap {
        out := CallEach(out, listenerMap[key]);
      }
      assert keys[..i + 1][..i] == keys[..i];
      i := i + 1;
    }
    assert keys[..|keys|] == keys;
  }
}
