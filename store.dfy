/**
 * MapEnv: the in-memory environment store, a single map from variable name
 * to value that its methods read and update in place.
 */
module Store {

  /** `name=value`, the form Environ lists an entry in (strings.Join with "="). */
  function Join(k: string, v: string): string {
    k + "=" + v
  }

  /**
   * `list` lists `env`: one `k=v` string per stored entry, in the order of the
   * distinct keys `keys`, which cover the store.
   */
  ghost predicate IsListing(list: seq<string>, keys: seq<string>, env: map<string, string>) {
    && |list| == |keys| == |env|
    && (forall i :: 0 <= i < |keys| ==> keys[i] in env && list[i] == Join(keys[i], env[keys[i]]))
    && (forall i, j :: 0 <= i < j < |keys| ==> keys[i] != keys[j])
    && (forall k :: k in env ==> k in keys)
  }

  class MapEnv {
    var env: map<string, string>

    /** NewMapEnv: a store holding a copy of `e`, taken entry by entry. */
    constructor NewMapEnv(e: map<string, string>)
      ensures env == e
    {
      var m: map<string, string> := map[];
      var rest := e.Keys;
      while rest != {}
        invariant rest <= e.Keys
        invariant m.Keys == e.Keys - rest
        invariant forall k :: k in m ==> m[k] == e[k]
        decreases rest
      {
        var k :| k in rest;
        m := m[k := e[k]];
        rest := rest - {k};
      }
      env := m;
    }

    /** The stored value, or "" when the key is absent. */
    function Getenv(key: string): (v: string)
      reads this
      ensures key in env ==> v == env[key]
      ensures key !in env ==> v == ""
    {
      if key in env then env[key] else ""
    }

    /** The stored value and whether the key is present; "" and false when absent. */
    function LookupEnv(key: string): (r: (string, bool))
      reads this
      ensures r.1 <==> key in env
      ensures r.0 == Getenv(key)
    {
      if key in env then (env[key], true) else ("", false)
    }

    /** Stores `value` under `key`; the Go method always reports success. */
    method Setenv(key: string, value: string)
      modifies this
      ensures env == old(env)[key := value]
      ensures Getenv(key) == value && LookupEnv(key) == (value, true)
      ensures forall k :: k != key ==> Getenv(k) == old(Getenv(k))
    {
      env := env[key := value];
    }

    /** Removes `key`; the Go method always reports success. */
    method Unsetenv(key: string)
      modifies this
      ensures env == old(env) - {key}
      ensures Getenv(key) == "" && LookupEnv(key) == ("", false)
      ensures forall k :: k != key ==> Getenv(k) == old(Getenv(k))
    {
      env := env - {key};
    }

    /** Replaces the store by an empty one. */
    method Clearenv()
      modifies this
      ensures env == map[]
      ensures forall k :: Getenv(k) == "" && !LookupEnv(k).1
    {
      env := map[];
    }

    /**
     * Every entry as `k=v`, in an order the store does not fix: `keys` is the
     * order the loop happened to visit the keys in.
     */
    method Environ() returns (list: seq<string>, ghost keys: seq<string>)
      ensures IsListing(list, keys, env)
      ensures env == map[] ==> list == []
    {
      list, keys := [], [];
      var rest := env.Keys;
      while rest != {}
        invariant rest <= env.Keys
        invariant |list| == |keys|
        invariant forall i :: 0 <= i < |keys| ==> keys[i] in env && keys[i] !in rest && list[i] == Join(keys[i], env[keys[i]])
        invariant forall i, j :: 0 <= i < j < |keys| ==> keys[i] != keys[j]
        invariant forall k :: k in env ==> k in keys || k in rest
        invariant |keys| + |rest| == |env|
        decreases rest
      {
        var k :| k in rest;
        list := list + [Join(k, env[k])];
        keys := keys + [k];
        rest := rest - {k};
      }
    }
  }
}
