/**
 * The FillMap test table of envy_test.go: three stores, the filter each is
 * read through, and what FillMap collects. The Environ listing a store gives
 * is in no fixed order; every case is proved for every listing.
 */
module Cases {
  import opened Text
  import opened Lex
  import opened Classifier
  import opened Filler
  import opened Store
  import opened Listing

  // ---------------------------------------------------------------------------
  // Store-independent steps

  /** FilterPrefix with the single map name "addr" recognises exactly ["addr"]. */
  lemma AddrRecognised(f: Filter)
    requires WellFormed(f)
    requires forall m :: m in f.lowerMap <==> exists a :: a in ["addr"] && ToLower(a) == m
    ensures f.lowerMap == ["addr"]
  {
    assert ToLower("addr") == "addr";
    assert "addr" in f.lowerMap;
    assert forall m :: m in f.lowerMap ==> m == "addr";
    if |f.lowerMap| > 1 {
      assert f.lowerMap[0] in f.lowerMap && f.lowerMap[1] in f.lowerMap;
      StrictlySortedDistinct(f.lowerMap, 0, 1);
    }
  }

  lemma TwoEntries<V>(m: map<string, V>, a: string, va: V, b: string, vb: V)
    requires forall n :: n in m <==> n == a || n == b
    requires a in m && m[a] == va && b in m && m[b] == vb
    ensures m == map[a := va, b := vb]
  {
  }

  lemma ThreeEntries<V>(m: map<string, V>, a: string, va: V, b: string, vb: V, c: string, vc: V)
    requires forall n :: n in m <==> n == a || n == b || n == c
    requires a in m && m[a] == va && b in m && m[b] == vb && c in m && m[c] == vc
    ensures m == map[a := va, b := vb, c := vc]
  {
  }

  /**
   * Array elements at indices 0 to |u|-1, the only variables naming field
   * `nu`, fill it with exactly their values in index order.
   */
  lemma SliceField(g: FilterFn, list: seq<string>, keys: seq<string>, env: map<string, string>,
                   u: seq<string>, nu: string, vs: seq<string>)
    requires IsListing(list, keys, env) && PlainNames(env)
    requires u != [] && |vs| == |u|
    requires forall i :: 0 <= i < |u| ==> u[i] in env && g(u[i]) == (VarName(nu, "", i), VarTypeArray) && env[u[i]] == vs[i]
    requires forall k :: k in env && Names(g, k, nu) ==> k in u
    ensures nu in Fill(g, list) && Fill(g, list)[nu] == Arr(vs)
  {
    forall k | k in env && Names(g, k, nu)
      ensures ElementOf(g, k, nu) && g(k).0.index < |u| && k == u[g(k).0.index]
    {
      var i :| 0 <= i < |u| && u[i] == k;
    }
    StoreDenseArray(g, list, keys, env, nu, u);
    var items := Fill(g, list)[nu].items;
    assert forall i :: 0 <= i < |u| ==> items[i] == vs[i];
  }

  /**
   * Two map entries under different keys, the only variables naming field
   * `na`, fill it with the map from those keys to their values.
   */
  lemma PairField(g: FilterFn, list: seq<string>, keys: seq<string>, env: map<string, string>,
                  a1: string, a2: string, na: string, d1: string, d2: string)
    requires IsListing(list, keys, env) && PlainNames(env)
    requires a1 in env && a2 in env && d1 != d2
    requires g(a1) == (VarName(na, d1, 0), VarTypeMap) && g(a2) == (VarName(na, d2, 0), VarTypeMap)
    requires forall k :: k in env && Names(g, k, na) ==> k == a1 || k == a2
    ensures na in Fill(g, list) && Fill(g, list)[na] == Dict(map[d1 := env[a1], d2 := env[a2]])
  {
    assert Names(g, a1, na);
    StoreMap(g, list, keys, env, na);
    var entries := Fill(g, list)[na].entries;
    assert EntryOf(g, a1, na) && EntryOf(g, a2, na);
    OnlyTwoKeys(g, env, na, a1, a2, entries);
    TwoEntries(entries, d1, env[a1], d2, env[a2]);
  }

  /** When only `a1` and `a2` name field `na`, its entries are keyed by their keys alone. */
  lemma OnlyTwoKeys(g: FilterFn, env: map<string, string>, na: string, a1: string, a2: string, entries: map<string, string>)
    requires forall key :: key in entries ==> exists k :: k in env && EntryOf(g, k, na) && g(k).0.key == key
    requires forall k :: k in env && Names(g, k, na) ==> k == a1 || k == a2
    ensures forall key :: key in entries ==> key == g(a1).0.key || key == g(a2).0.key
  {
    forall key | key in entries ensures key == g(a1).0.key || key == g(a2).0.key {
      var k :| k in env && EntryOf(g, k, na) && g(k).0.key == key;
      assert Names(g, k, na);
    }
  }

  /** Elements at indices 0 to |u|-1 of field `nu` are all array elements of `nu`. */
  lemma SliceNames(g: FilterFn, u: seq<string>, nu: string)
    requires forall i :: 0 <= i < |u| ==> g(u[i]) == (VarName(nu, "", i), VarTypeArray)
    ensures forall k :: k in u ==> ElementOf(g, k, nu)
  {
    forall k | k in u ensures ElementOf(g, k, nu) {
      var i :| 0 <= i < |u| && u[i] == k;
    }
  }

  /** A store of three string variables naming three different fields. */
  lemma ThreeStrings(g: FilterFn, list: seq<string>, keys: seq<string>, env: map<string, string>,
                     k1: string, k2: string, k3: string, n1: string, n2: string, n3: string)
    requires IsListing(list, keys, env) && PlainNames(env)
    requires forall k :: k in env <==> k == k1 || k == k2 || k == k3
    requires g(k1) == (VarName(n1, "", 0), VarTypeString)
    requires g(k2) == (VarName(n2, "", 0), VarTypeString)
    requires g(k3) == (VarName(n3, "", 0), VarTypeString)
    requires n1 != n2 && n1 != n3 && n2 != n3
    ensures Fill(g, list) == map[n1 := Str(env[k1]), n2 := Str(env[k2]), n3 := Str(env[k3])]
  {
    StoreString(g, list, keys, env, k1);
    StoreString(g, list, keys, env, k2);
    StoreString(g, list, keys, env, k3);
    StoreFields(g, list, keys, env);
    forall n | n in Fill(g, list) ensures n == n1 || n == n2 || n == n3 {
      var k :| k in env && Names(g, k, n);
    }
    ThreeEntries(Fill(g, list), n1, Str(env[k1]), n2, Str(env[k2]), n3, Str(env[k3]));
  }

  /** A store of one string variable and the elements 0 to |u|-1 of a second field. */
  lemma StringAndSlice(g: FilterFn, list: seq<string>, keys: seq<string>, env: map<string, string>,
                       c: string, u: seq<string>, nc: string, nu: string, vs: seq<string>)
    requires IsListing(list, keys, env) && PlainNames(env)
    requires forall k :: k in env <==> k == c || k in u
    requires g(c) == (VarName(nc, "", 0), VarTypeString) && nc != nu
    requires u != [] && |vs| == |u|
    requires forall i :: 0 <= i < |u| ==> g(u[i]) == (VarName(nu, "", i), VarTypeArray) && env[u[i]] == vs[i]
    ensures Fill(g, list) == map[nc := Str(env[c]), nu := Arr(vs)]
  {
    SliceNames(g, u, nu);
    SliceField(g, list, keys, env, u, nu, vs);
    StoreString(g, list, keys, env, c);
    StoreFields(g, list, keys, env);
    forall n | n in Fill(g, list) ensures n == nc || n == nu {
      var k :| k in env && Names(g, k, n);
    }
    TwoEntries(Fill(g, list), nc, Str(env[c]), nu, Arr(vs));
  }

  /**
   * A store of one string variable `c`, the elements `u` at indices 0 to
   * |u|-1 of a second field and two entries of a third, map-shaped field,
   * each field named differently.
   */
  ghost predicate PairShape(g: FilterFn, env: map<string, string>, c: string, u: seq<string>, a1: string, a2: string,
                      nc: string, nu: string, na: string, d1: string, d2: string, vs: seq<string>)
  {
    && (forall k :: k in env <==> k == c || k in u || k == a1 || k == a2)
    && g(c) == (VarName(nc, "", 0), VarTypeString)
    && u != [] && |vs| == |u|
    && (forall i :: 0 <= i < |u| ==> g(u[i]) == (VarName(nu, "", i), VarTypeArray) && env[u[i]] == vs[i])
    && g(a1) == (VarName(na, d1, 0), VarTypeMap) && g(a2) == (VarName(na, d2, 0), VarTypeMap)
    && nc != nu && nc != na && nu != na && d1 != d2
  }

  /** Such a store fills exactly its three fields, each from its own variables. */
  lemma StringSliceAndPair(g: FilterFn, list: seq<string>, keys: seq<string>, env: map<string, string>,
                           c: string, u: seq<string>, a1: string, a2: string,
                           nc: string, nu: string, na: string, d1: string, d2: string, vs: seq<string>)
    requires IsListing(list, keys, env) && PlainNames(env)
    requires PairShape(g, env, c, u, a1, a2, nc, nu, na, d1, d2, vs)
    ensures Fill(g, list) == map[nc := Str(env[c]), nu := Arr(vs), na := Dict(map[d1 := env[a1], d2 := env[a2]])]
  {
    PairShapeString(g, list, keys, env, c, u, a1, a2, nc, nu, na, d1, d2, vs);
    PairShapeSlice(g, list, keys, env, c, u, a1, a2, nc, nu, na, d1, d2, vs);
    PairShapePair(g, list, keys, env, c, u, a1, a2, nc, nu, na, d1, d2, vs);
    PairShapeFields(g, list, keys, env, c, u, a1, a2, nc, nu, na, d1, d2, vs);
    ThreeEntries(Fill(g, list), nc, Str(env[c]), nu, Arr(vs), na, Dict(map[d1 := env[a1], d2 := env[a2]]));
  }

  lemma PairShapeString(g: FilterFn, list: seq<string>, keys: seq<string>, env: map<string, string>,
                           c: string, u: seq<string>, a1: string, a2: string,
                           nc: string, nu: string, na: string, d1: string, d2: string, vs: seq<string>)
    requires IsListing(list, keys, env) && PlainNames(env)
    requires PairShape(g, env, c, u, a1, a2, nc, nu, na, d1, d2, vs)
    ensures nc in Fill(g, list) && Fill(g, list)[nc] == Str(env[c])
  {
    SliceNames(g, u, nu);
    StoreString(g, list, keys, env, c);
  }

  lemma PairShapeSlice(g: FilterFn, list: seq<string>, keys: seq<string>, env: map<string, string>,
                           c: string, u: seq<string>, a1: string, a2: string,
                           nc: string, nu: string, na: string, d1: string, d2: string, vs: seq<string>)
    requires IsListing(list, keys, env) && PlainNames(env)
    requires PairShape(g, env, c, u, a1, a2, nc, nu, na, d1, d2, vs)
    ensures nu in Fill(g, list) && Fill(g, list)[nu] == Arr(vs)
  {
    SliceNames(g, u, nu);
    SliceField(g, list, keys, env, u, nu, vs);
  }

  lemma PairShapePair(g: FilterFn, list: seq<string>, keys: seq<string>, env: map<string, string>,
                           c: string, u: seq<string>, a1: string, a2: string,
                           nc: string, nu: string, na: string, d1: string, d2: string, vs: seq<string>)
    requires IsListing(list, keys, env) && PlainNames(env)
    requires PairShape(g, env, c, u, a1, a2, nc, nu, na, d1, d2, vs)
    ensures na in Fill(g, list) && Fill(g, list)[na] == Dict(map[d1 := env[a1], d2 := env[a2]])
  {
    SliceNames(g, u, nu);
    PairField(g, list, keys, env, a1, a2, na, d1, d2);
  }

  lemma PairShapeFields(g: FilterFn, list: seq<string>, keys: seq<string>, env: map<string, string>,
                           c: string, u: seq<string>, a1: string, a2: string,
                           nc: string, nu: string, na: string, d1: string, d2: string, vs: seq<string>)
    requires IsListing(list, keys, env) && PlainNames(env)
    requires PairShape(g, env, c, u, a1, a2, nc, nu, na, d1, d2, vs)
    ensures forall n :: n in Fill(g, list) ==> n == nc || n == nu || n == na
  {
    SliceNames(g, u, nu);
    StoreFields(g, list, keys, env);
    forall n | n in Fill(g, list) ensures n == nc || n == nu || n == na {
      var k :| k in env && Names(g, k, n);
    }
  }

  // ---------------------------------------------------------------------------
  // Classifying the test variables

  lemma ConfigText()
    ensures ToLower("CONFIG") == "config" && "TEST_" + "CONFIG" == "TEST_CONFIG"
  {
  }

  lemma UsersText(d: string)
    ensures ToLower("USERS") == "users"
    ensures "TEST_" + ("USERS" + "_" + d) == "TEST_USERS_" + d
    ensures ("users_" + d)[0] == 'u'
  {
  }

  lemma UsersDigits()
    ensures "TEST_USERS_" + Decimal(0) == "TEST_USERS_0" && "TEST_USERS_" + Decimal(1) == "TEST_USERS_1"
    ensures "TEST_USERS_" + Decimal(2) == "TEST_USERS_2" && "TEST_USERS_" + Decimal(3) == "TEST_USERS_3"
  {
  }

  lemma AddrText()
    ensures ToLower("ADDR") == "addr"
  {
  }

  lemma DefaultText()
    ensures ToLower("DEFAULT") == "default"
  {
  }

  lemma FallbackText()
    ensures ToLower("FALLBACK") == "fallback"
  {
  }

  lemma AddrNames()
    ensures "TEST_" + ("ADDR" + "_" + "DEFAULT") == "TEST_ADDR_DEFAULT"
    ensures "TEST_" + ("ADDR" + "_" + "FALLBACK") == "TEST_ADDR_FALLBACK"
  {
  }

  lemma StringsText()
    ensures ToLower("FOO") == "foo" && ToLower("BAR") == "bar" && ToLower("BAZ") == "baz"
    ensures "TEST01_" + "FOO" == "TEST01_FOO" && "TEST01_" + "BAR" == "TEST01_BAR" && "TEST01_" + "BAZ" == "TEST01_BAZ"
  {
  }

  /** TEST_CONFIG is the string field "config", whatever the map names. */
  lemma ConfigKind(f: Filter)
    requires f.prefix == "TEST_"
    ensures Classify(f, "TEST_CONFIG") == (VarName("config", "", 0), VarTypeString)
  {
    ClassifyStringRoundTrip(f, "CONFIG");
    ConfigText();
  }

  /** TEST_USERS_<i> is element `i` of the slice "users", unless "users" is a map name. */
  lemma UsersKind(f: Filter, i: nat, key: string)
    requires f.prefix == "TEST_" && forall m :: m in f.lowerMap ==> m == "addr"
    requires key == "TEST_USERS_" + Decimal(i)
    ensures Classify(f, key) == (VarName("users", "", i), VarTypeArray)
  {
    var d := Decimal(i);
    UsersText(d);
    forall m | m in f.lowerMap ensures !MapMatch(m, ToLower("USERS") + "_" + d) {
      assert ("addr" + "_")[0] == 'a';
    }
    ClassifyArrayRoundTrip(f, "USERS", i);
  }

  /** The element variables TEST_USERS_0, TEST_USERS_1, ... name their own index. */
  lemma UsersKeys(u: seq<string>)
    requires u == ["TEST_USERS_0", "TEST_USERS_1", "TEST_USERS_2", "TEST_USERS_3"] || u == ["TEST_USERS_0", "TEST_USERS_1"]
    ensures forall i :: 0 <= i < |u| ==> u[i] == "TEST_USERS_" + Decimal(i)
  {
    UsersDigits();
  }

  /** TEST_USERS_0, TEST_USERS_1, ... are the elements of "users" at those indices. */
  lemma UsersKinds(f: Filter, u: seq<string>)
    requires f.prefix == "TEST_" && forall m :: m in f.lowerMap ==> m == "addr"
    requires u == ["TEST_USERS_0", "TEST_USERS_1", "TEST_USERS_2", "TEST_USERS_3"] || u == ["TEST_USERS_0", "TEST_USERS_1"]
    ensures forall i :: 0 <= i < |u| ==> Classify(f, u[i]) == (VarName("users", "", i), VarTypeArray)
  {
    UsersKeys(u);
    forall i | 0 <= i < |u| ensures Classify(f, u[i]) == (VarName("users", "", i), VarTypeArray) {
      UsersKind(f, i, u[i]);
    }
  }

  /** TEST_ADDR_<KEY> is the entry of the map "addr" under the lower-cased key. */
  lemma AddrKind(f: Filter, key: string)
    requires f.prefix == "TEST_" && f.lowerMap == ["addr"]
    ensures Classify(f, "TEST_" + ("ADDR" + "_" + key)) == (VarName("addr", ToLower(key), 0), VarTypeMap)
  {
    AddrText();
    assert '_' !in "addr";
    ClassifyMapRoundTrip(f, "ADDR", key);
  }

  /** TEST_ADDR_DEFAULT and TEST_ADDR_FALLBACK are entries of the map "addr". */
  lemma AddrKinds(f: Filter)
    requires f.prefix == "TEST_" && f.lowerMap == ["addr"]
    ensures Classify(f, "TEST_ADDR_DEFAULT") == (VarName("addr", "default", 0), VarTypeMap)
    ensures Classify(f, "TEST_ADDR_FALLBACK") == (VarName("addr", "fallback", 0), VarTypeMap)
  {
    AddrKind(f, "DEFAULT");
    AddrKind(f, "FALLBACK");
    DefaultText();
    FallbackText();
    AddrNames();
  }

  // ---------------------------------------------------------------------------
  // "only strings": FilterPrefix("TEST01_")

  function StringStore(): map<string, string> {
    map["TEST01_FOO" := "var 01", "TEST01_BAR" := "var 02", "TEST01_BAZ" := "var 03"]
  }

  lemma StringStoreHolds()
    ensures PlainNames(StringStore())
    ensures forall k :: k in StringStore() <==> k == "TEST01_FOO" || k == "TEST01_BAR" || k == "TEST01_BAZ"
    ensures StringStore()["TEST01_FOO"] == "var 01"
    ensures StringStore()["TEST01_BAR"] == "var 02"
    ensures StringStore()["TEST01_BAZ"] == "var 03"
    ensures "foo" != "bar" && "foo" != "baz" && "bar" != "baz"
  {
    assert "bar"[2] != "baz"[2];
  }

  lemma StringStoreKinds(f: Filter)
    requires f.prefix == "TEST01_"
    ensures Classify(f, "TEST01_FOO") == (VarName("foo", "", 0), VarTypeString)
    ensures Classify(f, "TEST01_BAR") == (VarName("bar", "", 0), VarTypeString)
    ensures Classify(f, "TEST01_BAZ") == (VarName("baz", "", 0), VarTypeString)
  {
    StringsText();
    ClassifyStringRoundTrip(f, "FOO");
    ClassifyStringRoundTrip(f, "BAR");
    ClassifyStringRoundTrip(f, "BAZ");
  }

  /**
   * "only strings": every variable under TEST01_ becomes a string field named
   * by the rest of its name in lower case.
   */
  lemma StringsCase(f: Filter, list: seq<string>, keys: seq<string>)
    requires f.prefix == "TEST01_"
    requires IsListing(list, keys, StringStore())
    ensures Fill(Closure(f), list) == map["foo" := Str("var 01"), "bar" := Str("var 02"), "baz" := Str("var 03")]
  {
    StringStoreKinds(f);
    StringStoreHolds();
    ThreeStrings(Closure(f), list, keys, StringStore(), "TEST01_FOO", "TEST01_BAR", "TEST01_BAZ", "foo", "bar", "baz");
  }

  // ---------------------------------------------------------------------------
  // "array": FilterPrefix("TEST_")

  function ArrayStore(): map<string, string> {
    map["TEST_CONFIG" := "path", "TEST_USERS_0" := "user00", "TEST_USERS_1" := "user01",
        "TEST_USERS_2" := "user02", "TEST_USERS_3" := "user03"]
  }

  lemma ArrayStoreHolds(u: seq<string>, vs: seq<string>)
    requires u == ["TEST_USERS_0", "TEST_USERS_1", "TEST_USERS_2", "TEST_USERS_3"]
    requires vs == ["user00", "user01", "user02", "user03"]
    ensures PlainNames(ArrayStore())
    ensures forall k :: k in ArrayStore() <==> k == "TEST_CONFIG" || k in u
    ensures ArrayStore()["TEST_CONFIG"] == "path"
    ensures forall i :: 0 <= i < |u| ==> ArrayStore()[u[i]] == vs[i]
  {
  }

  lemma ArrayStoreKinds(f: Filter, u: seq<string>)
    requires f.prefix == "TEST_" && forall m :: m !in f.lowerMap
    requires u == ["TEST_USERS_0", "TEST_USERS_1", "TEST_USERS_2", "TEST_USERS_3"]
    ensures Classify(f, "TEST_CONFIG") == (VarName("config", "", 0), VarTypeString)
    ensures forall i :: 0 <= i < |u| ==> Classify(f, u[i]) == (VarName("users", "", i), VarTypeArray)
  {
    ConfigKind(f);
    UsersKinds(f, u);
  }

  /**
   * "array": TEST_CONFIG becomes the string "config", and TEST_USERS_0 to
   * TEST_USERS_3 the slice "users" in index order.
   */
  lemma ArrayCase(f: Filter, list: seq<string>, keys: seq<string>)
    requires f.prefix == "TEST_" && forall m :: m !in f.lowerMap
    requires IsListing(list, keys, ArrayStore())
    ensures Fill(Closure(f), list) ==
      map["config" := Str("path"), "users" := Arr(["user00", "user01", "user02", "user03"])]
  {
    var u := ["TEST_USERS_0", "TEST_USERS_1", "TEST_USERS_2", "TEST_USERS_3"];
    var vs := ["user00", "user01", "user02", "user03"];
    ArrayStoreKinds(f, u);
    ArrayStoreHolds(u, vs);
    StringAndSlice(Closure(f), list, keys, ArrayStore(), "TEST_CONFIG", u, "config", "users", vs);
  }

  // ---------------------------------------------------------------------------
  // "map": FilterPrefix("TEST_", "addr")

  function MapStore(): map<string, string> {
    map["TEST_CONFIG" := "path", "TEST_USERS_0" := "user00", "TEST_USERS_1" := "user01",
        "TEST_ADDR_DEFAULT" := "localhost", "TEST_ADDR_FALLBACK" := "127.0.0.1"]
  }

  lemma MapStoreHolds(u: seq<string>, vs: seq<string>)
    requires u == ["TEST_USERS_0", "TEST_USERS_1"] && vs == ["user00", "user01"]
    ensures PlainNames(MapStore())
    ensures forall k :: k in MapStore() <==>
      k == "TEST_CONFIG" || k in u || k == "TEST_ADDR_DEFAULT" || k == "TEST_ADDR_FALLBACK"
    ensures MapStore()["TEST_CONFIG"] == "path"
    ensures forall i :: 0 <= i < |u| ==> MapStore()[u[i]] == vs[i]
    ensures MapStore()["TEST_ADDR_DEFAULT"] == "localhost" && MapStore()["TEST_ADDR_FALLBACK"] == "127.0.0.1"
    ensures "config" != "users" && "config" != "addr" && "users" != "addr" && "default" != "fallback"
  {
  }

  lemma MapStoreKinds(f: Filter, u: seq<string>)
    requires f.prefix == "TEST_" && f.lowerMap == ["addr"]
    requires u == ["TEST_USERS_0", "TEST_USERS_1"]
    ensures Classify(f, "TEST_CONFIG") == (VarName("config", "", 0), VarTypeString)
    ensures forall i :: 0 <= i < |u| ==> Classify(f, u[i]) == (VarName("users", "", i), VarTypeArray)
    ensures Classify(f, "TEST_ADDR_DEFAULT") == (VarName("addr", "default", 0), VarTypeMap)
    ensures Classify(f, "TEST_ADDR_FALLBACK") == (VarName("addr", "fallback", 0), VarTypeMap)
  {
    ConfigKind(f);
    UsersKinds(f, u);
    AddrKinds(f);
  }

  /**
   * "map": with "addr" recognised, TEST_ADDR_DEFAULT and TEST_ADDR_FALLBACK
   * become the map "addr"; the other variables are read as in "array".
   */
  lemma MapCase(f: Filter, list: seq<string>, keys: seq<string>)
    requires f.prefix == "TEST_" && f.lowerMap == ["addr"]
    requires IsListing(list, keys, MapStore())
    ensures Fill(Closure(f), list) ==
      map["config" := Str("path"), "users" := Arr(["user00", "user01"]),
          "addr" := Dict(map["default" := "localhost", "fallback" := "127.0.0.1"])]
  {
    var u := ["TEST_USERS_0", "TEST_USERS_1"];
    var vs := ["user00", "user01"];
    MapStoreKinds(f, u);
    MapStoreHolds(u, vs);
    StringSliceAndPair(Closure(f), list, keys, MapStore(), "TEST_CONFIG", u, "TEST_ADDR_DEFAULT", "TEST_ADDR_FALLBACK",
      "config", "users", "addr", "default", "fallback", vs);
  }
  // ---------------------------------------------------------------------------
  // A string and a slice under one name: the slice wins and the string is lost.

  lemma ConflictText()
    ensures "P_X=a" == "P_X" + ['='] + "a" && "P_X_2=b" == "P_X_2" + ['='] + "b"
    ensures "P_" + "X" == "P_X" && "P_" + ("X" + "_" + Decimal(2)) == "P_X_2" && ToLower("X") == "x"
  {
  }

  /** How FilterPrefix("P_") reads the two entries. */
  lemma ConflictKinds(f: Filter)
    requires f.prefix == "P_" && forall m :: m !in f.lowerMap
    ensures Kind(Closure(f), "P_X=a") == (VarName("x", "", 0), VarTypeString) && ValueOf("P_X=a") == "a"
    ensures Kind(Closure(f), "P_X_2=b") == (VarName("x", "", 2), VarTypeArray) && ValueOf("P_X_2=b") == "b"
  {
    ConflictText();
    KeyOfJoin("P_X", "a");
    KeyOfJoin("P_X_2", "b");
    ClassifyStringRoundTrip(f, "X");
    ClassifyArrayRoundTrip(f, "X", 2);
  }

  /**
   * P_X=a then P_X_2=b: the array element finds the string "a" under "x" and
   * starts a fresh slice from ["[]"], so "x" ends up ["[]", "", "b"].
   */
  lemma ConflictCase(f: Filter)
    requires f.prefix == "P_" && forall m :: m !in f.lowerMap
    ensures Fill(Closure(f), ["P_X=a", "P_X_2=b"]) == map["x" := Arr(["[]", "", "b"])]
  {
    ConflictKinds(f);
    ConflictFill(Closure(f), "P_X=a", "P_X_2=b");
  }

  lemma ConflictFill(g: FilterFn, e1: string, e2: string)
    requires Kind(g, e1) == (VarName("x", "", 0), VarTypeString) && ValueOf(e1) == "a"
    requires Kind(g, e2) == (VarName("x", "", 2), VarTypeArray) && ValueOf(e2) == "b"
    ensures Fill(g, [e1, e2]) == map["x" := Arr(["[]", "", "b"])]
  {
    var environ := [e1, e2];
    assert environ[..1][..0] == [] && environ[..1] == [e1];
    var first := Fill(g, environ[..1]);
    assert Fill(g, []) == map[];
    assert first == Step(g, Fill(g, []), e1);
    assert first == map["x" := Str("a")];
    assert ArrayBase(first, "x") == ["[]"];
    var items := SetIndex(["[]"], 2, "b");
    assert items == ["[]", "", "b"] by {
      assert |items| == 3 && items[0] == "[]" && items[1] == "" && items[2] == "b";
    }
    assert Fill(g, environ) == Step(g, first, e2) == first["x" := Arr(items)];
  }

  // ---------------------------------------------------------------------------
  // The test table run end to end: build the store, build the filter, fill.

  /** "only strings", from NewMapEnv and FilterPrefix("TEST01_") to FillMap's result. */
  method OnlyStringsTable() returns (values: map<string, Val>)
    ensures values == map["foo" := Str("var 01"), "bar" := Str("var 02"), "baz" := Str("var 03")]
  {
    var e := new MapEnv.NewMapEnv(StringStore());
    var f := FilterPrefix("TEST01_", []);
    ghost var list, keys;
    values, list, keys := FillMap(e, Closure(f));
    StringsCase(f, list, keys);
  }

  /** "array", from NewMapEnv and FilterPrefix("TEST_") to FillMap's result. */
  method ArrayTable() returns (values: map<string, Val>)
    ensures values == map["config" := Str("path"), "users" := Arr(["user00", "user01", "user02", "user03"])]
  {
    var e := new MapEnv.NewMapEnv(ArrayStore());
    var f := FilterPrefix("TEST_", []);
    ghost var list, keys;
    values, list, keys := FillMap(e, Closure(f));
    ArrayCase(f, list, keys);
  }

  /** "map", from NewMapEnv and FilterPrefix("TEST_", "addr") to FillMap's result. */
  method MapTable() returns (values: map<string, Val>)
    ensures values ==
      map["config" := Str("path"), "users" := Arr(["user00", "user01"]),
          "addr" := Dict(map["default" := "localhost", "fallback" := "127.0.0.1"])]
  {
    var e := new MapEnv.NewMapEnv(MapStore());
    var f := FilterPrefix("TEST_", ["addr"]);
    AddrRecognised(f);
    ghost var list, keys;
    values, list, keys := FillMap(e, Closure(f));
    MapCase(f, list, keys);
  }
}
