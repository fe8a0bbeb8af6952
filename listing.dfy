/**
 * FillMap over the listing of a MapEnv store. Environ lists the entries in an
 * order the store does not fix, so what is proved here holds for every
 * listing of the store: the collected values do not depend on that order as
 * long as no two variables write the same slot or key of one field.
 */
module Listing {
  import opened Text
  import opened Classifier
  import opened Filler
  import opened Store

  /**
   * No stored variable name contains '='. Setenv accepts such a name, but its
   * listed entry is then cut inside the name (see EqualsInNameCutsEarly), so
   * the lemmas below are stated for stores without one.
   */
  predicate PlainNames(env: map<string, string>) {
    forall k :: k in env ==> '=' !in k
  }

  /** The entry listed for name `A=B` and value `c` is read as name `A` with value `B=c`. */
  lemma EqualsInNameCutsEarly()
    ensures KeyOf(Join("A=B", "c")) == "A" && ValueOf(Join("A=B", "c")) == "B=c"
  {
    assert Join("A=B", "c") == "A" + ['='] + "B=c";
    KeyOfJoin("A", "B=c");
  }

  /** Each listed entry splits back into its stored name and value. */
  lemma ListingEntries(f: FilterFn, list: seq<string>, keys: seq<string>, env: map<string, string>)
    requires IsListing(list, keys, env) && PlainNames(env)
    ensures forall j :: 0 <= j < |list| ==>
      KeyOf(list[j]) == keys[j] && ValueOf(list[j]) == env[keys[j]] && Kind(f, list[j]) == f(keys[j])
  {
    forall j | 0 <= j < |list|
      ensures KeyOf(list[j]) == keys[j] && ValueOf(list[j]) == env[keys[j]]
    {
      assert Join(keys[j], env[keys[j]]) == keys[j] + ['='] + env[keys[j]];
      KeyOfJoin(keys[j], env[keys[j]]);
    }
  }

  /** The stored variable is recognised and writes field `n`. */
  predicate Names(f: FilterFn, k: string, n: string) {
    f(k).1 != VarTypeUnknown && f(k).0.name == n
  }

  /** The fields FillMap collects from a store are the fields its variables name. */
  lemma StoreFields(f: FilterFn, list: seq<string>, keys: seq<string>, env: map<string, string>)
    requires IsListing(list, keys, env) && PlainNames(env)
    ensures forall n :: n in Fill(f, list) <==> exists k :: k in env && Names(f, k, n)
  {
    ListingEntries(f, list, keys, env);
    FillKeys(f, list);
    forall n ensures n in Fill(f, list) <==> exists k :: k in env && Names(f, k, n) {
      if exists k :: k in env && Names(f, k, n) {
        var k :| k in env && Names(f, k, n);
        var j :| 0 <= j < |keys| && keys[j] == k;
        assert Touches(f, list[j], n);
      }
    }
  }

  /**
   * A variable classified as a string, and the only variable naming its
   * field, leaves its value under that field.
   */
  lemma StoreString(f: FilterFn, list: seq<string>, keys: seq<string>, env: map<string, string>, k: string)
    requires IsListing(list, keys, env) && PlainNames(env)
    requires k in env && f(k).1 == VarTypeString
    requires forall k' :: k' in env && k' != k ==> !Names(f, k', f(k).0.name)
    ensures f(k).0.name in Fill(f, list) && Fill(f, list)[f(k).0.name] == Str(env[k])
  {
    ListingEntries(f, list, keys, env);
    var j :| 0 <= j < |keys| && keys[j] == k;
    forall l | j < l < |list| ensures !Touches(f, list[l], f(k).0.name) {
      assert keys[l] != k && keys[l] in env;
    }
    FillLastStringWins(f, list, j);
  }

  /** The stored variable is an array element of field `n`. */
  predicate ElementOf(f: FilterFn, k: string, n: string) {
    f(k).1 == VarTypeArray && f(k).0.name == n
  }

  /**
   * A field named only by array elements, no two of them at the same index,
   * holds a slice one longer than the largest index, each element's value at
   * its index and "" at every index no element names.
   */
  lemma StoreArray(f: FilterFn, list: seq<string>, keys: seq<string>, env: map<string, string>, n: string)
    requires IsListing(list, keys, env) && PlainNames(env)
    requires forall k :: k in env && Names(f, k, n) ==> f(k).1 == VarTypeArray
    requires exists k :: k in env && Names(f, k, n)
    requires forall k, k' :: k in env && k' in env && ElementOf(f, k, n) && ElementOf(f, k', n) && k != k' ==>
      f(k).0.index != f(k').0.index
    ensures n in Fill(f, list) && Fill(f, list)[n].Arr?
    ensures forall k :: k in env && ElementOf(f, k, n) ==>
      f(k).0.index < |Fill(f, list)[n].items| && Fill(f, list)[n].items[f(k).0.index] == env[k]
    ensures exists k :: k in env && ElementOf(f, k, n) && f(k).0.index == |Fill(f, list)[n].items| - 1
    ensures forall i :: 0 <= i < |Fill(f, list)[n].items| && (forall k :: k in env && ElementOf(f, k, n) ==> f(k).0.index != i) ==>
      Fill(f, list)[n].items[i] == ""
  {
    ArrayValues(f, list, keys, env, n);
    ArrayTop(f, list, keys, env, n);
    ArrayGaps(f, list, keys, env, n);
  }

  lemma StoreOnlyArray(f: FilterFn, list: seq<string>, keys: seq<string>, env: map<string, string>, n: string)
    requires IsListing(list, keys, env) && PlainNames(env)
    requires forall k :: k in env && Names(f, k, n) ==> f(k).1 == VarTypeArray
    requires exists k :: k in env && Names(f, k, n)
    ensures OnlyArrayWrites(f, list, n)
  {
    ListingEntries(f, list, keys, env);
    var k0 :| k0 in env && Names(f, k0, n);
    var j0 :| 0 <= j0 < |keys| && keys[j0] == k0;
    assert Touches(f, list[j0], n);
  }

  lemma ArrayValues(f: FilterFn, list: seq<string>, keys: seq<string>, env: map<string, string>, n: string)
    requires IsListing(list, keys, env) && PlainNames(env)
    requires forall k, k' :: k in env && k' in env && ElementOf(f, k, n) && ElementOf(f, k', n) && k != k' ==>
      f(k).0.index != f(k').0.index
    requires forall k :: k in env && Names(f, k, n) ==> f(k).1 == VarTypeArray
    requires exists k :: k in env && Names(f, k, n)
    ensures n in Fill(f, list) && Fill(f, list)[n].Arr?
    ensures forall k :: k in env && ElementOf(f, k, n) ==>
      f(k).0.index < |Fill(f, list)[n].items| && Fill(f, list)[n].items[f(k).0.index] == env[k]
  {
    StoreOnlyArray(f, list, keys, env, n);
    FillArrayField(f, list, n);
    ListingEntries(f, list, keys, env);
    var items := Fill(f, list)[n].items;
    forall k | k in env && ElementOf(f, k, n)
      ensures f(k).0.index < |items| && items[f(k).0.index] == env[k]
    {
      var j := LastWriteOf(f, list, keys, env, n, k);
    }
  }

  /** The listing entry of an element is the last write to its slot when no two elements share a slot. */
  lemma LastWriteOf(f: FilterFn, list: seq<string>, keys: seq<string>, env: map<string, string>, n: string, k: string)
      returns (j: nat)
    requires IsListing(list, keys, env) && PlainNames(env)
    requires forall k, k' :: k in env && k' in env && ElementOf(f, k, n) && ElementOf(f, k', n) && k != k' ==>
      f(k).0.index != f(k').0.index
    requires k in env && ElementOf(f, k, n)
    ensures j < |list| && keys[j] == k && LastSlotWrite(f, list, j, n, f(k).0.index)
  {
    ListingEntries(f, list, keys, env);
    j :| 0 <= j < |keys| && keys[j] == k;
    forall l | j < l < |list| ensures !WritesSlot(f, list[l], n, f(k).0.index) {
      assert keys[l] != k && keys[l] in env;
    }
  }

  lemma ArrayTop(f: FilterFn, list: seq<string>, keys: seq<string>, env: map<string, string>, n: string)
    requires IsListing(list, keys, env) && PlainNames(env)
    requires forall k :: k in env && Names(f, k, n) ==> f(k).1 == VarTypeArray
    requires exists k :: k in env && Names(f, k, n)
    ensures n in Fill(f, list) && Fill(f, list)[n].Arr?
    ensures exists k :: k in env && ElementOf(f, k, n) && f(k).0.index == |Fill(f, list)[n].items| - 1
  {
    StoreOnlyArray(f, list, keys, env, n);
    TopEntry(f, list, n);
    var items := Fill(f, list)[n].items;
    var w :| 0 <= w < |list| && Touches(f, list[w], n) && Kind(f, list[w]).0.index == |items| - 1;
    TopWitness(f, list, keys, env, n, w, items);
  }

  /** One listed entry splits back into its stored name and value. */
  lemma ListingEntry(f: FilterFn, list: seq<string>, keys: seq<string>, env: map<string, string>, j: int)
    requires IsListing(list, keys, env) && PlainNames(env) && 0 <= j < |list|
    ensures keys[j] in env && KeyOf(list[j]) == keys[j] && ValueOf(list[j]) == env[keys[j]]
    ensures Kind(f, list[j]) == f(keys[j])
  {
    assert Join(keys[j], env[keys[j]]) == keys[j] + ['='] + env[keys[j]];
    KeyOfJoin(keys[j], env[keys[j]]);
  }

  /** Some entry of the listing writes the last slot of the slice. */
  lemma TopEntry(f: FilterFn, list: seq<string>, n: string)
    requires OnlyArrayWrites(f, list, n)
    ensures n in Fill(f, list) && Fill(f, list)[n].Arr?
    ensures exists j :: 0 <= j < |list| && Touches(f, list[j], n) && Kind(f, list[j]).0.index == |Fill(f, list)[n].items| - 1
  {
    FillArrayField(f, list, n);
  }

  /** The variable listed at `w` is the element that writes the last slot. */
  lemma TopWitness(f: FilterFn, list: seq<string>, keys: seq<string>, env: map<string, string>, n: string, w: int, items: seq<string>)
    requires IsListing(list, keys, env) && PlainNames(env) && 0 <= w < |list|
    requires Touches(f, list[w], n) && Kind(f, list[w]).1 == VarTypeArray && Kind(f, list[w]).0.index == |items| - 1
    ensures exists k :: k in env && ElementOf(f, k, n) && f(k).0.index == |items| - 1
  {
    ListingEntry(f, list, keys, env, w);
    assert keys[w] in env && ElementOf(f, keys[w], n);
  }

  lemma ArrayGaps(f: FilterFn, list: seq<string>, keys: seq<string>, env: map<string, string>, n: string)
    requires IsListing(list, keys, env) && PlainNames(env)
    requires forall k :: k in env && Names(f, k, n) ==> f(k).1 == VarTypeArray
    requires exists k :: k in env && Names(f, k, n)
    ensures n in Fill(f, list) && Fill(f, list)[n].Arr?
    ensures forall i :: 0 <= i < |Fill(f, list)[n].items| && (forall k :: k in env && ElementOf(f, k, n) ==> f(k).0.index != i) ==>
      Fill(f, list)[n].items[i] == ""
  {
    StoreOnlyArray(f, list, keys, env, n);
    FillArrayField(f, list, n);
    ListingEntries(f, list, keys, env);
    var items := Fill(f, list)[n].items;
    forall i | 0 <= i < |items| && (forall k :: k in env && ElementOf(f, k, n) ==> f(k).0.index != i)
      ensures items[i] == ""
    {
      if SlotWritten(f, list, n, i) {
        var j :| 0 <= j < |list| && WritesSlot(f, list[j], n, i);
        assert keys[j] in env && ElementOf(f, keys[j], n);
      }
    }
  }

  /**
   * A slice with exactly one element at every index below `|ks|` and none
   * beyond comes back in index order, whatever order Environ lists them in:
   * `ks[i]` is the variable for index `i`.
   */
  lemma StoreDenseArray(f: FilterFn, list: seq<string>, keys: seq<string>, env: map<string, string>, n: string, ks: seq<string>)
    requires IsListing(list, keys, env) && PlainNames(env)
    requires ks != []
    requires forall k :: k in env && Names(f, k, n) ==> ElementOf(f, k, n) && f(k).0.index < |ks| && k == ks[f(k).0.index]
    requires forall i :: 0 <= i < |ks| ==> ks[i] in env && ElementOf(f, ks[i], n) && f(ks[i]).0.index == i
    ensures n in Fill(f, list) && Fill(f, list)[n].Arr?
    ensures |Fill(f, list)[n].items| == |ks|
    ensures forall i :: 0 <= i < |ks| ==> Fill(f, list)[n].items[i] == env[ks[i]]
  {
    assert Names(f, ks[0], n);
    StoreArray(f, list, keys, env, n);
    var items := Fill(f, list)[n].items;
    var top := ks[|ks| - 1];
    assert f(top).0.index < |items|;
  }

  /** The stored variable is a map entry of field `n`. */
  predicate EntryOf(f: FilterFn, k: string, n: string) {
    f(k).1 == VarTypeMap && f(k).0.name == n
  }

  /**
   * A field named only by map entries, no two of them under the same key,
   * holds a map from exactly those keys to the entries' values.
   */
  lemma StoreMap(f: FilterFn, list: seq<string>, keys: seq<string>, env: map<string, string>, n: string)
    requires IsListing(list, keys, env) && PlainNames(env)
    requires forall k :: k in env && Names(f, k, n) ==> f(k).1 == VarTypeMap
    requires exists k :: k in env && Names(f, k, n)
    requires forall k, k' :: k in env && k' in env && EntryOf(f, k, n) && EntryOf(f, k', n) && k != k' ==>
      f(k).0.key != f(k').0.key
    ensures n in Fill(f, list) && Fill(f, list)[n].Dict?
    ensures forall key :: key in Fill(f, list)[n].entries <==> exists k :: k in env && EntryOf(f, k, n) && f(k).0.key == key
    ensures forall k :: k in env && EntryOf(f, k, n) ==>
      f(k).0.key in Fill(f, list)[n].entries && Fill(f, list)[n].entries[f(k).0.key] == env[k]
  {
    StoreOnlyMap(f, list, keys, env, n);
    FillMapField(f, list, n);
    MapKeys(f, list, keys, env, n);
    MapValues(f, list, keys, env, n);
  }

  lemma StoreOnlyMap(f: FilterFn, list: seq<string>, keys: seq<string>, env: map<string, string>, n: string)
    requires IsListing(list, keys, env) && PlainNames(env)
    requires forall k :: k in env && Names(f, k, n) ==> f(k).1 == VarTypeMap
    requires exists k :: k in env && Names(f, k, n)
    ensures OnlyMapWrites(f, list, n)
  {
    ListingEntries(f, list, keys, env);
    var k0 :| k0 in env && Names(f, k0, n);
    var j0 :| 0 <= j0 < |keys| && keys[j0] == k0;
    assert Touches(f, list[j0], n);
  }

  lemma MapKeys(f: FilterFn, list: seq<string>, keys: seq<string>, env: map<string, string>, n: string)
    requires IsListing(list, keys, env) && PlainNames(env)
    requires MapFieldFacts(f, list, n)
    ensures forall key :: key in Fill(f, list)[n].entries <==> exists k :: k in env && EntryOf(f, k, n) && f(k).0.key == key
  {
    ListingEntries(f, list, keys, env);
    var entries := Fill(f, list)[n].entries;
    forall key | key in entries ensures exists k :: k in env && EntryOf(f, k, n) && f(k).0.key == key {
      var j :| 0 <= j < |list| && WritesKey(f, list[j], n, key);
      assert keys[j] in env && EntryOf(f, keys[j], n);
    }
    forall k | k in env && EntryOf(f, k, n) ensures f(k).0.key in entries {
      var j :| 0 <= j < |keys| && keys[j] == k;
      assert WritesKey(f, list[j], n, f(k).0.key);
    }
  }

  lemma MapValues(f: FilterFn, list: seq<string>, keys: seq<string>, env: map<string, string>, n: string)
    requires IsListing(list, keys, env) && PlainNames(env)
    requires forall k, k' :: k in env && k' in env && EntryOf(f, k, n) && EntryOf(f, k', n) && k != k' ==>
      f(k).0.key != f(k').0.key
    requires MapFieldFacts(f, list, n)
    ensures forall k :: k in env && EntryOf(f, k, n) ==>
      f(k).0.key in Fill(f, list)[n].entries && Fill(f, list)[n].entries[f(k).0.key] == env[k]
  {
    ListingEntries(f, list, keys, env);
    var entries := Fill(f, list)[n].entries;
    forall k | k in env && EntryOf(f, k, n)
      ensures f(k).0.key in entries && entries[f(k).0.key] == env[k]
    {
      var j :| 0 <= j < |keys| && keys[j] == k;
      forall l | j < l < |list| ensures !WritesKey(f, list[l], n, f(k).0.key) {
        assert keys[l] != k && keys[l] in env;
      }
      assert LastKeyWrite(f, list, j, n, f(k).0.key);
    }
  }
}
