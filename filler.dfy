/**
 * FillMap: the fold over an environment listing that collects every variable
 * the classifier recognises into one mapping from field name to a string, a
 * slice of strings or a map of strings.
 */
module Filler {
  import opened Text
  import opened Classifier
  import opened Store

  /** A collected value: the three shapes FillMap stores under a field name. */
  datatype Val = Str(s: string) | Arr(items: seq<string>) | Dict(entries: map<string, string>)

  function Max(a: int, b: int): int {
    if a < b then b else a
  }

  /** The variable name of a `name=value` entry: the text before the first `=`. */
  function KeyOf(e: string): string {
    if e == [] || e[0] == '=' then [] else [e[0]] + KeyOf(e[1..])
  }

  /** The value of a `name=value` entry: the text after the first `=`, or "" without one. */
  function ValueOf(e: string): string {
    if e == [] then [] else if e[0] == '=' then e[1..] else ValueOf(e[1..])
  }

  /** An entry `k=v` whose name has no `=` splits back into `k` and `v`. */
  lemma {:induction false} KeyOfJoin(k: string, v: string)
    requires '=' !in k
    ensures KeyOf(k + ['='] + v) == k && ValueOf(k + ['='] + v) == v
  {
    var e := k + ['='] + v;
    if k != [] {
      assert e[0] == k[0] && e[1..] == k[1..] + ['='] + v;
      KeyOfJoin(k[1..], v);
    } else {
      assert e == ['='] + v;
    }
  }

  /** An entry without `=` is all name and has the empty value. */
  lemma {:induction false} KeyOfPlain(e: string)
    requires '=' !in e
    ensures KeyOf(e) == e && ValueOf(e) == ""
  {
    if e != [] {
      assert e[0] != '=' && '=' !in e[1..];
      KeyOfPlain(e[1..]);
    }
  }

  /** FillMap splits each entry with strings.Cut at the first `=`, ignoring whether one was found. */
  lemma KeyValueCut(e: string)
    ensures KeyOf(e) == Cut(e, '=').0 && ValueOf(e) == Cut(e, '=').1
  {
    var (k, v, found) := Cut(e, '=');
    if found {
      KeyOfJoin(k, v);
    } else {
      KeyOfPlain(e);
    }
  }

  /**
   * A filter: what FillMap is given to classify names with, such as the
   * closure FilterPrefix builds (see Closure).
   */
  type FilterFn = string -> (VarName, VarType)

  /** The closure returned by FilterPrefix for the configuration `f`. */
  function Closure(f: Filter): FilterFn {
    s => Classify(f, s)
  }

  /** How the filter sees an entry. */
  function Kind(f: FilterFn, e: string): (VarName, VarType) {
    f(KeyOf(e))
  }

  /** The entry is recognised and writes field `n`. */
  predicate Touches(f: FilterFn, e: string, n: string) {
    Kind(f, e).1 != VarTypeUnknown && Kind(f, e).0.name == n
  }

  /**
   * The slice an array element is written into: the field's slice if it holds
   * one, an empty slice if the field is absent, and otherwise the one-element
   * slice ["[]"] (fmt.Sprint of the nil slice the failed type assertion leaves).
   */
  function ArrayBase(values: map<string, Val>, name: string): seq<string> {
    if name !in values then []
    else match values[name]
      case Arr(items) => items
      case _ => ["[]"]
  }

  /** The map a map entry is written into: the field's map, or an empty one. */
  function MapBase(values: map<string, Val>, name: string): map<string, string> {
    if name in values && values[name].Dict? then values[name].entries else map[]
  }

  /** The slice grown to `index + 1` slots with "" when too short, then written at `index`. */
  function SetIndex(z: seq<string>, index: nat, value: string): (r: seq<string>)
    ensures |r| == Max(|z|, index + 1)
    ensures r[index] == value
    ensures forall j :: 0 <= j < |r| && j != index ==> r[j] == if j < |z| then z[j] else ""
  {
    var w := if |z| - 1 < index then z + seq(index + 1 - |z|, _ => "") else z;
    w[index := value]
  }

  /** One iteration of FillMap's loop. */
  function Step(f: FilterFn, values: map<string, Val>, e: string): (r: map<string, Val>)
    ensures Kind(f, e).1 == VarTypeUnknown ==> r == values
    ensures Kind(f, e).1 != VarTypeUnknown ==>
      && r.Keys == values.Keys + {Kind(f, e).0.name}
      && forall k :: k in values && k != Kind(f, e).0.name ==> r[k] == values[k]
    ensures Kind(f, e).1 == VarTypeString ==> r[Kind(f, e).0.name] == Str(ValueOf(e))
    ensures Kind(f, e).1 == VarTypeArray ==> r[Kind(f, e).0.name].Arr?
    ensures Kind(f, e).1 == VarTypeMap ==> r[Kind(f, e).0.name].Dict?
  {
    var (vn, t) := Kind(f, e);
    var value := ValueOf(e);
    match t
    case VarTypeUnknown => values
    case VarTypeString => values[vn.name := Str(value)]
    case VarTypeArray => values[vn.name := Arr(SetIndex(ArrayBase(values, vn.name), vn.index, value))]
    case VarTypeMap => values[vn.name := Dict(MapBase(values, vn.name)[vn.key := value])]
  }

  /** FillMap's result on the listing `environ`, processed front to back. */
  function Fill(f: FilterFn, environ: seq<string>): map<string, Val> {
    if environ == [] then map[]
    else Step(f, Fill(f, environ[..|environ| - 1]), environ[|environ| - 1])
  }

  /** `make([]string, size)` followed by `copy`: the slice padded with "" to `size` slots. */
  method Grow(z: seq<string>, size: nat) returns (w: seq<string>)
    requires |z| <= size
    ensures |w| == size
    ensures w[..|z|] == z
    ensures forall j :: |z| <= j < size ==> w[j] == ""
  {
    var a := new string[size](_ => "");
    for j := 0 to |z|
      invariant forall k :: 0 <= k < j ==> a[k] == z[k]
      invariant forall k :: j <= k < size ==> a[k] == ""
    {
      a[j] := z[j];
    }
    w := a[..];
  }

  /**
   * FillMap: collects the store's variables through the filter. The listing
   * Environ returned, in its order, and the key order it reflects are
   * returned alongside as ghost values.
   */
  method FillMap(e: MapEnv, f: FilterFn) returns (values: map<string, Val>, ghost list: seq<string>, ghost keys: seq<string>)
    ensures IsListing(list, keys, e.env)
    ensures values == Fill(f, list)
  {
    var environ;
    environ, keys := e.Environ();
    list := environ;
    values := FillListing(environ, f);
  }

  /** FillMap's loop over the listing, one entry at a time. */
  method FillListing(environ: seq<string>, f: FilterFn) returns (values: map<string, Val>)
    ensures values == Fill(f, environ)
  {
    values := map[];
    for i := 0 to |environ|
      invariant values == Fill(f, environ[..i])
    {
      assert environ[..i + 1][..i] == environ[..i];
      values := FillEntry(values, environ[i], f);
    }
    assert environ[..|environ|] == environ;
  }

  /** The body of FillMap's loop: cut one `name=value` entry, classify it and store it. */
  method FillEntry(values: map<string, Val>, e: string, f: FilterFn) returns (r: map<string, Val>)
    ensures r == Step(f, values, e)
  {
    var (key, value, _) := Cut(e, '=');
    KeyValueCut(e);
    var (vn, t) := f(key);
    match t {
      case VarTypeUnknown =>
        r := values;
      case VarTypeString =>
        r := values[vn.name := Str(value)];
      case VarTypeArray =>
        var z := PutElement(values, vn.name, vn.index, value);
        r := values[vn.name := Arr(z)];
      case VarTypeMap =>
        var z: map<string, string>;
        if vn.name in values && values[vn.name].Dict? {
          z := values[vn.name].entries;
        } else {
          z := map[];
        }
        r := values[vn.name := Dict(z[vn.key := value])];
    }
  }

  /** The array case of FillMap's loop: fetch or coerce the slice, grow it if needed, write one slot. */
  method PutElement(values: map<string, Val>, name: string, index: nat, value: string) returns (z: seq<string>)
    ensures z == SetIndex(ArrayBase(values, name), index, value)
  {
    if name in values {
      match values[name] {
        case Arr(items) => z := items;
        case _ => z := ["[]"];
      }
    } else {
      z := [];
    }
    if |z| - 1 < index {
      ghost var base := z;
      z := Grow(z, index + 1);
      assert z == base + seq(index + 1 - |base|, _ => "");
    }
    z := z[index := value];
  }

  /** A field is in the result exactly when some entry of the listing is recognised and names it. */
  lemma {:induction false} FillKeys(f: FilterFn, environ: seq<string>)
    ensures forall n :: n in Fill(f, environ) <==> exists j :: 0 <= j < |environ| && Touches(f, environ[j], n)
  {
    if environ != [] {
      var prev := environ[..|environ| - 1];
      FillKeys(f, prev);
      StepKeys(f, environ);
      forall n | n in Fill(f, environ) ensures exists j :: 0 <= j < |environ| && Touches(f, environ[j], n) {
        if n in Fill(f, prev) {
          var j :| 0 <= j < |prev| && Touches(f, prev[j], n);
          assert environ[j] == prev[j];
        } else {
          assert Touches(f, environ[|environ| - 1], n);
        }
      }
      forall n, j | 0 <= j < |environ| && Touches(f, environ[j], n) ensures n in Fill(f, environ) {
        if j < |prev| {
          assert prev[j] == environ[j];
        }
      }
    }
  }

  /** The last entry adds its field, when recognised, to the fields collected before it. */
  lemma StepKeys(f: FilterFn, environ: seq<string>)
    requires environ != []
    ensures forall n :: n in Fill(f, environ) <==> n in Fill(f, environ[..|environ| - 1]) || Touches(f, environ[|environ| - 1], n)
  {
  }

  /** An entry the classifier does not recognise changes nothing, wherever it stands in the listing. */
  lemma {:induction false} FillSkipsUnrecognised(f: FilterFn, before: seq<string>, e: string, after: seq<string>)
    requires Kind(f, e).1 == VarTypeUnknown
    ensures Fill(f, before + [e] + after) == Fill(f, before + after)
  {
    var with, without := before + [e] + after, before + after;
    if after == [] {
      assert with[..|with| - 1] == before && with[|with| - 1] == e;
      assert without == before;
    } else {
      var shorter := after[..|after| - 1];
      FillSkipsUnrecognised(f, before, e, shorter);
      assert with[..|with| - 1] == before + [e] + shorter;
      assert without[..|without| - 1] == before + shorter;
      assert with[|with| - 1] == without[|without| - 1];
    }
  }

  /**
   * Last write wins for strings: when the last entry that names a field is a
   * string entry, the field holds that entry's value, whatever shape the
   * earlier entries gave it.
   */
  lemma {:induction false} FillLastStringWins(f: FilterFn, environ: seq<string>, j: nat)
    requires j < |environ| && Kind(f, environ[j]).1 == VarTypeString
    requires forall k :: j < k < |environ| ==> !Touches(f, environ[k], Kind(f, environ[j]).0.name)
    ensures Kind(f, environ[j]).0.name in Fill(f, environ)
    ensures Fill(f, environ)[Kind(f, environ[j]).0.name] == Str(ValueOf(environ[j]))
  {
    var prev := environ[..|environ| - 1];
    if j < |prev| {
      assert prev[j] == environ[j];
      FillLastStringWins(f, prev, j);
      assert !Touches(f, environ[|environ| - 1], Kind(f, environ[j]).0.name);
    }
  }

  /**
   * An array element written over a field that holds a string or a map
   * replaces it by a fresh slice whose first slot holds "[]" (the printed
   * form of the nil slice), not the old value: the old value is lost.
   */
  lemma FillArrayOverOther(f: FilterFn, environ: seq<string>)
    requires environ != [] && Kind(f, environ[|environ| - 1]).1 == VarTypeArray
    requires var n := Kind(f, environ[|environ| - 1]).0.name; var prev := Fill(f, environ[..|environ| - 1]);
      n in prev && !prev[n].Arr?
    ensures var e := environ[|environ| - 1]; var (vn, _) := Kind(f, e);
      && vn.name in Fill(f, environ) && Fill(f, environ)[vn.name].Arr?
      && var items := Fill(f, environ)[vn.name].items;
      && |items| == vn.index + 1
      && items[vn.index] == ValueOf(e)
      && (vn.index > 0 ==> items[0] == "[]")
      && forall j :: 0 < j < vn.index ==> items[j] == ""
  {
  }

  /**
   * A map entry written over a field that holds a string or a slice replaces
   * it by a map holding only the new key.
   */
  lemma FillMapOverOther(f: FilterFn, environ: seq<string>)
    requires environ != [] && Kind(f, environ[|environ| - 1]).1 == VarTypeMap
    requires var n := Kind(f, environ[|environ| - 1]).0.name; var prev := Fill(f, environ[..|environ| - 1]);
      n in prev && !prev[n].Dict?
    ensures var e := environ[|environ| - 1]; var (vn, _) := Kind(f, e);
      vn.name in Fill(f, environ) && Fill(f, environ)[vn.name] == Dict(map[vn.key := ValueOf(e)])
  {
  }

  /** The entry is an array element of field `n` at slot `i`. */
  predicate WritesSlot(f: FilterFn, e: string, n: string, i: nat) {
    Kind(f, e).1 == VarTypeArray && Kind(f, e).0.name == n && Kind(f, e).0.index == i
  }

  /** Entry `j` writes slot `i` of field `n` and no later entry writes that slot. */
  predicate LastSlotWrite(f: FilterFn, environ: seq<string>, j: nat, n: string, i: nat)
    requires j < |environ|
  {
    WritesSlot(f, environ[j], n, i) && forall k :: j < k < |environ| ==> !WritesSlot(f, environ[k], n, i)
  }

  /** Some entry writes slot `i` of field `n`. */
  predicate SlotWritten(f: FilterFn, environ: seq<string>, n: string, i: nat) {
    exists j :: 0 <= j < |environ| && WritesSlot(f, environ[j], n, i)
  }

  /** Every entry that names `n` is an array element, and at least one does. */
  predicate OnlyArrayWrites(f: FilterFn, environ: seq<string>, n: string) {
    && (forall j :: 0 <= j < |environ| && Touches(f, environ[j], n) ==> Kind(f, environ[j]).1 == VarTypeArray)
    && (exists j :: 0 <= j < |environ| && Touches(f, environ[j], n))
  }

  /** The field holds a slice. */
  ghost predicate HoldsSlice(f: FilterFn, environ: seq<string>, n: string) {
    n in Fill(f, environ) && Fill(f, environ)[n].Arr?
  }

  /** Every index written to the field lies inside the slice. */
  ghost predicate SlotsInRange(f: FilterFn, environ: seq<string>, n: string)
    requires HoldsSlice(f, environ, n)
  {
    forall j :: 0 <= j < |environ| && Touches(f, environ[j], n) ==>
      Kind(f, environ[j]).0.index < |Fill(f, environ)[n].items|
  }

  /** Some entry wrote the field's last slot, so the slice is no longer than needed. */
  ghost predicate TopSlotWritten(f: FilterFn, environ: seq<string>, n: string)
    requires HoldsSlice(f, environ, n)
  {
    exists j :: 0 <= j < |environ| && Touches(f, environ[j], n) &&
      Kind(f, environ[j]).0.index == |Fill(f, environ)[n].items| - 1
  }

  /** Each written slot holds the value of the last entry that wrote it. */
  ghost predicate WrittenSlotsHold(f: FilterFn, environ: seq<string>, n: string)
    requires HoldsSlice(f, environ, n)
  {
    forall j, i: nat :: 0 <= j < |environ| && LastSlotWrite(f, environ, j, n, i) ==>
      i < |Fill(f, environ)[n].items| && Fill(f, environ)[n].items[i] == ValueOf(environ[j])
  }

  /** Every slot no entry wrote is "". */
  ghost predicate UnwrittenSlotsEmpty(f: FilterFn, environ: seq<string>, n: string)
    requires HoldsSlice(f, environ, n)
  {
    forall i: nat :: i < |Fill(f, environ)[n].items| && !SlotWritten(f, environ, n, i) ==>
      Fill(f, environ)[n].items[i] == ""
  }

  /**
   * What FillMap leaves under a field written only by array elements: a slice
   * one longer than the largest index written, each written slot holding the
   * value of the last entry that wrote it, and "" in every slot nobody wrote.
   */
  ghost predicate ArrayFieldFacts(f: FilterFn, environ: seq<string>, n: string) {
    && HoldsSlice(f, environ, n)
    && SlotsInRange(f, environ, n)
    && TopSlotWritten(f, environ, n)
    && WrittenSlotsHold(f, environ, n)
    && UnwrittenSlotsEmpty(f, environ, n)
  }

  lemma {:induction false} FillArrayField(f: FilterFn, environ: seq<string>, n: string)
    requires OnlyArrayWrites(f, environ, n)
    ensures ArrayFieldFacts(f, environ, n)
  {
    var prev := environ[..|environ| - 1];
    var e := environ[|environ| - 1];
    assert forall j :: 0 <= j < |prev| ==> prev[j] == environ[j];
    FillKeys(f, prev);
    if !Touches(f, e, n) {
      var w :| 0 <= w < |environ| && Touches(f, environ[w], n);
      assert w < |prev| && Touches(f, prev[w], n);
      FillArrayField(f, prev, n);
      SkipKeepsSlice(f, environ, n);
      SkipKeepsRange(f, environ, n);
      SkipKeepsTop(f, environ, n);
      SkipKeepsWritten(f, environ, n);
      SkipKeepsUnwritten(f, environ, n);
    } else if n in Fill(f, prev) {
      var w :| 0 <= w < |prev| && Touches(f, prev[w], n);
      assert Touches(f, environ[w], n);
      FillArrayField(f, prev, n);
      ArrayFactsExtend(f, environ, n);
    } else {
      forall j | 0 <= j < |prev| ensures !Touches(f, environ[j], n) {
        assert !Touches(f, prev[j], n);
      }
      ArrayFactsFirst(f, environ, n);
    }
  }

  /** An entry that does not name `n` leaves the field as it was. */
  lemma SkipKeepsSlice(f: FilterFn, environ: seq<string>, n: string)
    requires environ != [] && !Touches(f, environ[|environ| - 1], n)
    requires HoldsSlice(f, environ[..|environ| - 1], n)
    ensures HoldsSlice(f, environ, n)
    ensures Fill(f, environ)[n] == Fill(f, environ[..|environ| - 1])[n]
  {
  }

  lemma SkipKeepsRange(f: FilterFn, environ: seq<string>, n: string)
    requires environ != [] && !Touches(f, environ[|environ| - 1], n)
    requires HoldsSlice(f, environ[..|environ| - 1], n) && SlotsInRange(f, environ[..|environ| - 1], n)
    ensures HoldsSlice(f, environ, n) && SlotsInRange(f, environ, n)
  {
    var prev := environ[..|environ| - 1];
    SkipKeepsSlice(f, environ, n);
    forall j | 0 <= j < |environ| && Touches(f, environ[j], n)
      ensures Kind(f, environ[j]).0.index < |Fill(f, environ)[n].items|
    {
      assert j < |prev| && prev[j] == environ[j];
    }
  }

  lemma SkipKeepsTop(f: FilterFn, environ: seq<string>, n: string)
    requires environ != [] && !Touches(f, environ[|environ| - 1], n)
    requires HoldsSlice(f, environ[..|environ| - 1], n) && TopSlotWritten(f, environ[..|environ| - 1], n)
    ensures HoldsSlice(f, environ, n) && TopSlotWritten(f, environ, n)
  {
    var prev := environ[..|environ| - 1];
    SkipKeepsSlice(f, environ, n);
    var w :| 0 <= w < |prev| && Touches(f, prev[w], n) &&
      Kind(f, prev[w]).0.index == |Fill(f, prev)[n].items| - 1;
    assert prev[w] == environ[w];
  }

  lemma SkipKeepsWritten(f: FilterFn, environ: seq<string>, n: string)
    requires environ != [] && !Touches(f, environ[|environ| - 1], n)
    requires HoldsSlice(f, environ[..|environ| - 1], n) && WrittenSlotsHold(f, environ[..|environ| - 1], n)
    ensures HoldsSlice(f, environ, n) && WrittenSlotsHold(f, environ, n)
  {
    var prev := environ[..|environ| - 1];
    SkipKeepsSlice(f, environ, n);
    forall j, i: nat | 0 <= j < |environ| && LastSlotWrite(f, environ, j, n, i)
      ensures i < |Fill(f, environ)[n].items| && Fill(f, environ)[n].items[i] == ValueOf(environ[j])
    {
      assert j < |prev| && prev[j] == environ[j];
      assert LastSlotWrite(f, prev, j, n, i);
    }
  }

  lemma SkipKeepsUnwritten(f: FilterFn, environ: seq<string>, n: string)
    requires environ != [] && !Touches(f, environ[|environ| - 1], n)
    requires HoldsSlice(f, environ[..|environ| - 1], n) && UnwrittenSlotsEmpty(f, environ[..|environ| - 1], n)
    ensures HoldsSlice(f, environ, n) && UnwrittenSlotsEmpty(f, environ, n)
  {
    var prev := environ[..|environ| - 1];
    SkipKeepsSlice(f, environ, n);
    forall i: nat | i < |Fill(f, environ)[n].items| && !SlotWritten(f, environ, n, i)
      ensures Fill(f, environ)[n].items[i] == ""
    {
      assert forall j :: 0 <= j < |prev| ==> prev[j] == environ[j];
    }
  }

  /** The first array element of `n` creates the slice: "" up to its index, its value there. */
  lemma ArrayFactsFirst(f: FilterFn, environ: seq<string>, n: string)
    requires environ != [] && Touches(f, environ[|environ| - 1], n)
    requires Kind(f, environ[|environ| - 1]).1 == VarTypeArray
    requires forall j :: 0 <= j < |environ| - 1 ==> !Touches(f, environ[j], n)
    ensures ArrayFieldFacts(f, environ, n)
  {
    FirstSlice(f, environ, n);
    var last := |environ| - 1;
    var items := Fill(f, environ)[n].items;
    assert Touches(f, environ[last], n) && Kind(f, environ[last]).0.index == |items| - 1;
    FirstSlots(f, environ, n);
  }

  lemma FirstSlice(f: FilterFn, environ: seq<string>, n: string)
    requires environ != [] && Touches(f, environ[|environ| - 1], n)
    requires Kind(f, environ[|environ| - 1]).1 == VarTypeArray
    requires forall j :: 0 <= j < |environ| - 1 ==> !Touches(f, environ[j], n)
    ensures HoldsSlice(f, environ, n)
    ensures var e := environ[|environ| - 1];
      Fill(f, environ)[n].items == SetIndex([], Kind(f, e).0.index, ValueOf(e))
  {
    var prev := environ[..|environ| - 1];
    assert forall j :: 0 <= j < |prev| ==> prev[j] == environ[j];
    FillKeys(f, prev);
    assert n !in Fill(f, prev);
  }

  lemma FirstSlots(f: FilterFn, environ: seq<string>, n: string)
    requires environ != [] && Touches(f, environ[|environ| - 1], n)
    requires Kind(f, environ[|environ| - 1]).1 == VarTypeArray
    requires forall j :: 0 <= j < |environ| - 1 ==> !Touches(f, environ[j], n)
    ensures HoldsSlice(f, environ, n)
    ensures SlotsInRange(f, environ, n) && WrittenSlotsHold(f, environ, n) && UnwrittenSlotsEmpty(f, environ, n)
  {
    FirstSlice(f, environ, n);
    var last := |environ| - 1;
    var items := Fill(f, environ)[n].items;
    forall i: nat | i < |items| && !SlotWritten(f, environ, n, i) ensures items[i] == "" {
      assert !WritesSlot(f, environ[last], n, i);
    }
  }

  /** A later array element of `n` grows the slice if needed and overwrites one slot. */
  lemma ArrayFactsExtend(f: FilterFn, environ: seq<string>, n: string)
    requires environ != [] && Touches(f, environ[|environ| - 1], n)
    requires Kind(f, environ[|environ| - 1]).1 == VarTypeArray
    requires ArrayFieldFacts(f, environ[..|environ| - 1], n)
    ensures ArrayFieldFacts(f, environ, n)
  {
    ExtendSlice(f, environ, n);
    ExtendRange(f, environ, n);
    ExtendWritten(f, environ, n);
    ExtendUnwritten(f, environ, n);
  }

  lemma ExtendSlice(f: FilterFn, environ: seq<string>, n: string)
    requires environ != [] && Touches(f, environ[|environ| - 1], n)
    requires Kind(f, environ[|environ| - 1]).1 == VarTypeArray
    requires ArrayFieldFacts(f, environ[..|environ| - 1], n)
    ensures HoldsSlice(f, environ, n)
    ensures var e := environ[|environ| - 1];
      Fill(f, environ)[n].items == SetIndex(Fill(f, environ[..|environ| - 1])[n].items, Kind(f, e).0.index, ValueOf(e))
  {
  }

  lemma ExtendRange(f: FilterFn, environ: seq<string>, n: string)
    requires environ != [] && Touches(f, environ[|environ| - 1], n)
    requires Kind(f, environ[|environ| - 1]).1 == VarTypeArray
    requires ArrayFieldFacts(f, environ[..|environ| - 1], n)
    ensures HoldsSlice(f, environ, n) && SlotsInRange(f, environ, n) && TopSlotWritten(f, environ, n)
  {
    ExtendSlice(f, environ, n);
    var prev := environ[..|environ| - 1];
    var last := |environ| - 1;
    var i0 := Kind(f, environ[last]).0.index;
    assert forall j :: 0 <= j < |prev| ==> prev[j] == environ[j];
    var base := Fill(f, prev)[n].items;
    var items := Fill(f, environ)[n].items;
    forall j | 0 <= j < |environ| && Touches(f, environ[j], n) ensures Kind(f, environ[j]).0.index < |items| {
      if j < last {
        assert Touches(f, prev[j], n);
      }
    }
    if i0 + 1 >= |base| {
      assert Touches(f, environ[last], n) && Kind(f, environ[last]).0.index == |items| - 1;
    } else {
      var w :| 0 <= w < |prev| && Touches(f, prev[w], n) && Kind(f, prev[w]).0.index == |base| - 1;
      assert Touches(f, environ[w], n) && Kind(f, environ[w]).0.index == |items| - 1;
    }
  }

  lemma ExtendWritten(f: FilterFn, environ: seq<string>, n: string)
    requires environ != [] && Touches(f, environ[|environ| - 1], n)
    requires Kind(f, environ[|environ| - 1]).1 == VarTypeArray
    requires ArrayFieldFacts(f, environ[..|environ| - 1], n)
    ensures HoldsSlice(f, environ, n) && WrittenSlotsHold(f, environ, n)
  {
    ExtendSlice(f, environ, n);
    var prev := environ[..|environ| - 1];
    var last := |environ| - 1;
    assert forall j :: 0 <= j < |prev| ==> prev[j] == environ[j];
    var items := Fill(f, environ)[n].items;
    forall j, i: nat | 0 <= j < |environ| && LastSlotWrite(f, environ, j, n, i)
      ensures i < |items| && items[i] == ValueOf(environ[j])
    {
      if j < last {
        assert !WritesSlot(f, environ[last], n, i);
        assert LastSlotWrite(f, prev, j, n, i);
        assert Touches(f, prev[j], n);
      }
    }
  }

  lemma ExtendUnwritten(f: FilterFn, environ: seq<string>, n: string)
    requires environ != [] && Touches(f, environ[|environ| - 1], n)
    requires Kind(f, environ[|environ| - 1]).1 == VarTypeArray
    requires ArrayFieldFacts(f, environ[..|environ| - 1], n)
    ensures HoldsSlice(f, environ, n) && UnwrittenSlotsEmpty(f, environ, n)
  {
    ExtendSlice(f, environ, n);
    var prev := environ[..|environ| - 1];
    var last := |environ| - 1;
    assert forall j :: 0 <= j < |prev| ==> prev[j] == environ[j];
    var items := Fill(f, environ)[n].items;
    forall i: nat | i < |items| && !SlotWritten(f, environ, n, i) ensures items[i] == "" {
      assert !WritesSlot(f, environ[last], n, i);
    }
  }

  /** The entry is a map entry of field `n` under key `k`. */
  predicate WritesKey(f: FilterFn, e: string, n: string, k: string) {
    Kind(f, e).1 == VarTypeMap && Kind(f, e).0.name == n && Kind(f, e).0.key == k
  }

  /** Entry `j` writes key `k` of field `n` and no later entry writes that key. */
  predicate LastKeyWrite(f: FilterFn, environ: seq<string>, j: nat, n: string, k: string)
    requires j < |environ|
  {
    WritesKey(f, environ[j], n, k) && forall l :: j < l < |environ| ==> !WritesKey(f, environ[l], n, k)
  }

  /** Every entry that names `n` is a map entry, and at least one does. */
  predicate OnlyMapWrites(f: FilterFn, environ: seq<string>, n: string) {
    && (forall j :: 0 <= j < |environ| && Touches(f, environ[j], n) ==> Kind(f, environ[j]).1 == VarTypeMap)
    && (exists j :: 0 <= j < |environ| && Touches(f, environ[j], n))
  }

  /** The field holds a map. */
  ghost predicate HoldsDict(f: FilterFn, environ: seq<string>, n: string) {
    n in Fill(f, environ) && Fill(f, environ)[n].Dict?
  }

  /** The map's keys are exactly the keys some entry wrote. */
  ghost predicate KeysWritten(f: FilterFn, environ: seq<string>, n: string)
    requires HoldsDict(f, environ, n)
  {
    forall k :: k in Fill(f, environ)[n].entries <==> exists j :: 0 <= j < |environ| && WritesKey(f, environ[j], n, k)
  }

  /** Each key holds the value of the last entry that wrote it. */
  ghost predicate WrittenKeysHold(f: FilterFn, environ: seq<string>, n: string)
    requires HoldsDict(f, environ, n)
  {
    forall j, k :: 0 <= j < |environ| && LastKeyWrite(f, environ, j, n, k) ==>
      k in Fill(f, environ)[n].entries && Fill(f, environ)[n].entries[k] == ValueOf(environ[j])
  }

  /**
   * What FillMap leaves under a field written only by map entries: a map
   * holding exactly the keys written, each with the value of its last write.
   */
  ghost predicate MapFieldFacts(f: FilterFn, environ: seq<string>, n: string) {
    HoldsDict(f, environ, n) && KeysWritten(f, environ, n) && WrittenKeysHold(f, environ, n)
  }

  lemma {:induction false} FillMapField(f: FilterFn, environ: seq<string>, n: string)
    requires OnlyMapWrites(f, environ, n)
    ensures MapFieldFacts(f, environ, n)
  {
    var prev := environ[..|environ| - 1];
    var e := environ[|environ| - 1];
    assert forall j :: 0 <= j < |prev| ==> prev[j] == environ[j];
    FillKeys(f, prev);
    if !Touches(f, e, n) {
      var w :| 0 <= w < |environ| && Touches(f, environ[w], n);
      assert w < |prev| && Touches(f, prev[w], n);
      FillMapField(f, prev, n);
      SkipKeepsDict(f, environ, n);
    } else if n in Fill(f, prev) {
      var w :| 0 <= w < |prev| && Touches(f, prev[w], n);
      assert Touches(f, environ[w], n);
      FillMapField(f, prev, n);
      MapFactsExtend(f, environ, n);
    } else {
      forall j | 0 <= j < |prev| ensures !Touches(f, environ[j], n) {
        assert !Touches(f, prev[j], n);
      }
      MapFactsFirst(f, environ, n);
    }
  }

  /** An entry that does not name `n` leaves its map as it was. */
  lemma SkipKeepsDict(f: FilterFn, environ: seq<string>, n: string)
    requires environ != [] && !Touches(f, environ[|environ| - 1], n)
    requires MapFieldFacts(f, environ[..|environ| - 1], n)
    ensures MapFieldFacts(f, environ, n)
  {
    var prev := environ[..|environ| - 1];
    assert forall j :: 0 <= j < |prev| ==> prev[j] == environ[j];
    assert Fill(f, environ)[n] == Fill(f, prev)[n];
    forall j, k | 0 <= j < |environ| && LastKeyWrite(f, environ, j, n, k)
      ensures k in Fill(f, environ)[n].entries && Fill(f, environ)[n].entries[k] == ValueOf(environ[j])
    {
      assert j < |prev| && LastKeyWrite(f, prev, j, n, k);
    }
  }

  /** The first map entry of `n` creates a map holding just its key. */
  lemma MapFactsFirst(f: FilterFn, environ: seq<string>, n: string)
    requires environ != [] && Touches(f, environ[|environ| - 1], n)
    requires Kind(f, environ[|environ| - 1]).1 == VarTypeMap
    requires forall j :: 0 <= j < |environ| - 1 ==> !Touches(f, environ[j], n)
    ensures MapFieldFacts(f, environ, n)
  {
    FirstDict(f, environ, n);
    var last := |environ| - 1;
    var e := environ[last];
    assert WritesKey(f, environ[last], n, Kind(f, e).0.key);
  }

  lemma FirstDict(f: FilterFn, environ: seq<string>, n: string)
    requires environ != [] && Touches(f, environ[|environ| - 1], n)
    requires Kind(f, environ[|environ| - 1]).1 == VarTypeMap
    requires forall j :: 0 <= j < |environ| - 1 ==> !Touches(f, environ[j], n)
    ensures var e := environ[|environ| - 1];
      n in Fill(f, environ) && Fill(f, environ)[n] == Dict(map[Kind(f, e).0.key := ValueOf(e)])
  {
    var prev := environ[..|environ| - 1];
    assert forall j :: 0 <= j < |prev| ==> prev[j] == environ[j];
    FillKeys(f, prev);
    assert n !in Fill(f, prev);
  }

  /** A later map entry of `n` adds or overwrites one key. */
  lemma MapFactsExtend(f: FilterFn, environ: seq<string>, n: string)
    requires environ != [] && Touches(f, environ[|environ| - 1], n)
    requires Kind(f, environ[|environ| - 1]).1 == VarTypeMap
    requires MapFieldFacts(f, environ[..|environ| - 1], n)
    ensures MapFieldFacts(f, environ, n)
  {
    var prev := environ[..|environ| - 1];
    var last := |environ| - 1;
    var e := environ[last];
    var k0 := Kind(f, e).0.key;
    assert forall j :: 0 <= j < |prev| ==> prev[j] == environ[j];
    var entries := Fill(f, environ)[n].entries;
    assert entries == Fill(f, prev)[n].entries[k0 := ValueOf(e)];
    assert WritesKey(f, environ[last], n, k0);
    forall j, k | 0 <= j < |environ| && LastKeyWrite(f, environ, j, n, k)
      ensures k in entries && entries[k] == ValueOf(environ[j])
    {
      if j < last {
        assert LastKeyWrite(f, prev, j, n, k);
      }
    }
  }
}
