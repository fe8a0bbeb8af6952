/**
 * The name classifier built by FilterPrefix: it decides whether an
 * environment variable name carries the configured prefix and, if so, whether
 * it stands for a map entry, an array element or a plain string, and extracts
 * the field name, the map key or the array index.
 */
module Classifier {
  import opened Text
  import opened Lex

  datatype VarType = VarTypeUnknown | VarTypeString | VarTypeMap | VarTypeArray

  /** What the classifier extracts from a name; Go's zero value is VarName("", "", 0). */
  datatype VarName = VarName(name: string, key: string, index: nat)

  /**
   * The configuration the closure returned by FilterPrefix captures: the
   * prefix, and the recognised map names lower-cased, sorted and deduplicated.
   */
  datatype Filter = Filter(prefix: string, lowerMap: seq<string>)

  /** The recognised names as FilterPrefix leaves them. */
  predicate WellFormed(f: Filter) {
    StrictlySorted(f.lowerMap) && forall m :: m in f.lowerMap ==> ToLower(m) == m
  }

  /** FilterPrefix's setup: lower-case every recognised name, then sort and compact. */
  method FilterPrefix(prefix: string, asMap: seq<string>) returns (f: Filter)
    ensures f.prefix == prefix
    ensures WellFormed(f)
    ensures forall m :: m in f.lowerMap <==> exists a :: a in asMap && ToLower(a) == m
  {
    var lowerMap: seq<string> := [];
    for i := 0 to |asMap|
      invariant |lowerMap| == i
      invariant forall j :: 0 <= j < i ==> lowerMap[j] == ToLower(asMap[j])
    {
      lowerMap := lowerMap + [ToLower(asMap[i])];
    }
    var sorted := SortStrings(lowerMap);
    assert forall m :: m in sorted <==> m in multiset(lowerMap);
    var compacted := Compact(sorted);
    forall m | m in compacted ensures ToLower(m) == m {
      var j :| 0 <= j < |lowerMap| && lowerMap[j] == m;
      ToLowerIdempotent(asMap[j]);
    }
    forall m | m in compacted ensures exists a :: a in asMap && ToLower(a) == m {
      var j :| 0 <= j < |lowerMap| && lowerMap[j] == m;
      assert asMap[j] in asMap;
    }
    forall a | a in asMap ensures ToLower(a) in compacted {
      var j :| 0 <= j < |asMap| && asMap[j] == a;
      assert lowerMap[j] in multiset(lowerMap);
    }
    f := Filter(prefix, compacted);
  }

  /** The part of a prefixed name that is classified: prefix removed, lower-cased. */
  function Body(f: Filter, s: string): string
    requires f.prefix <= s
  {
    ToLower(s[|f.prefix|..])
  }

  /** The body begins with the recognised map name `m` and an underscore. */
  predicate MapMatch(m: string, body: string) {
    m + "_" <= body
  }

  /** Index of the first recognised name that matches, or -1: the loop over lowerMap with its break. */
  function FirstMatch(names: seq<string>, body: string): (r: int)
    ensures -1 <= r < |names|
    ensures r == -1 <==> forall m :: m in names ==> !MapMatch(m, body)
    ensures r >= 0 ==> MapMatch(names[r], body)
    ensures r >= 0 ==> forall j :: 0 <= j < r ==> !MapMatch(names[j], body)
  {
    if names == [] then -1
    else if MapMatch(names[0], body) then 0
    else
      var k := FirstMatch(names[1..], body);
      assert forall m :: m in names ==> m == names[0] || m in names[1..];
      if k == -1 then -1 else k + 1
  }

  /** The regular expression `_[0-9]*$`: some underscore is followed by nothing but digits. */
  predicate MatchesArraySuffix(body: string) {
    exists i :: 0 <= i < |body| && body[i] == '_' && AllDigits(body[i + 1..])
  }

  /** The regular expression matches exactly when the last underscore is followed by digits only. */
  lemma ArraySuffixAtLastUnderscore(body: string)
    ensures MatchesArraySuffix(body) <==>
      (LastIndexOf(body, '_') >= 0 && AllDigits(body[LastIndexOf(body, '_') + 1..]))
  {
    var l := LastIndexOf(body, '_');
    if MatchesArraySuffix(body) {
      var i :| 0 <= i < |body| && body[i] == '_' && AllDigits(body[i + 1..]);
      DigitsAfterLast(body, i);
    } else if l >= 0 && AllDigits(body[l + 1..]) {
      assert body[l] == '_';
    }
  }

  /** Digits after some underscore are also digits after the last one, which comes no earlier. */
  lemma DigitsAfterLast(body: string, i: int)
    requires 0 <= i < |body| && body[i] == '_' && AllDigits(body[i + 1..])
    ensures LastIndexOf(body, '_') >= i && AllDigits(body[LastIndexOf(body, '_') + 1..])
  {
    var l := LastIndexOf(body, '_');
    assert l >= i;
    assert body[l + 1..] == body[i + 1..][l - i..];
  }

  /** `vn` splits `body` as `name _ digits` with `index` the value of the digits. */
  predicate ArrayParts(body: string, vn: VarName) {
    && vn.key == ""
    && |vn.name| < |body|
    && body[..|vn.name|] == vn.name
    && body[|vn.name|] == '_'
    && (forall i :: |vn.name| < i < |body| ==> body[i] != '_')
    && AllDigits(body[|vn.name| + 1..])
    && vn.index == ParseDigits(body[|vn.name| + 1..])
  }

  /** The closure returned by FilterPrefix, applied to one variable name. */
  function Classify(f: Filter, s: string): (r: (VarName, VarType))
    ensures r.1 == VarTypeUnknown <==> !(f.prefix <= s)
    ensures r.1 == VarTypeUnknown ==> r.0 == VarName("", "", 0)
  {
    if !(f.prefix <= s) then (VarName("", "", 0), VarTypeUnknown)
    else
      var body := Body(f, s);
      var i := FirstMatch(f.lowerMap, body);
      if i >= 0 then
        var m := f.lowerMap[i];
        (VarName(m, body[|m| + 1..], 0), VarTypeMap)
      else if MatchesArraySuffix(body) then
        ArraySuffixAtLastUnderscore(body);
        var l := LastIndexOf(body, '_');
        (VarName(body[..l], "", ParseDigits(body[l + 1..])), VarTypeArray)
      else
        (VarName(body, "", 0), VarTypeString)
  }

  /**
   * What a prefixed name is classified as. A map entry when the body begins
   * with a recognised name and an underscore: the first such name in the
   * recognised list, the key the rest of the body. Otherwise an array element
   * when the body ends in an underscore and digits: the field is what precedes
   * the last underscore, the index the value of the digits. Otherwise a string
   * named by the whole body.
   */
  lemma ClassifySpec(f: Filter, s: string)
    requires f.prefix <= s
    ensures var (vn, t) := Classify(f, s); var body := Body(f, s);
      && (t == VarTypeMap <==> exists m :: m in f.lowerMap && MapMatch(m, body))
      && (t == VarTypeMap ==>
           && vn.index == 0
           && body == vn.name + "_" + vn.key
           && exists i :: 0 <= i < |f.lowerMap| && f.lowerMap[i] == vn.name &&
                forall j :: 0 <= j < i ==> !MapMatch(f.lowerMap[j], body))
      && (t == VarTypeArray <==>
           (forall m :: m in f.lowerMap ==> !MapMatch(m, body)) && MatchesArraySuffix(body))
      && (t == VarTypeArray ==> ArrayParts(body, vn))
      && (t == VarTypeString ==> vn == VarName(body, "", 0))
  {
    var body := Body(f, s);
    var i := FirstMatch(f.lowerMap, body);
    if i >= 0 {
      ClassifyMapCase(f, s);
    } else if MatchesArraySuffix(body) {
      ClassifyArrayCase(f, s);
    }
  }

  /** The map branch of Classify: the first matching recognised name and the rest of the body. */
  lemma ClassifyMapCase(f: Filter, s: string)
    requires f.prefix <= s && FirstMatch(f.lowerMap, Body(f, s)) >= 0
    ensures Classify(f, s).1 == VarTypeMap && Classify(f, s).0.index == 0
    ensures Classify(f, s).0.name == f.lowerMap[FirstMatch(f.lowerMap, Body(f, s))]
    ensures Body(f, s) == Classify(f, s).0.name + "_" + Classify(f, s).0.key
  {
    var body := Body(f, s);
    var m := f.lowerMap[FirstMatch(f.lowerMap, body)];
    assert body == m + "_" + body[|m| + 1..];
  }

  /** The array branch of Classify: the split at the last underscore. */
  lemma ClassifyArrayCase(f: Filter, s: string)
    requires f.prefix <= s && FirstMatch(f.lowerMap, Body(f, s)) < 0 && MatchesArraySuffix(Body(f, s))
    ensures Classify(f, s).1 == VarTypeArray && ArrayParts(Body(f, s), Classify(f, s).0)
  {
    var body := Body(f, s);
    ArraySuffixAtLastUnderscore(body);
    var l := LastIndexOf(body, '_');
    assert Classify(f, s).0 == VarName(body[..l], "", ParseDigits(body[l + 1..]));
    assert body[..l][..|body[..l]|] == body[..l];
  }

  /**
   * Of all recognised names that match, the first one in sorted order is a
   * prefix of every other: it is the shortest match, so adding a longer name
   * that shares its beginning never changes the classification.
   */
  lemma ClassifyMapPicksShortest(f: Filter, s: string)
    requires StrictlySorted(f.lowerMap)
    requires Classify(f, s).1 == VarTypeMap
    ensures forall m :: m in f.lowerMap && MapMatch(m, Body(f, s)) ==> Classify(f, s).0.name <= m
  {
    var body := Body(f, s);
    var i := FirstMatch(f.lowerMap, body);
    ClassifyMapCase(f, s);
    forall m | m in f.lowerMap && MapMatch(m, body) ensures f.lowerMap[i] <= m {
      var j :| 0 <= j < |f.lowerMap| && f.lowerMap[j] == m;
      if j != i {
        EarlierMatchIsPrefix(f.lowerMap, body, i, j);
      }
    }
  }

  /** In a strictly sorted list, an earlier name matching the same body is a prefix of a later one. */
  lemma EarlierMatchIsPrefix(names: seq<string>, body: string, i: int, j: int)
    requires StrictlySorted(names) && 0 <= i < j < |names|
    requires MapMatch(names[i], body) && MapMatch(names[j], body)
    ensures names[i] <= names[j]
  {
    var n, m := names[i], names[j];
    assert Below(n, m);
    assert n + "_" == body[..|n| + 1] && m + "_" == body[..|m| + 1];
    if |m| < |n| {
      assert m + "_" <= n;
      PrefixBelow(m, n);
      BelowTotal(n, m);
    } else if |m| == |n| {
      assert m == body[..|m|] == n;
      BelowIrreflexive(n);
    } else {
      assert n + "_" <= m;
    }
  }

  /**
   * Writing a field and an index as `prefix field _ index` and classifying
   * the result gives back the lower-cased field and the index, when the
   * lower-cased field does not begin with a recognised map name.
   */
  lemma ClassifyArrayRoundTrip(f: Filter, field: string, index: nat)
    requires forall m :: m in f.lowerMap ==> !MapMatch(m, ToLower(field) + "_" + Decimal(index))
    ensures Classify(f, f.prefix + (field + "_" + Decimal(index))) == (VarName(ToLower(field), "", index), VarTypeArray)
  {
    var digits := Decimal(index);
    var body := ToLower(field) + "_" + digits;
    var s := f.prefix + (field + "_" + digits);
    BodyOfArrayName(f, field, digits);
    ArraySuffixOf(ToLower(field), digits);
    ClassifyArrayCase(f, s);
    var vn := Classify(f, s).0;
    ArrayPartsSplit(body, vn, ToLower(field), digits);
    ParseDecimal(index);
  }

  lemma BodyOfArrayName(f: Filter, field: string, digits: string)
    requires AllDigits(digits)
    ensures f.prefix <= f.prefix + (field + "_" + digits)
    ensures Body(f, f.prefix + (field + "_" + digits)) == ToLower(field) + "_" + digits
  {
    BodyAfterPrefix(f, field + "_" + digits);
    ToLowerAppend(field, "_" + digits);
    ToLowerDigits(digits);
  }

  /** A name followed by an underscore and digits matches `_[0-9]*$`. */
  lemma ArraySuffixOf(name: string, digits: string)
    requires AllDigits(digits)
    ensures MatchesArraySuffix(name + "_" + digits)
  {
    var body := name + "_" + digits;
    assert body[|name|] == '_' && body[|name| + 1..] == digits;
  }

  /**
   * A prefixed name with no underscore after the prefix is a plain string,
   * named by the lower-cased rest of the name.
   */
  lemma ClassifyStringRoundTrip(f: Filter, field: string)
    requires '_' !in field
    ensures Classify(f, f.prefix + field) == (VarName(ToLower(field), "", 0), VarTypeString)
  {
    var s := f.prefix + field;
    BodyAfterPrefix(f, field);
    var body := Body(f, s);
    assert '_' !in body;
    ClassifySpec(f, s);
  }

  lemma BodyAfterPrefix(f: Filter, rest: string)
    ensures f.prefix <= f.prefix + rest && Body(f, f.prefix + rest) == ToLower(rest)
  {
    assert (f.prefix + rest)[|f.prefix|..] == rest;
  }

  /** A body of the form `field _ digits` splits at the underscore before the digits. */
  lemma ArrayPartsSplit(body: string, vn: VarName, field: string, digits: string)
    requires ArrayParts(body, vn)
    requires body == field + "_" + digits && AllDigits(digits)
    ensures vn.name == field && body[|vn.name| + 1..] == digits
  {
    var n := |vn.name|;
    assert body[|field|] == '_';
    assert body[n] == '_';
    assert vn.name == body[..n];
  }

  /**
   * Writing a map name and a key as `prefix name _ key` and classifying the
   * result gives back the lower-cased name and key, when the lower-cased name
   * is recognised and no recognised name contains an underscore.
   */
  lemma ClassifyMapRoundTrip(f: Filter, name: string, key: string)
    requires ToLower(name) in f.lowerMap
    requires forall n :: n in f.lowerMap ==> '_' !in n
    ensures Classify(f, f.prefix + (name + "_" + key)) == (VarName(ToLower(name), ToLower(key), 0), VarTypeMap)
  {
    var m := ToLower(name);
    var body := m + "_" + ToLower(key);
    var s := f.prefix + (name + "_" + key);
    BodyOfJoined(f, name, key);
    assert MapMatch(m, body);
    ClassifySpec(f, s);
    assert Classify(f, s).1 == VarTypeMap;
    var vn := Classify(f, s).0;
    assert vn.name in f.lowerMap && MapMatch(vn.name, body);
    MatchesWithoutUnderscore(vn.name, m, body);
    assert body == m + "_" + vn.key;
    assert vn.key == body[|m| + 1..] == ToLower(key);
  }

  lemma BodyOfJoined(f: Filter, name: string, key: string)
    ensures f.prefix <= f.prefix + (name + "_" + key)
    ensures Body(f, f.prefix + (name + "_" + key)) == ToLower(name) + "_" + ToLower(key)
  {
    BodyAfterPrefix(f, name + "_" + key);
    ToLowerAppend(name, "_" + key);
    ToLowerAppend("_", key);
  }

  /** Two recognised names free of underscores cannot both begin the same body unless equal. */
  lemma MatchesWithoutUnderscore(n: string, m: string, body: string)
    requires MapMatch(n, body) && MapMatch(m, body)
    requires '_' !in n && '_' !in m
    ensures n == m
  {
    assert body[|n|] == '_' && body[|m|] == '_';
    assert n == body[..|n|] && m == body[..|m|];
  }
}
