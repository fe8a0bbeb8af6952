/**
 * The byte-wise string order Go's slices.Sort uses, and the two library
 * steps FilterPrefix applies to the recognised map names: slices.Sort and
 * slices.Compact. On characters, code-point order is the order of their
 * UTF-8 encodings, so comparing characters here is comparing Go's bytes.
 */
module Lex {

  /** `a` sorts strictly before `b`. */
  predicate Below(a: string, b: string) {
    if a == [] then b != []
    else if b == [] then false
    else a[0] < b[0] || (a[0] == b[0] && Below(a[1..], b[1..]))
  }

  lemma {:induction false} BelowIrreflexive(a: string)
    ensures !Below(a, a)
  {
    if a != [] {
      BelowIrreflexive(a[1..]);
    }
  }

  lemma {:induction false} BelowTransitive(a: string, b: string, c: string)
    requires Below(a, b) && Below(b, c)
    ensures Below(a, c)
  {
    if a != [] && a[0] == b[0] && b[0] == c[0] {
      BelowTransitive(a[1..], b[1..], c[1..]);
    }
  }

  /** Any two different strings are ordered one way, and never both ways. */
  lemma {:induction false} BelowTotal(a: string, b: string)
    ensures a != b ==> Below(a, b) || Below(b, a)
    ensures !(Below(a, b) && Below(b, a))
  {
    if a != [] && b != [] && a[0] == b[0] {
      BelowTotal(a[1..], b[1..]);
      if a != b {
        assert a == [a[0]] + a[1..] && b == [b[0]] + b[1..];
      }
    }
  }

  /** A proper prefix sorts first. */
  lemma {:induction false} PrefixBelow(a: string, b: string)
    requires a <= b && a != b
    ensures Below(a, b)
  {
    if a != [] {
      PrefixBelow(a[1..], b[1..]);
    }
  }

  /** Non-decreasing: what slices.Sort produces. */
  predicate Sorted(s: seq<string>) {
    forall i, j :: 0 <= i < j < |s| ==> !Below(s[j], s[i])
  }

  /** Increasing: sorted and free of duplicates. */
  predicate StrictlySorted(s: seq<string>) {
    forall i, j :: 0 <= i < j < |s| ==> Below(s[i], s[j])
  }

  /** Inserts `x` into a sorted sequence before the first element not below it. */
  function Insert(s: seq<string>, x: string): (r: seq<string>)
    requires Sorted(s)
    ensures Sorted(r)
    ensures multiset(r) == multiset(s) + multiset{x}
  {
    if s == [] then [x]
    else if !Below(s[0], x) then
      forall j | 0 < j < |s| ensures !Below(s[j], x) {
        BelowTotal(x, s[0]);
        if Below(s[j], x) && x != s[0] {
          BelowTransitive(s[j], x, s[0]);
        }
      }
      [x] + s
    else
      var r := Insert(s[1..], x);
      assert s == [s[0]] + s[1..];
      forall y | y in multiset(r) ensures !Below(y, s[0]) {
        if y != x {
          assert y in multiset(s[1..]);
          var j :| 0 <= j < |s[1..]| && s[1..][j] == y;
          assert s[j + 1] == y;
        } else {
          BelowTotal(s[0], x);
        }
      }
      forall j | 0 <= j < |r| ensures !Below(r[j], s[0]) {
        assert r[j] in multiset(r);
      }
      [s[0]] + r
  }

  /** slices.Sort: a sorted permutation of the input. */
  method SortStrings(xs: seq<string>) returns (ys: seq<string>)
    ensures Sorted(ys)
    ensures multiset(ys) == multiset(xs)
  {
    ys := [];
    for i := 0 to |xs|
      invariant Sorted(ys)
      invariant multiset(ys) == multiset(xs[..i])
    {
      assert xs[..i + 1] == xs[..i] + [xs[i]];
      ys := Insert(ys, xs[i]);
    }
    assert xs[..|xs|] == xs;
  }

  /**
   * slices.Compact: drops every element equal to the one before it. The result
   * holds the same strings, no two neighbours are equal, and a sorted input
   * comes out strictly sorted.
   */
  method Compact(xs: seq<string>) returns (ys: seq<string>)
    ensures |ys| <= |xs|
    ensures forall x :: x in ys <==> x in xs
    ensures forall i :: 0 < i < |ys| ==> ys[i - 1] != ys[i]
    ensures Sorted(xs) ==> StrictlySorted(ys)
  {
    ys := [];
    for i := 0 to |xs|
      invariant |ys| <= i
      invariant forall x :: x in ys <==> x in xs[..i]
      invariant i > 0 ==> |ys| > 0 && ys[|ys| - 1] == xs[i - 1]
      invariant forall k :: 0 < k < |ys| ==> ys[k - 1] != ys[k]
      invariant Sorted(xs) ==> StrictlySorted(ys)
    {
      assert xs[..i + 1] == xs[..i] + [xs[i]];
      if ys == [] || ys[|ys| - 1] != xs[i] {
        if Sorted(xs) && ys != [] {
          var last := ys[|ys| - 1];
          BelowTotal(last, xs[i]);
          forall k | 0 <= k < |ys| - 1 ensures Below(ys[k], xs[i]) {
            BelowTransitive(ys[k], last, xs[i]);
          }
        }
        ys := ys + [xs[i]];
      }
    }
    assert xs[..|xs|] == xs;
  }

  /** A strictly sorted sequence holds each of its strings once. */
  lemma StrictlySortedDistinct(s: seq<string>, i: int, j: int)
    requires StrictlySorted(s)
    requires 0 <= i < |s| && 0 <= j < |s| && i != j
    ensures s[i] != s[j]
  {
    if i < j { BelowIrreflexive(s[i]); } else { BelowIrreflexive(s[j]); }
  }
}
