/**
 * DefaultMapping: how a flag name becomes the environment variable name
 * FillFlagsLookup looks up: the prefix and the name joined, upper-cased, with
 * every '-' turned into '_'.
 */
module Mapping {
  import opened Text

  /** One character of a mapped name: '-' becomes '_', ASCII letters are upper-cased. */
  function MapChar(c: char): char {
    if c == '-' then '_' else UpperChar(c)
  }

  /** The variable name for flag `name` under `prefix`. */
  function DefaultMapping(prefix: string, name: string): (r: string)
    ensures |r| == |prefix| + |name|
    ensures forall i :: 0 <= i < |r| ==> '-' != r[i] && !('a' <= r[i] <= 'z')
    ensures forall i :: 0 <= i < |r| ==> r[i] == MapChar((prefix + name)[i])
  {
    ReplaceChar(ToUpper(prefix + name), '-', '_')
  }

  /** Mapping an already mapped name changes nothing. */
  lemma DefaultMappingIdempotent(prefix: string, name: string)
    ensures DefaultMapping("", DefaultMapping(prefix, name)) == DefaultMapping(prefix, name)
  {
    var r := DefaultMapping(prefix, name);
    assert "" + r == r;
    var rr := DefaultMapping("", r);
    forall i | 0 <= i < |r| ensures rr[i] == r[i] {
      MapCharIdempotent((prefix + name)[i]);
    }
  }

  lemma MapCharIdempotent(c: char)
    ensures MapChar(MapChar(c)) == MapChar(c)
  {
  }

  /** The prefix is mapped on its own: mapping `prefix + name` maps each part separately. */
  lemma DefaultMappingSplits(prefix: string, name: string)
    ensures DefaultMapping(prefix, name) == DefaultMapping("", prefix) + DefaultMapping("", name)
  {
    assert "" + prefix == prefix && "" + name == name;
    ToUpperAppend(prefix, name);
    ReplaceCharAppend(ToUpper(prefix), ToUpper(name), '-', '_');
  }
}
