# envy: environment variables into structured configuration

This project models the core of `envy`, a small Go package that reads configuration
from environment variables. It covers four parts of `envy.go`:

- **DefaultMapping** turns a flag name into an environment-variable name. It adds a
  prefix, upper-cases the result and replaces `-` by `_`.
- **FilterPrefix** builds the name classifier. The classifier strips a prefix from a
  variable name and lower-cases the rest. It then reports the variable as one of four
  kinds:
  - a *map entry*, when the rest starts with one of the recognised map names and `_`;
  - an *array element*, when it ends in `_` followed by zero or more decimal digits;
  - a plain *string*;
  - *unknown*, when the prefix is missing.
- **FillMap** folds an environment listing (`name=value` strings) through a
  classifier. It collects every recognised variable into a mapping from field name to
  a string, a slice of strings or a map of strings. When one field is seen with
  different shapes, the later shape wins and the earlier value is lost.
- **MapEnv** is the in-memory environment store: one map from name to value, read and
  updated in place. **NewMapEnv** copies a map into a new store.

Modules:

- `Text` covers the string primitives: ASCII case mapping, `Cut`, last index, and
  decimal digit strings.
- `Lex` covers the sorting and compaction of the recognised map names.
- `Classifier` covers FilterPrefix and the closure it returns.
- `Filler` covers FillMap: the specification fold `Fill` and the loop that computes it.
- `Store` covers MapEnv.
- `Mapping` covers DefaultMapping.
- `Listing` states what FillMap yields for any MapEnv, whatever order `Environ` lists
  the entries in.
- `Cases` works out the three `TestFillMap` tables of `envy_test.go` end to end, for
  every listing order.

`FilterPrefix` returns a closure, and its captured state is modelled as the `Filter`
datatype (`prefix` and the sorted, compacted `lowerMap`). `Classify(f, s)` is what the
closure returns for `s`, and `Closure(f)` is the closure as a Dafny function value.
`FillMap` accepts any classifier (`FilterFn`) whose index is non-negative and whose kind is one of the four constants.

## Model

| member | source | states |
|---|---|---|
| Mapping.DefaultMapping | envy.go:25-30 | the result has the length of prefix+name; each character is the upper-cased input character, or `_` for `-`; the result contains no `-` and no lower-case letter |
| Mapping.DefaultMappingIdempotent | envy.go:25-30 | mapping an already mapped name again (empty prefix) leaves it unchanged |
| Mapping.DefaultMappingSplits | envy.go:25-30 | mapping prefix+name equals mapping the prefix followed by mapping the name |
| Text.ToLower | envy.go:87 | same length; every character is lower-cased (ASCII) |
| Text.ToUpper | envy.go:28 | same length; every character is upper-cased (ASCII) |
| Text.ReplaceChar | envy.go:28 | same length; exactly the occurrences of `from` become `to` |
| Text.ToLowerIdempotent | envy.go:97 | lower-casing twice is lower-casing once |
| Text.ToLowerAppend | envy.go:97 | lower-casing distributes over concatenation |
| Text.ToUpperAppend | envy.go:28 | upper-casing distributes over concatenation |
| Text.ReplaceCharAppend | envy.go:28 | replacement distributes over concatenation |
| Text.ToLowerDigits | envy.go:112-114 | digit strings, and `_` followed by digits, are unchanged by lower-casing |
| Text.ParseDigits | envy.go:114 | `strconv.Atoi` on the digits after the last `_`: their decimal value, 0 for no digits; Text.ParseDecimal and Text.ParseLeadingZero state what it inverts and ignores |
| Text.IndexOf | envy.go:127 | -1 exactly when the character is absent; otherwise the position of its first occurrence |
| Text.LastIndexOf | envy.go:113 | a position holding the character, or -1; no position after the result holds it, so -1 means it is absent and otherwise the result is its last occurrence |
| Text.Cut | envy.go:127 | found exactly when `=` occurs; the input is before + `=` + after, with no `=` in before; without `=` the whole input is the name and the value is "" |
| Text.CutJoin | envy.go:127 | cutting `k=v` at the first `=` gives back `k` and `v` when `k` has no `=` |
| Text.Decimal | envy.go:114 | the canonical decimal string of an index: only digits, non-empty, no leading zero |
| Text.ParseDecimal | envy.go:114 | parsing the decimal string of `n` gives back `n` |
| Text.ParseLeadingZero | envy.go:114 | a leading zero does not change the parsed index |
| Lex.BelowIrreflexive | envy.go:89 | the byte-wise string order is irreflexive |
| Lex.BelowTransitive | envy.go:89 | the byte-wise string order is transitive |
| Lex.BelowTotal | envy.go:89 | two different strings are ordered one way, and never both ways |
| Lex.PrefixBelow | envy.go:89 | a proper prefix sorts before the longer string |
| Lex.Insert | envy.go:89 | inserting into a sorted list keeps it sorted and adds exactly one copy of the element |
| Lex.SortStrings | envy.go:89 | the result is sorted and a permutation of the input |
| Lex.Compact | envy.go:90 | no longer than the input; the same members; no two equal neighbours; strictly sorted when the input was sorted |
| Lex.StrictlySortedDistinct | envy.go:90 | a strictly sorted list has no duplicates |
| Classifier.FilterPrefix | envy.go:83-91 | the classifier keeps the prefix; its map names are sorted without duplicates; a name is recognised exactly when it is the lower case of some requested map name |
| Classifier.Body | envy.go:97 | the part of a prefixed name that is classified: the prefix removed and the rest lower-cased |
| Classifier.MatchesArraySuffix | envy.go:112 | the pattern `_[0-9]*$` compiled at envy.go:84: some `_` is followed by nothing but digits up to the end |
| Classifier.FirstMatch | envy.go:101-108 | -1 exactly when no recognised name followed by `_` starts the body; otherwise the first such name in list order |
| Classifier.ArraySuffixAtLastUnderscore | envy.go:112-115 | the pattern `_[0-9]*$` matches exactly when the body has a `_` and everything after the last `_` is digits |
| Classifier.Classify | envy.go:92-96 | unknown exactly when the prefix is missing, and then the zero VarName |
| Classifier.ClassifySpec | envy.go:92-120 | a map entry exactly when some recognised name + `_` starts the lower-cased body, and then the body is name + `_` + key with name the first match; otherwise an array element exactly when the body matches `_[0-9]*$`, split at the last `_`, with the digits parsed as the index; otherwise a string whose name is the whole body |
| Classifier.EarlierMatchIsPrefix | envy.go:89-108 | in a strictly sorted list, of two names that both start the body followed by `_`, the earlier is a prefix of the later |
| Classifier.ClassifyMapPicksShortest | envy.go:89-108 | with sorted names, the chosen map name sorts at or before every other matching name |
| Classifier.ClassifyArrayRoundTrip | envy.go:112-116 | prefix + field + `_` + decimal index classifies as that lower-cased field and that index, unless a map name matches |
| Classifier.ClassifyStringRoundTrip | envy.go:117-118 | prefix + a field without `_` classifies as a string named by the lower-cased field |
| Classifier.ClassifyMapRoundTrip | envy.go:101-111 | prefix + a recognised name + `_` + key classifies as a map entry with that name and the lower-cased key, when no recognised name contains `_` |
| Classifier.MatchesWithoutUnderscore | envy.go:101-106 | two recognised names without `_` that both match one body are the same name |
| Filler.KeyOf | envy.go:127 | the name FillMap passes to the filter: the text before the first `=`, or the whole entry without one |
| Filler.ValueOf | envy.go:127 | the value FillMap stores: the text after the first `=`, or "" without one |
| Filler.KeyValueCut | envy.go:127 | the name and value FillMap reads from an entry are exactly the two halves `strings.Cut` returns at the first `=` |
| Filler.KeyOfJoin | envy.go:127 | an entry `k=v` whose `k` has no `=` reads back as name `k` and value `v`, whatever `v` holds |
| Filler.KeyOfPlain | envy.go:127 | an entry without `=` is read as a name equal to the whole entry with the empty value |
| Filler.SetIndex | envy.go:145-150 | the slice grows to index+1 when too short; the slot at index holds the value; earlier slots keep their contents; new slots are "" |
| Filler.ArrayBase | envy.go:135-143 | the slice an element is written into: the field's slice, an empty slice when the field is absent, `["[]"]` when it holds a string or a map |
| Filler.MapBase | envy.go:153-161 | the map an entry is written into: the field's map, or an empty map when the field is absent or holds another shape |
| Filler.Step | envy.go:127-164 | an unknown variable changes nothing; otherwise exactly the variable's field is added or replaced, every other field is kept; a string stores the value; an array element leaves a slice and a map entry leaves a map |
| Filler.Grow | envy.go:145-149 | the new slice has the requested size, starts with the old slice and is "" after it |
| Filler.PutElement | envy.go:134-150 | the element is written into the field's slice, or a new slice when the field is absent, or `["[]"]` when it holds another shape |
| Filler.FillEntry | envy.go:127-164 | one loop iteration computes Step |
| Filler.Fill | envy.go:124-167 | the fold of FillMap: the result after a listing is the result after all but its last entry, updated by that entry; its properties are Filler.FillKeys, Filler.FillArrayField and Filler.FillMapField |
| Filler.FillListing | envy.go:124-167 | the loop over a listing computes the fold Fill over that listing |
| Filler.FillMap | envy.go:124-167 | the result is Fill over a listing of the store's entries, as Environ gives it |
| Filler.FillKeys | envy.go:129-164 | a field is in the result exactly when some recognised variable names it |
| Filler.FillSkipsUnrecognised | envy.go:130-131 | removing a variable the classifier rejects does not change the result |
| Filler.FillLastStringWins | envy.go:132-133 | a string variable that no later variable touches determines its field: the field holds its value |
| Filler.FillArrayOverOther | envy.go:140-151 | an array element over a string or map value yields a slice of length index+1: `"[]"` first, "" between, the value last |
| Filler.FillMapOverOther | envy.go:158-163 | a map entry over a string or slice value yields a map with just that key |
| Filler.FillArrayField | envy.go:134-151 | when only array elements touch a field, it holds a slice whose length is one past the largest index; each written slot holds the value of the last variable writing it; every other slot is "" |
| Filler.FillMapField | envy.go:152-163 | when only map entries touch a field, it holds a map whose keys are exactly the keys written, each holding the value of the last variable writing it |
| Store.MapEnv.NewMapEnv | envy.go:221-227 | the new store holds exactly the given entries |
| Store.MapEnv.Getenv | envy.go:176-180 | the stored value, or "" when absent |
| Store.MapEnv.LookupEnv | envy.go:182-187 | found exactly when the key is stored, with the value Getenv gives |
| Store.MapEnv.Setenv | envy.go:188-193 | the key now holds the value; every other key is unchanged |
| Store.MapEnv.Unsetenv | envy.go:194-199 | the key is now absent; every other key is unchanged |
| Store.MapEnv.Clearenv | envy.go:201-205 | the store is empty: every lookup fails |
| Store.Join | envy.go:210 | `strings.Join([]string{k, v}, "=")`: the name, `=`, then the value |
| Store.MapEnv.Environ | envy.go:207-213 | one `k=v` string per stored entry, each key once, in some order; an empty store gives an empty list |
| Listing.ListingEntries | envy.go:127 | each listed entry cuts back into its stored key and value when names contain no `=` |
| Listing.EqualsInNameCutsEarly | envy.go:127 | a stored name that contains `=` is cut at its own `=`: the listed entry for name `A=B` and value `c` reads back as name `A` with value `B=c` |
| Listing.StoreFields | envy.go:124-167 | a field is in FillMap's result exactly when some stored variable is recognised with that field name, whatever the listing order, when no stored name contains `=` |
| Listing.StoreString | envy.go:132-133 | a string variable that is the only variable naming its field puts its value there, when no stored name contains `=` |
| Listing.StoreArray | envy.go:134-151 | when only array elements name a field and indices are distinct, the slice holds each element at its index, its last slot is the largest index, and every other slot is "", when no stored name contains `=` |
| Listing.StoreDenseArray | envy.go:134-151 | elements with indices 0..n-1 give exactly the slice of their values in index order, when no stored name contains `=` |
| Listing.StoreMap | envy.go:152-163 | when only map entries name a field and keys are distinct, its map has exactly those keys with their values, when no stored name contains `=` |
| Cases.AddrRecognised | envy.go:83-91 | FilterPrefix with the single name `addr` recognises exactly `addr` |
| Cases.StringsCase | envy_test.go:256-267 | the "only strings" store gives foo, bar and baz with their values, in every listing order |
| Cases.ArrayCase | envy_test.go:268-281 | the "array" store gives config and the four users in index order, in every listing order |
| Cases.MapCase | envy_test.go:282-296 | the "map" store gives config, the two users and the addr map, in every listing order |
| Cases.ConflictCase | envy.go:132-151 | `P_X=a` then `P_X_2=b` leaves `x` as `["[]", "", "b"]`: the string is dropped |
| Cases.OnlyStringsTable | envy_test.go:250-306 | NewMapEnv, FilterPrefix("TEST01_") and FillMap give the expected mapping |
| Cases.ArrayTable | envy_test.go:268-281 | NewMapEnv, FilterPrefix("TEST_") and FillMap give the expected mapping |
| Cases.MapTable | envy_test.go:282-296 | NewMapEnv, FilterPrefix("TEST_", "addr") and FillMap give the expected mapping |

## Left out

- OsEnv, FillFlags and FillFlagsLookup are not modelled. They pass the process environment and `flag.FlagSet` through to the Go runtime. Only DefaultMapping, the name mapping FillFlagsLookup uses, is modelled.
- Expand and ExpandEnv are not modelled, because they only call `os.Expand`.
- The `sync.RWMutex` in MapEnv is not modelled. Each method is one atomic step, so concurrent callers are not modelled either.
- Environ (envy.go:207-213) reads the map without taking the lock, unlike the other MapEnv methods. In Go it can therefore race with a concurrent Setenv, Unsetenv or Clearenv. The model, which has no concurrency, does not capture that race.
- The Listing lemmas hold for stores in which no name contains `=`. Setenv accepts such a name, and for it Environ's `k=v` is cut inside the name at envy.go:127, so FillMap sees a different name and value. Listing.EqualsInNameCutsEarly shows this on one entry.
- A zero `MapEnv{}` is not modelled. Its nil map would make Setenv panic in Go, and the model's stores are always built by NewMapEnv.
- Setenv and Unsetenv always return a nil error in Go, so the model's methods return nothing.
- Map iteration order in Environ and NewMapEnv is left open. Environ yields some order, witnessed by a ghost key list, and every property of FillMap is proved for all orders.
- Case mapping covers ASCII only. Go's `strings.ToLower` and `strings.ToUpper` also map non-ASCII letters.
- The regular expression `_[0-9]*$` is modelled by the predicate it denotes, not by a regexp engine.
- Classifier.Classify: the array index is an unbounded natural number. For a digit suffix at or above the largest `int` (9223372036854775807), the index is the largest `int`. Above it, `strconv.Atoi` returns the largest `int` together with a range error, and envy.go:114 drops that error. In both cases `name.Index+1` at envy.go:146 wraps to a negative length, and `make` panics. The model reads the exact value of the digits and does not capture the panic. It does not bound the slice that a large in-range index allocates either.
- Filler.FillMap: a filter in Go may return a negative `Index` with `VarTypeArray`. Then `len(z)-1 < name.Index` at envy.go:145 is false, and `z[name.Index] = value` at envy.go:150 panics. A filter may also return a `VarType` outside the four constants, and the switch at envy.go:129 then skips the entry. The model's `nat` index and four-constructor `VarType` exclude both cases. FilterPrefix's closure never produces either, because `Atoi` of a digit string is never negative.
- FillMap's `map[string]any` result is modelled by the three shapes it can hold (`Val`).
- Filler.FillMap: an array element over a field that holds a string or a map starts from `["[]"]`. At envy.go:142 `fmt.Sprint` is applied to the nil slice that the failed type assertion leaves, not to the old value. The comment "coerce string" there suggests the old string was meant to be kept. The model keeps `["[]"]`, as the code does; see Cases.ConflictCase.
- Lex.Compact is described by its members, its lack of equal neighbours and its preservation of sortedness. That determines its result on sorted input, which is the only input it receives.
