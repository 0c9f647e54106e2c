/**
  Label sets (`map[string]string` in the source) and the two ways the source
  turns one into a string: the sorted `k=v` pairs built by
  `endpointKeyToString` and `formatLabels`, and `fmt.Sprintf("%v", labels)`,
  which prints `map[k1:v1 k2:v2]` with the keys in sorted order.
 */
module Labels {
  import opened Wrappers
  import opened Strings
  import opened Sorting

  type Labels = map<string, string>

  /** `fmt.Sprintf("%s=%s", k, v)`. */
  function Pair(k: string, v: string): string
  {
    k + "=" + v
  }

  /** The pair of key `k` in `labels`, as a total function on keys. */
  function PairFn(labels: Labels): string -> string
  {
    k => Pair(k, if k in labels then labels[k] else "")
  }

  /** The `k=v` pairs of a label set, in the order `sort.Strings` leaves them. */
  function LabelPairs(labels: Labels): (r: seq<string>)
    ensures |r| == |labels|
    ensures forall p :: p in r <==> exists k | k in labels :: p == Pair(k, labels[k])
    ensures SortedBy(r, StringKey)
  {
    var keys := SortedElements(labels.Keys);
    var r := SortBy(Map(PairFn(labels), keys), StringKey);
    PairsOfKeys(labels, keys, r);
    r
  }

  /** A sorted copy of the pairs of every key holds one pair per key. */
  lemma PairsOfKeys(labels: Labels, keys: seq<string>, r: seq<string>)
    requires forall k :: k in keys <==> k in labels
    requires multiset(r) == multiset(Map(PairFn(labels), keys))
    ensures |r| == |keys|
    ensures forall p :: p in r <==> exists k | k in labels :: p == Pair(k, labels[k])
  {
    PermutationMembers(r, Map(PairFn(labels), keys));
    PairsOfEveryKey(labels, keys);
  }

  /** The pairs of a list of every key are the pairs of the label set. */
  lemma PairsOfEveryKey(labels: Labels, keys: seq<string>)
    requires forall k :: k in keys <==> k in labels
    ensures forall p :: p in Map(PairFn(labels), keys) <==> exists k | k in labels :: p == Pair(k, labels[k])
  {
    var m := Map(PairFn(labels), keys);
    forall p | p in m ensures exists k | k in labels :: p == Pair(k, labels[k]) {
      var i :| 0 <= i < |m| && m[i] == p;
      assert keys[i] in labels;
      assert p == Pair(keys[i], labels[keys[i]]);
    }
    forall k | k in labels ensures Pair(k, labels[k]) in m {
      var i :| 0 <= i < |keys| && keys[i] == k;
      assert m[i] == Pair(k, labels[k]);
    }
  }

  /**
    Go visits the entries of a map in an unspecified order. Whatever order
    the keys are visited in, collecting their pairs and sorting them gives
    `LabelPairs`.
   */
  lemma PairsAnyOrder(labels: Labels, order: seq<string>)
    requires NoDup(order)
    requires forall k :: k in order <==> k in labels
    ensures SortBy(Map(PairFn(labels), order), StringKey) == LabelPairs(labels)
  {
    var keys := SortedElements(labels.Keys);
    StrictlySortedNoDup(keys, StringKey);
    NoDupSameElements(order, keys);
    MapPermutation(PairFn(labels), order, keys);
    var a := SortBy(Map(PairFn(labels), order), StringKey);
    SortedUnique(a, LabelPairs(labels), StringKey);
  }

  /** One entry as `%v` prints it: `k:v`. */
  function EntryFn(labels: Labels): string -> string
  {
    k => k + ":" + (if k in labels then labels[k] else "")
  }

  /** `fmt.Sprintf("%v", labels)`: `map[` and `]` around the `k:v` entries,
      sorted by key and separated by single spaces. */
  function FormatMap(labels: Labels): (s: string)
    ensures |s| >= 4 && s[..4] == "map[" && s[|s| - 1] == ']'
    ensures |labels| == 0 <==> s == "map[]"
  {
    var entries := Map(EntryFn(labels), SortedElements(labels.Keys));
    var body := Join(entries, " ");
    assert |labels| > 0 ==> |body| > 0 by {
      if |labels| > 0 {
        JoinNonEmpty(entries, " ");
      }
    }
    "map[" + body + "]"
  }

  /** The first of `keys` that is present in `labels`, if any. */
  function FirstPresent(labels: Labels, keys: seq<string>): (r: Option<string>)
    ensures r.Some? ==> r.value in labels && r.value in keys
    ensures r.None? <==> forall k | k in keys :: k !in labels
  {
    if |keys| == 0 then None
    else if keys[0] in labels then Some(keys[0])
    else FirstPresent(labels, keys[1..])
  }

  /** The lookup loop over a list of preferred keys: the value of the first
      key that is present. */
  method LookupFirst(labels: Labels, keys: seq<string>) returns (r: Option<string>)
    ensures r.Some? <==> FirstPresent(labels, keys).Some?
    ensures r.Some? ==> r.value == labels[FirstPresent(labels, keys).value]
  {
    for i := 0 to |keys|
      invariant FirstPresent(labels, keys) == FirstPresent(labels, keys[i..])
    {
      assert keys[i..][1..] == keys[i + 1..];
      if keys[i] in labels {
        return Some(labels[keys[i]]);
      }
    }
    return None;
  }

  /** The value met first when ranging over a Go map, if it has any: the
      language leaves the order unspecified, so this is some label's value. */
  method AnyValue(labels: Labels) returns (v: Option<string>)
    ensures v.None? <==> |labels| == 0
    ensures v.Some? ==> v.value in labels.Values
  {
    if |labels| == 0 {
      return None;
    }
    var k :| k in labels;
    return Some(labels[k]);
  }
}
