/**
  The library sorts the source relies on (`sort.Slice`, `sort.Strings`) and
  the sequence facts needed to reason about them. Every comparator in the
  source orders by one string, or by a first string and then a second one,
  so a sort key is a pair of strings compared lexicographically with Go's
  string order. `SortBy` is an insertion sort: it promises only what the
  library promises, a sorted permutation of its input.
 */
module Sorting {
  import opened Strings

  type SortKey = (string, string)

  /** The comparators of the source: first component, then second. */
  predicate KeyLess(a: SortKey, b: SortKey)
  {
    Less(a.0, b.0) || (a.0 == b.0 && Less(a.1, b.1))
  }

  predicate KeyLessEq(a: SortKey, b: SortKey)
  {
    a == b || KeyLess(a, b)
  }

  /** Key of a comparator that orders by one string only. */
  function StringKey(s: string): SortKey
  {
    (s, "")
  }

  lemma KeyLessTransitive(a: SortKey, b: SortKey, c: SortKey)
    requires KeyLessEq(a, b) && KeyLessEq(b, c)
    ensures KeyLessEq(a, c)
    ensures KeyLess(a, b) || KeyLess(b, c) ==> KeyLess(a, c)
  {
    if KeyLess(a, b) && KeyLess(b, c) {
      if Less(a.0, b.0) && Less(b.0, c.0) {
        LessTransitive(a.0, b.0, c.0);
      } else if a.0 == b.0 && b.0 == c.0 {
        LessTransitive(a.1, b.1, c.1);
      }
    }
    if KeyLess(a, b) || KeyLess(b, c) {
      if a == c {
        LessIrreflexive(a.0);
        if Less(a.0, b.0) && Less(b.0, c.0) {
          LessAsymmetric(a.0, b.0);
        }
        if a.0 == b.0 && b.0 == c.0 {
          LessAsymmetric(a.1, b.1);
        }
      }
    }
  }

  lemma KeyLessTotal(a: SortKey, b: SortKey)
    ensures KeyLessEq(a, b) || KeyLess(b, a)
  {
    LessTotal(a.0, b.0);
    LessTotal(a.1, b.1);
  }

  lemma KeyLessAntisymmetric(a: SortKey, b: SortKey)
    requires KeyLessEq(a, b) && KeyLessEq(b, a)
    ensures a == b
  {
    if a != b {
      if Less(a.0, b.0) {
        LessAsymmetric(a.0, b.0);
        LessIrreflexive(a.0);
      } else {
        LessAsymmetric(a.1, b.1);
        LessIrreflexive(a.0);
      }
    }
  }

  ghost predicate SortedBy<T>(s: seq<T>, key: T -> SortKey)
  {
    forall i, j | 0 <= i < j < |s| :: KeyLessEq(key(s[i]), key(s[j]))
  }

  ghost predicate StrictlySortedBy<T>(s: seq<T>, key: T -> SortKey)
  {
    forall i, j | 0 <= i < j < |s| :: KeyLess(key(s[i]), key(s[j]))
  }

  ghost predicate NoDup<T>(s: seq<T>)
  {
    forall i, j | 0 <= i < j < |s| :: s[i] != s[j]
  }

  /** A new element keeps a sequence free of duplicates. */
  lemma NoDupSnoc<T>(s: seq<T>, x: T)
    requires NoDup(s) && x !in s
    ensures NoDup(s + [x])
  {
  }

  /** `f` applied to every element. */
  function Map<T, U>(f: T -> U, s: seq<T>): (r: seq<U>)
    ensures |r| == |s|
    ensures forall i | 0 <= i < |s| :: r[i] == f(s[i])
  {
    if |s| == 0 then [] else [f(s[0])] + Map(f, s[1..])
  }

  lemma MapSnoc<T, U>(f: T -> U, s: seq<T>, x: T)
    ensures Map(f, s + [x]) == Map(f, s) + [f(x)]
  {
    assert forall i | 0 <= i < |s| :: (s + [x])[i] == s[i];
  }

  /** Places `x` before the first element whose key is not smaller. */
  function Insert<T>(x: T, s: seq<T>, key: T -> SortKey): (r: seq<T>)
    requires SortedBy(s, key)
    ensures SortedBy(r, key)
    ensures multiset(r) == multiset(s) + multiset{x}
  {
    if |s| == 0 then [x]
    else if KeyLessEq(key(x), key(s[0])) then
      FirstBelowAll(x, s, key);
      ConsSorted(x, s, key);
      [x] + s
    else
      var rest := Insert(x, s[1..], key);
      HeadTail(s);
      KeyLessTotal(key(x), key(s[0]));
      HeadBelowInserted(x, s, rest, key);
      ConsSorted(s[0], rest, key);
      [s[0]] + rest
  }

  /** An element below the head of a sorted sequence is below all of it. */
  lemma FirstBelowAll<T>(x: T, s: seq<T>, key: T -> SortKey)
    requires SortedBy(s, key) && |s| > 0 && KeyLessEq(key(x), key(s[0]))
    ensures forall j | 0 <= j < |s| :: KeyLessEq(key(x), key(s[j]))
  {
    forall j | 0 < j < |s| ensures KeyLessEq(key(x), key(s[j])) {
      KeyLessTransitive(key(x), key(s[0]), key(s[j]));
    }
  }

  /** The head of a sorted sequence is below every element of the rest
      with `x` inserted, when it is below `x`. */
  lemma HeadBelowInserted<T>(x: T, s: seq<T>, rest: seq<T>, key: T -> SortKey)
    requires SortedBy(s, key) && |s| > 0 && KeyLessEq(key(s[0]), key(x))
    requires multiset(rest) == multiset(s[1..]) + multiset{x}
    ensures forall j | 0 <= j < |rest| :: KeyLessEq(key(s[0]), key(rest[j]))
  {
    forall j | 0 <= j < |rest| ensures KeyLessEq(key(s[0]), key(rest[j])) {
      assert rest[j] in multiset(rest);
      if rest[j] != x {
        assert rest[j] in multiset(s[1..]);
        var k :| 0 <= k < |s[1..]| && s[1..][k] == rest[j];
        assert s[k + 1] == rest[j];
      }
    }
  }

  /** An element below every element of a sorted sequence can go first. */
  lemma ConsSorted<T>(y: T, s: seq<T>, key: T -> SortKey)
    requires SortedBy(s, key)
    requires forall j | 0 <= j < |s| :: KeyLessEq(key(y), key(s[j]))
    ensures SortedBy([y] + s, key)
  {
    var r := [y] + s;
    forall i, j | 0 <= i < j < |r| ensures KeyLessEq(key(r[i]), key(r[j])) {
      if i > 0 {
        assert r[i] == s[i - 1] && r[j] == s[j - 1];
      } else {
        assert r[j] == s[j - 1];
      }
    }
  }

  /** `sort.Slice` / `sort.Strings`: a sorted permutation of the input. */
  function SortBy<T>(s: seq<T>, key: T -> SortKey): (r: seq<T>)
    ensures SortedBy(r, key)
    ensures multiset(r) == multiset(s)
  {
    if |s| == 0 then []
    else
      assert s == [s[0]] + s[1..];
      Insert(s[0], SortBy(s[1..], key), key)
  }

  /** When no two distinct elements share a key, the sorted order of a
      multiset is unique: the result of a sort does not depend on the order
      its input came in. */
  lemma {:induction false} SortedUnique<T>(a: seq<T>, b: seq<T>, key: T -> SortKey)
    requires SortedBy(a, key) && SortedBy(b, key)
    requires multiset(a) == multiset(b)
    requires forall i, j | 0 <= i < |a| && 0 <= j < |a| && key(a[i]) == key(a[j]) :: a[i] == a[j]
    ensures a == b
  {
    if |a| == 0 {
      assert |multiset(b)| == 0;
    } else {
      assert |b| == |multiset(b)| == |multiset(a)| == |a|;
      assert a[0] in multiset(b);
      var j :| 0 <= j < |b| && b[j] == a[0];
      assert b[0] in multiset(a);
      var i :| 0 <= i < |a| && a[i] == b[0];
      assert KeyLessEq(key(b[0]), key(b[j]));
      assert KeyLessEq(key(a[0]), key(a[i]));
      KeyLessAntisymmetric(key(a[0]), key(b[0]));
      assert a[0] == a[i] == b[0];
      var a', b' := a[1..], b[1..];
      SameTail(a, b);
      assert forall i, j | 0 <= i < |a'| && 0 <= j < |a'| && key(a'[i]) == key(a'[j]) :: a'[i] == a'[j] by {
        forall i, j | 0 <= i < |a'| && 0 <= j < |a'| && key(a'[i]) == key(a'[j]) ensures a'[i] == a'[j] {
          assert a'[i] == a[i + 1] && a'[j] == a[j + 1];
        }
      }
      SortedUnique(a', b', key);
    }
  }

  /** A single string sorts to itself. */
  lemma SingletonElements(k: string)
    ensures SortedElements({k}) == [k]
  {
    var r := SortedElements({k});
    assert |r| == 1 && r[0] in {k};
  }

  /** Two elements whose keys differ are sorted into key order, whichever
      order they came in. */
  lemma SortTwo<T>(x: T, y: T, key: T -> SortKey)
    requires KeyLess(key(x), key(y))
    ensures SortBy([x, y], key) == [x, y] && SortBy([y, x], key) == [x, y]
  {
    SortPairTo([x, y], x, y, key);
    assert multiset([y, x]) == multiset([x, y]);
    SortPairTo([y, x], x, y, key);
  }

  /** Any arrangement of two elements with different keys sorts into key
      order. */
  lemma SortPairTo<T>(s: seq<T>, x: T, y: T, key: T -> SortKey)
    requires KeyLess(key(x), key(y)) && multiset(s) == multiset([x, y])
    ensures SortBy(s, key) == [x, y]
  {
    LessIrreflexive(key(x).0);
    LessIrreflexive(key(x).1);
    var p := [x, y];
    assert key(x) != key(y);
    assert SortedBy(p, key);
    assert forall i, j | 0 <= i < |p| && 0 <= j < |p| && key(p[i]) == key(p[j]) :: p[i] == p[j];
    SortedUnique(p, SortBy(s, key), key);
  }

  /** An element occurs once in a sequence without duplicates. */
  lemma {:induction false} NoDupMultiplicity<T>(s: seq<T>)
    requires NoDup(s)
    ensures forall x :: multiset(s)[x] == if x in s then 1 else 0
  {
    if |s| > 0 {
      NoDupMultiplicity(s[1..]);
      assert s == [s[0]] + s[1..];
      assert s[0] !in s[1..];
    }
  }

  /** Reordering keeps a sequence free of duplicates. */
  lemma NoDupPermutation<T>(a: seq<T>, b: seq<T>)
    requires NoDup(a) && multiset(a) == multiset(b)
    ensures NoDup(b)
  {
    NoDupMultiplicity(a);
    forall i, j | 0 <= i < j < |b| ensures b[i] != b[j] {
      CountTwoPositions(b, i, j);
      assert b[i] in multiset(a);
    }
  }

  /** An element occurs at least once, and twice if it also sits at a later
      position. */
  lemma CountTwoPositions<T>(b: seq<T>, i: nat, j: nat)
    requires i < j < |b|
    ensures multiset(b)[b[i]] >= 1 + (if b[j] == b[i] then 1 else 0)
  {
    assert b == b[..j] + b[j..];
    assert b[i] in multiset(b[..j]);
    assert b[j..][0] == b[j];
  }

  /** Two duplicate-free sequences with the same elements are permutations
      of each other. */
  lemma NoDupSameElements<T>(a: seq<T>, b: seq<T>)
    requires NoDup(a) && NoDup(b)
    requires forall x :: x in a <==> x in b
    ensures multiset(a) == multiset(b)
  {
    NoDupMultiplicity(a);
    NoDupMultiplicity(b);
    assert forall x :: multiset(a)[x] == multiset(b)[x];
  }

  /** Mapping a function over two permutations of each other gives two
      permutations of each other. */
  lemma {:induction false} MapPermutation<T, U>(f: T -> U, a: seq<T>, b: seq<T>)
    requires multiset(a) == multiset(b)
    ensures multiset(Map(f, a)) == multiset(Map(f, b))
  {
    if |a| == 0 {
      assert |multiset(b)| == 0;
      assert b == [];
    } else {
      var x := a[0];
      assert x in multiset(b);
      var j :| 0 <= j < |b| && b[j] == x;
      var b' := b[..j] + b[j + 1..];
      DropMatching(a, b, j);
      MapPermutation(f, a[1..], b');
      MapAroundAt(f, a, 0);
      assert a[..0] + a[1..] == a[1..];
      MapAroundAt(f, b, j);
    }
  }

  /** The image of a sequence is the image of one element plus the image
      of the rest. */
  lemma MapAround<T, U>(f: T -> U, l: seq<T>, x: T, r: seq<T>)
    ensures multiset(Map(f, l + [x] + r)) == multiset{f(x)} + multiset(Map(f, l + r))
  {
    MapConcat(f, l + [x], r);
    MapConcat(f, l, [x]);
    MapConcat(f, l, r);
  }

  /** The same, for the element at position `j`. */
  lemma MapAroundAt<T, U>(f: T -> U, s: seq<T>, j: nat)
    requires j < |s|
    ensures multiset(Map(f, s)) == multiset{f(s[j])} + multiset(Map(f, s[..j] + s[j + 1..]))
  {
    Around(s, j);
    MapAround(f, s[..j], s[j], s[j + 1..]);
  }

  lemma Around<T>(s: seq<T>, j: nat)
    requires j < |s|
    ensures s == s[..j] + [s[j]] + s[j + 1..]
  {
  }

  /** Mapping distributes over concatenation. */
  lemma MapConcat<T, U>(f: T -> U, s: seq<T>, t: seq<T>)
    ensures Map(f, s + t) == Map(f, s) + Map(f, t)
  {
  }

  /** Removing the first element of `a` and a matching element of `b` from
      two permutations of each other leaves two permutations. */
  lemma DropMatching<T>(a: seq<T>, b: seq<T>, j: nat)
    requires |a| > 0 && j < |b| && b[j] == a[0]
    requires multiset(a) == multiset(b)
    ensures multiset(a[1..]) == multiset(b[..j] + b[j + 1..])
  {
    HeadTail(a);
    Around(b, j);
    var rest := multiset(b[..j] + b[j + 1..]);
    assert multiset(b) == multiset{a[0]} + rest;
    assert forall y :: multiset(a[1..])[y] == multiset(a)[y] - multiset{a[0]}[y] == rest[y];
  }

  /** Some element of a non-empty sequence satisfies `p` exactly when some
      element before the last one does or the last one does. */
  lemma ExistsSnoc<T>(s: seq<T>, p: T -> bool)
    requires |s| > 0
    ensures (exists i | 0 <= i < |s| :: p(s[i])) <==>
      (exists i | 0 <= i < |s| - 1 :: p(s[i])) || p(s[|s| - 1])
  {
  }

  lemma MultisetMapSnoc<T, U>(f: T -> U, s: seq<T>, x: T)
    ensures multiset(Map(f, s + [x])) == multiset(Map(f, s)) + multiset{f(x)}
  {
    MapSnoc(f, s, x);
  }

  /** The image of one more element of a prefix. */
  lemma MapPrefixSnoc<T, U>(f: T -> U, s: seq<T>, i: nat)
    requires i < |s|
    ensures Map(f, s[..i + 1]) == Map(f, s[..i]) + [f(s[i])]
  {
    assert s[..i + 1] == s[..i] + [s[i]];
    MapSnoc(f, s[..i], s[i]);
  }

  lemma MapPrefixAll<T, U>(f: T -> U, s: seq<T>)
    ensures Map(f, s[..|s|]) == Map(f, s)
  {
    assert s[..|s|] == s;
  }

  /** Two permutations of each other have the same length and the same
      elements. */
  lemma PermutationMembers<T>(a: seq<T>, b: seq<T>)
    requires multiset(a) == multiset(b)
    ensures |a| == |b| && forall x :: x in a <==> x in b
  {
    assert |a| == |multiset(a)|;
    forall x ensures x in a <==> x in b {
      assert x in a <==> x in multiset(a);
      assert x in b <==> x in multiset(b);
    }
  }

  /** Two permutations of each other that start alike continue alike. */
  lemma SameTail<T>(a: seq<T>, b: seq<T>)
    requires |a| > 0 && |b| > 0 && a[0] == b[0]
    requires multiset(a) == multiset(b)
    ensures multiset(a[1..]) == multiset(b[1..])
  {
    DropMatching(a, b, 0);
    assert b[..0] + b[1..] == b[1..];
  }

  predicate IsMinimum(m: string, s: set<string>)
  {
    m in s && forall x | x in s :: LessEq(m, x)
  }

  lemma {:induction false} MinimumExists(s: set<string>)
    requires s != {}
    ensures exists m :: IsMinimum(m, s)
    decreases s
  {
    var x :| x in s;
    if s != {x} {
      MinimumExists(s - {x});
      var m :| IsMinimum(m, s - {x});
      LessTotal(m, x);
      if Less(x, m) {
        forall y | y in s ensures LessEq(x, y) {
          if y != x && y != m {
            assert y in s - {x};
            LessTransitive(x, m, y);
          }
        }
        assert IsMinimum(x, s);
      } else {
        assert m in s - {x};
        assert LessEq(m, x);
        forall y | y in s ensures LessEq(m, y) {
          if y != x {
            assert y in s - {x};
          }
        }
        assert IsMinimum(m, s);
      }
    } else {
      assert IsMinimum(x, s);
    }
  }

  lemma MinimumUnique(s: set<string>)
    ensures forall m, m' | IsMinimum(m, s) && IsMinimum(m', s) :: m == m'
  {
    forall m, m' | IsMinimum(m, s) && IsMinimum(m', s) ensures m == m' {
      if m != m' {
        LessAsymmetric(m, m');
      }
    }
  }

  /** The elements of a set of strings in increasing order, each once: what
      collecting the keys of a Go map and calling `sort.Strings` yields. */
  function SortedElements(s: set<string>): (r: seq<string>)
    ensures forall x :: x in r <==> x in s
    ensures StrictlySortedBy(r, StringKey)
    ensures |r| == |s|
    decreases s
  {
    if s == {} then []
    else
      MinimumExists(s);
      MinimumUnique(s);
      var m :| IsMinimum(m, s);
      var rest := SortedElements(s - {m});
      MinimumFirst(s, m, rest);
      [m] + rest
  }

  /** The minimum followed by the other elements in increasing order lists
      the set in increasing order. */
  lemma MinimumFirst(s: set<string>, m: string, rest: seq<string>)
    requires IsMinimum(m, s)
    requires forall x :: x in rest <==> x in s - {m}
    requires StrictlySortedBy(rest, StringKey) && |rest| == |s - {m}|
    ensures forall x :: x in [m] + rest <==> x in s
    ensures StrictlySortedBy([m] + rest, StringKey)
    ensures |[m] + rest| == |s|
  {
    var r := [m] + rest;
    forall j | 0 <= j < |rest| ensures Less(m, rest[j]) {
      assert rest[j] in s - {m};
    }
    forall i, j | 0 <= i < j < |r| ensures KeyLess(StringKey(r[i]), StringKey(r[j])) {
      assert r[j] == rest[j - 1];
      if i > 0 {
        assert r[i] == rest[i - 1];
      }
    }
  }

  /** `sort.Strings` on the elements of a set listed in any order, each
      once, gives the sorted elements. */
  lemma SortAnyOrder(s: set<string>, order: seq<string>)
    requires NoDup(order) && forall x :: x in order <==> x in s
    ensures SortBy(order, StringKey) == SortedElements(s)
  {
    var sorted := SortedElements(s);
    StrictlySortedNoDup(sorted, StringKey);
    NoDupSameElements(order, sorted);
    SortedUnique(SortBy(order, StringKey), sorted, StringKey);
  }

  lemma StrictlySortedNoDup<T>(s: seq<T>, key: T -> SortKey)
    requires StrictlySortedBy(s, key)
    ensures NoDup(s)
  {
    forall i, j | 0 <= i < j < |s| ensures s[i] != s[j] {
      if s[i] == s[j] {
        LessIrreflexive(key(s[i]).0);
        LessIrreflexive(key(s[i]).1);
      }
    }
  }
}
