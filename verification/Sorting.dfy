/**
 Sorting of slices: the library sort as a stable insertion sort, and listings of a
 map by the key (stamp, id).
 */
module Sorting {
  import opened Text

  ghost predicate TotalPreorder<T(!new)>(le: (T, T) -> bool) {
    (forall x, y :: le(x, y) || le(y, x)) && (forall x, y, z :: le(x, y) && le(y, z) ==> le(x, z))
  }

  ghost predicate Sorted<T>(le: (T, T) -> bool, xs: seq<T>) {
    forall i, j :: 0 <= i < j < |xs| ==> le(xs[i], xs[j])
  }

  function Insert<T>(le: (T, T) -> bool, x: T, xs: seq<T>): seq<T> {
    if xs == [] || le(x, xs[0]) then [x] + xs else [xs[0]] + Insert(le, x, xs[1..])
  }

  function SortBy<T>(le: (T, T) -> bool, xs: seq<T>): seq<T> {
    if xs == [] then [] else Insert(le, xs[0], SortBy(le, xs[1..]))
  }

  lemma {:induction false} InsertPermutes<T>(le: (T, T) -> bool, x: T, xs: seq<T>)
    ensures multiset(Insert(le, x, xs)) == multiset([x]) + multiset(xs)
  {
    if xs != [] && !le(x, xs[0]) {
      InsertPermutes(le, x, xs[1..]);
      assert xs == [xs[0]] + xs[1..];
    }
  }

  lemma {:induction false} SortPermutes<T>(le: (T, T) -> bool, xs: seq<T>)
    ensures multiset(SortBy(le, xs)) == multiset(xs) && |SortBy(le, xs)| == |xs|
  {
    if xs != [] {
      SortPermutes(le, xs[1..]);
      InsertPermutes(le, xs[0], SortBy(le, xs[1..]));
      assert xs == [xs[0]] + xs[1..];
      assert |multiset(SortBy(le, xs))| == |xs|;
    }
  }

  lemma {:induction false} InsertSorts<T(!new)>(le: (T, T) -> bool, x: T, xs: seq<T>)
    requires TotalPreorder(le) && Sorted(le, xs)
    ensures Sorted(le, Insert(le, x, xs))
  {
    if xs != [] && !le(x, xs[0]) {
      InsertSorts(le, x, xs[1..]);
      var rest := Insert(le, x, xs[1..]);
      InsertPermutes(le, x, xs[1..]);
      forall i | 0 <= i < |rest|
        ensures le(xs[0], rest[i])
      {
        assert rest[i] in multiset(rest);
        assert rest[i] == x || rest[i] in xs[1..];
      }
    }
  }

  lemma {:induction false} SortSorts<T(!new)>(le: (T, T) -> bool, xs: seq<T>)
    requires TotalPreorder(le)
    ensures Sorted(le, SortBy(le, xs))
  {
    if xs != [] {
      SortSorts(le, xs[1..]);
      InsertSorts(le, xs[0], SortBy(le, xs[1..]));
    }
  }

  /** A sorted slice is left as it is. */
  lemma {:induction false} SortFixes<T>(le: (T, T) -> bool, xs: seq<T>)
    requires Sorted(le, xs)
    ensures SortBy(le, xs) == xs
  {
    if xs != [] {
      SortFixes(le, xs[1..]);
    }
  }

  lemma {:induction false} InsertKeeps<T>(le: (T, T) -> bool, x: T, xs: seq<T>, i: nat, j: nat) returns (p: nat, q: nat)
    requires i < j < |xs|
    ensures p < q < |Insert(le, x, xs)| && Insert(le, x, xs)[p] == xs[i] && Insert(le, x, xs)[q] == xs[j]
  {
    if le(x, xs[0]) {
      return i + 1, j + 1;
    }
    if i == 0 {
      q := InsertHolds(le, x, xs[1..], j - 1);
      p, q := 0, q + 1;
    } else {
      p, q := InsertKeeps(le, x, xs[1..], i - 1, j - 1);
      p, q := p + 1, q + 1;
    }
  }

  lemma {:induction false} InsertHolds<T>(le: (T, T) -> bool, x: T, xs: seq<T>, j: nat) returns (q: nat)
    requires j < |xs|
    ensures q < |Insert(le, x, xs)| && Insert(le, x, xs)[q] == xs[j]
  {
    if le(x, xs[0]) {
      return j + 1;
    }
    if j == 0 {
      return 0;
    }
    q := InsertHolds(le, x, xs[1..], j - 1);
    q := q + 1;
  }

  lemma {:induction false} InsertComesFirst<T>(le: (T, T) -> bool, x: T, xs: seq<T>, j: nat) returns (p: nat, q: nat)
    requires j < |xs| && le(x, xs[j])
    ensures p < q < |Insert(le, x, xs)| && Insert(le, x, xs)[p] == x && Insert(le, x, xs)[q] == xs[j]
  {
    if le(x, xs[0]) {
      return 0, j + 1;
    }
    p, q := InsertComesFirst(le, x, xs[1..], j - 1);
    p, q := p + 1, q + 1;
  }

  /** The sort is stable: what may stand in the order it came in does. */
  lemma {:induction false} SortStable<T>(le: (T, T) -> bool, xs: seq<T>, i: nat, j: nat) returns (p: nat, q: nat)
    requires i < j < |xs| && le(xs[i], xs[j])
    ensures p < q < |SortBy(le, xs)| && SortBy(le, xs)[p] == xs[i] && SortBy(le, xs)[q] == xs[j]
  {
    var rest := SortBy(le, xs[1..]);
    hide Insert;
    if i == 0 {
      SortMembers(le, xs[1..], xs[1..][j - 1]);
      var k :| 0 <= k < |rest| && rest[k] == xs[j];
      p, q := InsertComesFirst(le, xs[0], rest, k);
    } else {
      p, q := SortStable(le, xs[1..], i - 1, j - 1);
      p, q := InsertKeeps(le, xs[0], rest, p, q);
    }
  }

  lemma SortMembers<T>(le: (T, T) -> bool, xs: seq<T>, x: T)
    ensures x in SortBy(le, xs) <==> x in xs
  {
    SortPermutes(le, xs);
    assert x in SortBy(le, xs) <==> x in multiset(SortBy(le, xs));
    assert x in xs <==> x in multiset(xs);
  }

  /** The keys of a set in some order: a Go map is ranged over in no particular order. */
  method Enumerate<K(==)>(keys: set<K>) returns (out: seq<K>)
    ensures forall k :: k in out <==> k in keys
    ensures forall i, j :: 0 <= i < j < |out| ==> out[i] != out[j]
  {
    var rest := keys;
    out := [];
    while rest != {}
      invariant rest <= keys
      invariant forall k :: k in out <==> k in keys && k !in rest
      invariant forall i, j :: 0 <= i < j < |out| ==> out[i] != out[j]
      decreases rest
    {
      var k :| k in rest;
      out := out + [k];
      rest := rest - {k};
    }
  }

  // ------------------------------------------------- listings by (stamp, id)

  datatype Key = Key(stamp: int, id: string)

  predicate KeyLess(a: Key, b: Key) {
    if a.stamp != b.stamp then a.stamp < b.stamp else Less(a.id, b.id)
  }

  predicate KeyAtMost(a: Key, b: Key) {
    a == b || KeyLess(a, b)
  }

  /** `x` is stored in `m`, under its own id. */
  predicate Stored<T(==)>(key: T -> Key, m: map<string, T>, x: T) {
    key(x).id in m && m[key(x).id] == x
  }

  /** `out` holds exactly the stored values, in strictly ascending key order. */
  ghost predicate Listing<T(!new)>(key: T -> Key, m: map<string, T>, out: seq<T>) {
    && (forall x :: x in out <==> Stored(key, m, x))
    && (forall i, j :: 0 <= i < j < |out| ==> KeyLess(key(out[i]), key(out[j])))
  }

  lemma KeyOrder(a: Key, b: Key, c: Key)
    ensures !KeyLess(a, a)
    ensures KeyAtMost(a, b) || KeyAtMost(b, a)
    ensures KeyAtMost(a, b) && KeyAtMost(b, c) ==> KeyAtMost(a, c)
    ensures KeyLess(a, b) ==> !KeyLess(b, a)
  {
    LessIrreflexive(a.id);
    LessTotal(a.id, b.id);
    if Less(a.id, b.id) && Less(b.id, a.id) {
      LessTransitive(a.id, b.id, a.id);
    }
    if Less(a.id, b.id) && Less(b.id, c.id) {
      LessTransitive(a.id, b.id, c.id);
    }
  }

  /** There is only one listing of a map. */
  lemma ListingUnique<T(!new)>(key: T -> Key, m: map<string, T>, a: seq<T>, b: seq<T>)
    requires Listing(key, m, a) && Listing(key, m, b)
    ensures a == b
  {
    hide Stored, KeyLess;
    StrictOrderUnique(key, a, b);
  }

  lemma {:induction false} StrictOrderUnique<T(!new)>(key: T -> Key, a: seq<T>, b: seq<T>)
    requires forall i, j :: 0 <= i < j < |a| ==> KeyLess(key(a[i]), key(a[j]))
    requires forall i, j :: 0 <= i < j < |b| ==> KeyLess(key(b[i]), key(b[j]))
    requires forall x :: x in a <==> x in b
    ensures a == b
    decreases |a|
  {
    assert a != [] ==> a[0] in b;
    assert b != [] ==> b[0] in a;
    if a != [] {
      HeadsAgree(key, a, b);
      forall x
        ensures x in a[1..] <==> x in b[1..]
      {
        TailMember(key, a, x);
        TailMember(key, b, x);
      }
      StrictOrderUnique(key, a[1..], b[1..]);
    }
  }

  lemma HeadsAgree<T>(key: T -> Key, a: seq<T>, b: seq<T>)
    requires a != [] && b != [] && a[0] in b && b[0] in a
    requires forall i, j :: 0 <= i < j < |a| ==> KeyLess(key(a[i]), key(a[j]))
    requires forall i, j :: 0 <= i < j < |b| ==> KeyLess(key(b[i]), key(b[j]))
    ensures a[0] == b[0]
  {
    KeyOrder(key(a[0]), key(b[0]), key(a[0]));
  }

  lemma TailMember<T>(key: T -> Key, a: seq<T>, x: T)
    requires a != [] && forall i, j :: 0 <= i < j < |a| ==> KeyLess(key(a[i]), key(a[j]))
    ensures x in a[1..] <==> x in a && x != a[0]
  {
    KeyOrder(key(a[0]), key(a[0]), key(a[0]));
  }

  function ByKey<T>(key: T -> Key): (T, T) -> bool {
    (x, y) => KeyAtMost(key(x), key(y))
  }

  lemma ByKeyIsPreorder<T(!new)>(key: T -> Key)
    ensures TotalPreorder(ByKey(key))
  {
    hide KeyAtMost, KeyLess;
    forall x, y, z
      ensures KeyAtMost(key(x), key(y)) || KeyAtMost(key(y), key(x))
      ensures KeyAtMost(key(x), key(y)) && KeyAtMost(key(y), key(z)) ==> KeyAtMost(key(x), key(z))
    {
      KeyOrder(key(x), key(y), key(z));
    }
  }

  /** Copying the values out in any order and sorting by key gives the listing. */
  lemma SortedValuesList<T(!new)>(key: T -> Key, m: map<string, T>, values: seq<T>)
    requires forall x :: x in values <==> Stored(key, m, x)
    requires forall i, j :: 0 <= i < j < |values| ==> values[i] != values[j]
    ensures Listing(key, m, SortBy(ByKey(key), values))
  {
    var out := SortBy(ByKey(key), values);
    ByKeyIsPreorder(key);
    SortSorts(ByKey(key), values);
    hide KeyLess, SortBy, Stored;
    forall x
      ensures x in out <==> x in values
    {
      SortMembers(ByKey(key), values, x);
    }
    forall i, j | 0 <= i < j < |out|
      ensures KeyLess(key(out[i]), key(out[j]))
    {
      DistinctAfterSort(ByKey(key), values, i, j);
      SameKeySameValue(key, m, out[i], out[j]);
      assert ByKey(key)(out[i], out[j]);
    }
  }

  lemma SameKeySameValue<T>(key: T -> Key, m: map<string, T>, x: T, y: T)
    requires Stored(key, m, x) && Stored(key, m, y)
    ensures x == y || key(x) != key(y)
  {
  }

  lemma DistinctAfterSort<T>(le: (T, T) -> bool, xs: seq<T>, i: int, j: int)
    requires forall i, j :: 0 <= i < j < |xs| ==> xs[i] != xs[j]
    requires 0 <= i < j < |SortBy(le, xs)|
    ensures SortBy(le, xs)[i] != SortBy(le, xs)[j]
  {
    var out := SortBy(le, xs);
    SortPermutes(le, xs);
    DistinctMultiplicity(xs, out[i]);
    if out[i] == out[j] {
      TwiceCounted(out, i, j);
    }
  }

  lemma {:induction false} DistinctMultiplicity<T>(xs: seq<T>, x: T)
    requires forall i, j :: 0 <= i < j < |xs| ==> xs[i] != xs[j]
    ensures multiset(xs)[x] <= 1
  {
    if xs != [] {
      DistinctMultiplicity(xs[1..], x);
      assert xs == [xs[0]] + xs[1..];
      if x == xs[0] {
        assert x !in xs[1..];
      }
    }
  }

  lemma TwiceCounted<T>(xs: seq<T>, i: int, j: int)
    requires 0 <= i < j < |xs| && xs[i] == xs[j]
    ensures multiset(xs)[xs[i]] >= 2
  {
    assert xs == xs[..j] + [xs[j]] + xs[j + 1..];
    assert xs[..j][i] in multiset(xs[..j]);
  }

  /** Values copied out by enumerating the keys are exactly the stored ones, each once. */
  lemma EnumeratedValues<T(!new)>(key: T -> Key, m: map<string, T>, ids: seq<string>, values: seq<T>)
    requires forall id :: id in m ==> key(m[id]).id == id
    requires forall id :: id in ids <==> id in m
    requires forall i, j :: 0 <= i < j < |ids| ==> ids[i] != ids[j]
    requires |values| == |ids| && forall i :: 0 <= i < |ids| ==> values[i] == m[ids[i]]
    ensures forall x :: x in values <==> Stored(key, m, x)
    ensures forall i, j :: 0 <= i < j < |values| ==> values[i] != values[j]
    ensures |values| == |m|
  {
    forall x
      ensures x in values <==> Stored(key, m, x)
    {
      if x in values {
        var i :| 0 <= i < |values| && values[i] == x;
        assert ids[i] in m;
      }
      if Stored(key, m, x) {
        var i :| 0 <= i < |ids| && ids[i] == key(x).id;
        assert values[i] == x;
      }
    }
    DistinctCount(ids, m.Keys);
  }

  lemma {:induction false} DistinctCount(ids: seq<string>, keys: set<string>)
    requires forall id :: id in ids <==> id in keys
    requires forall i, j :: 0 <= i < j < |ids| ==> ids[i] != ids[j]
    ensures |ids| == |keys|
  {
    if ids == [] {
      assert keys == {};
    } else {
      DistinctCount(ids[1..], keys - {ids[0]});
    }
  }
}
