/**
  Python's `sorted(items, key=...)` for keys compared as sequences of numbers
  (bytes, UTF-16 code units or code points), and why its result does not depend
  on the order the items came in.
 */
module Sorting {
  /** Strict lexicographic order. */
  predicate Less(a: seq<int>, b: seq<int>) {
    if b == [] then false
    else if a == [] then true
    else if a[0] != b[0] then a[0] < b[0]
    else Less(a[1..], b[1..])
  }

  lemma {:induction false} LessIrreflexive(a: seq<int>)
    ensures !Less(a, a)
  {
    if a != [] {
      LessIrreflexive(a[1..]);
    }
  }

  lemma {:induction false} LessTransitive(a: seq<int>, b: seq<int>, c: seq<int>)
    requires Less(a, b) && Less(b, c)
    ensures Less(a, c)
  {
    if a != [] && a[0] == b[0] == c[0] {
      LessTransitive(a[1..], b[1..], c[1..]);
    }
  }

  lemma {:induction false} LessTotal(a: seq<int>, b: seq<int>)
    ensures a == b || Less(a, b) || Less(b, a)
  {
    if a != [] && b != [] && a[0] == b[0] {
      LessTotal(a[1..], b[1..]);
      assert a == [a[0]] + a[1..] && b == [b[0]] + b[1..];
    }
  }

  /** The first place where two keys differ decides. */
  lemma {:induction false} LessAt(a: seq<int>, b: seq<int>, k: nat)
    requires k < |b| && k <= |a| && (forall i | 0 <= i < k :: a[i] == b[i])
    requires k < |a| ==> a[k] < b[k]
    ensures Less(a, b)
    decreases k
  {
    if k > 0 {
      LessAt(a[1..], b[1..], k - 1);
    }
  }

  ghost predicate SameItems<T(!new)>(a: seq<T>, b: seq<T>) { forall x :: x in a <==> x in b }

  /** No two items share a key. */
  ghost predicate Distinct<T(!new)>(items: seq<T>, key: T -> seq<int>) {
    forall i, j | 0 <= i < j < |items| :: key(items[i]) != key(items[j])
  }

  ghost predicate Ordered<T(!new)>(items: seq<T>, key: T -> seq<int>) {
    forall i, j | 0 <= i < j < |items| :: Less(key(items[i]), key(items[j]))
  }

  function Insert<T(!new)>(x: T, items: seq<T>, key: T -> seq<int>): (r: seq<T>)
    ensures |r| == |items| + 1
    ensures forall y :: y in r <==> y == x || y in items
  {
    if items == [] then [x]
    else if Less(key(items[0]), key(x)) then [items[0]] + Insert(x, items[1..], key)
    else [x] + items
  }

  function Sort<T(!new)>(items: seq<T>, key: T -> seq<int>): (r: seq<T>)
    ensures |r| == |items|
    ensures forall y :: y in r <==> y in items
  {
    if items == [] then [] else Insert(items[0], Sort(items[1..], key), key)
  }

  lemma {:induction false} InsertOrdered<T(!new)>(x: T, items: seq<T>, key: T -> seq<int>)
    requires Ordered(items, key) && forall y | y in items :: key(y) != key(x)
    ensures Ordered(Insert(x, items, key), key)
  {
    if items != [] {
      var first, rest := items[0], items[1..];
      if Less(key(first), key(x)) {
        InsertOrdered(x, rest, key);
        var tail := Insert(x, rest, key);
        forall i, j | 0 <= i < j < |tail| + 1
          ensures Less(key(([first] + tail)[i]), key(([first] + tail)[j]))
        {
          if i == 0 {
            assert tail[j - 1] in tail;
          }
        }
      } else {
        LessTotal(key(first), key(x));
        forall j | 0 <= j < |items|
          ensures Less(key(x), key(items[j]))
        {
          if j > 0 {
            LessTransitive(key(x), key(first), key(items[j]));
          }
        }
      }
    }
  }

  /** Sorting items with different keys puts the keys in strict order. */
  lemma {:induction false} SortOrdered<T(!new)>(items: seq<T>, key: T -> seq<int>)
    requires Distinct(items, key)
    ensures Ordered(Sort(items, key), key)
  {
    if items != [] {
      SortOrdered(items[1..], key);
      forall y | y in Sort(items[1..], key)
        ensures key(y) != key(items[0])
      {
        var j :| 0 <= j < |items[1..]| && items[1..][j] == y;
        assert items[j + 1] == y;
      }
      InsertOrdered(items[0], Sort(items[1..], key), key);
    }
  }

  lemma SameEmpty<T(!new)>(a: seq<T>, b: seq<T>)
    requires SameItems(a, b)
    ensures a == [] <==> b == []
  {
    if a != [] {
      assert a[0] in b;
    }
    if b != [] {
      assert b[0] in a;
    }
  }

  /** Strictly ordered sequences of the same items are the same sequence. */
  lemma {:induction false} OrderedUnique<T(!new)>(a: seq<T>, b: seq<T>, key: T -> seq<int>)
    requires Ordered(a, key) && Ordered(b, key) && SameItems(a, b)
    ensures a == b
  {
    SameEmpty(a, b);
    if a != [] {
      assert a[0] in b;
      assert b[0] in a;
      var i :| 0 <= i < |a| && a[i] == b[0];
      var j :| 0 <= j < |b| && b[j] == a[0];
      if i > 0 && j > 0 {
        LessTransitive(key(a[0]), key(b[0]), key(a[0]));
        LessIrreflexive(key(a[0]));
      }
      assert a[0] == b[0];
      TailItems(a, b, key);
      TailItems(b, a, key);
      OrderedUnique(a[1..], b[1..], key);
      assert a == [a[0]] + a[1..] && b == [b[0]] + b[1..];
    }
  }

  lemma TailItems<T(!new)>(a: seq<T>, b: seq<T>, key: T -> seq<int>)
    requires a != [] && b != [] && a[0] == b[0] && Ordered(a, key) && SameItems(a, b)
    ensures forall x | x in a[1..] :: x in b[1..]
  {
    forall x | x in a[1..]
      ensures x in b[1..]
    {
      var i :| 0 <= i < |a[1..]| && a[1..][i] == x;
      assert a[i + 1] == x;
      assert x in b;
      var j :| 0 <= j < |b| && b[j] == x;
      if j == 0 {
        LessIrreflexive(key(x));
      }
      assert b[1..][j - 1] == x;
    }
  }

  /** The order the items came in does not matter. */
  lemma SortIgnoresOrder<T(!new)>(a: seq<T>, b: seq<T>, key: T -> seq<int>)
    requires Distinct(a, key) && Distinct(b, key) && SameItems(a, b)
    ensures Sort(a, key) == Sort(b, key)
  {
    SortOrdered(a, key);
    SortOrdered(b, key);
    OrderedUnique(Sort(a, key), Sort(b, key), key);
  }

  /** To know a sort it is enough to know one strict ordering of its items. */
  lemma SortIs<T(!new)>(items: seq<T>, sorted: seq<T>, key: T -> seq<int>)
    requires Distinct(items, key) && Ordered(sorted, key) && SameItems(items, sorted)
    ensures Sort(items, key) == sorted
  {
    SortOrdered(items, key);
    OrderedUnique(Sort(items, key), sorted, key);
  }

  lemma {:induction false} ChainOrdered<T(!new)>(items: seq<T>, key: T -> seq<int>)
    requires forall i | 0 < i < |items| :: Less(key(items[i - 1]), key(items[i]))
    ensures Ordered(items, key)
    decreases |items|
  {
    if |items| > 1 {
      var init := items[..|items| - 1];
      assert forall i | 0 <= i < |init| :: init[i] == items[i];
      ChainOrdered(init, key);
      forall i, j | 0 <= i < j < |items|
        ensures Less(key(items[i]), key(items[j]))
      {
        if j == |items| - 1 && i < j - 1 {
          assert Less(key(init[i]), key(init[j - 1]));
          LessTransitive(key(items[i]), key(items[j - 1]), key(items[j]));
        } else if j < |items| - 1 {
          assert Less(key(init[i]), key(init[j]));
        }
      }
    }
  }

  // ----- lining up two sorted sequences

  ghost predicate HasPartner<T(!new)>(e: T, fs: seq<T>, key: T -> seq<int>, rel: (T, T) -> bool) {
    exists f :: f in fs && key(f) == key(e) && rel(e, f)
  }

  ghost predicate HasKey<T(!new)>(k: seq<int>, es: seq<T>, key: T -> seq<int>) {
    exists e :: e in es && key(e) == k
  }

  /** Every item of one has a partner in the other, and the other has no further keys. */
  ghost predicate Partners<T(!new)>(es: seq<T>, fs: seq<T>, key: T -> seq<int>, rel: (T, T) -> bool) {
    && (forall e | e in es :: HasPartner(e, fs, key, rel))
    && (forall f | f in fs :: HasKey(key(f), es, key))
  }

  ghost predicate Aligned<T(!new)>(es: seq<T>, fs: seq<T>, key: T -> seq<int>, rel: (T, T) -> bool) {
    |es| == |fs| && forall i | 0 <= i < |es| :: key(es[i]) == key(fs[i]) && rel(es[i], fs[i])
  }

  lemma PartnersIgnoreOrder<T(!new)>(
      es: seq<T>, es': seq<T>, fs: seq<T>, fs': seq<T>, key: T -> seq<int>, rel: (T, T) -> bool)
    requires Partners(es, fs, key, rel) && SameItems(es, es') && SameItems(fs, fs')
    ensures Partners(es', fs', key, rel)
  {
    forall e | e in es'
      ensures HasPartner(e, fs', key, rel)
    {
      assert HasPartner(e, fs, key, rel);
    }
    forall f | f in fs'
      ensures HasKey(key(f), es', key)
    {
      assert HasKey(key(f), es, key);
    }
  }

  lemma AlignedArePartners<T(!new)>(es: seq<T>, fs: seq<T>, key: T -> seq<int>, rel: (T, T) -> bool)
    requires Aligned(es, fs, key, rel)
    ensures Partners(es, fs, key, rel)
  {
    forall e | e in es
      ensures HasPartner(e, fs, key, rel)
    {
      var i :| 0 <= i < |es| && es[i] == e;
      assert fs[i] in fs;
    }
    forall f | f in fs
      ensures HasKey(key(f), es, key)
    {
      var i :| 0 <= i < |fs| && fs[i] == f;
      assert es[i] in es;
    }
  }

  /** No key comes before the first one. */
  lemma NothingBefore<T(!new)>(es: seq<T>, k: seq<int>, key: T -> seq<int>)
    requires Ordered(es, key) && es != [] && HasKey(k, es, key)
    ensures k == key(es[0]) || Less(key(es[0]), k)
  {
    var e :| e in es && key(e) == k;
    var i :| 0 <= i < |es| && es[i] == e;
    if i > 0 {
      assert Less(key(es[0]), key(es[i]));
    }
  }

  lemma LaterKeys<T(!new)>(es: seq<T>, key: T -> seq<int>)
    requires Ordered(es, key) && es != []
    ensures forall e | e in es[1..] :: key(e) != key(es[0])
  {
    forall e | e in es[1..]
      ensures key(e) != key(es[0])
    {
      var i :| 0 <= i < |es[1..]| && es[1..][i] == e;
      assert Less(key(es[0]), key(es[i + 1]));
      LessIrreflexive(key(es[0]));
    }
  }

  lemma InRest<T(!new)>(e: T, es: seq<T>)
    requires e in es
    ensures e == es[0] || e in es[1..]
  {
    assert es == [es[0]] + es[1..];
  }

  lemma FirstsMatch<T(!new)>(es: seq<T>, fs: seq<T>, key: T -> seq<int>, rel: (T, T) -> bool)
    requires Ordered(es, key) && Ordered(fs, key) && Partners(es, fs, key, rel) && es != [] && fs != []
    ensures key(es[0]) == key(fs[0]) && rel(es[0], fs[0])
  {
    assert es[0] in es && fs[0] in fs;
    var f :| f in fs && key(f) == key(es[0]) && rel(es[0], f);
    assert HasKey(key(es[0]), fs, key);
    NothingBefore(fs, key(es[0]), key);
    NothingBefore(es, key(fs[0]), key);
    if key(es[0]) != key(fs[0]) {
      LessTransitive(key(es[0]), key(fs[0]), key(es[0]));
      LessIrreflexive(key(es[0]));
    }
    LaterKeys(fs, key);
    InRest(f, fs);
  }

  lemma RestPartners<T(!new)>(es: seq<T>, fs: seq<T>, key: T -> seq<int>, rel: (T, T) -> bool)
    requires Ordered(es, key) && Ordered(fs, key) && Partners(es, fs, key, rel) && es != [] && fs != []
    requires key(es[0]) == key(fs[0])
    ensures Partners(es[1..], fs[1..], key, rel)
  {
    LaterKeys(es, key);
    LaterKeys(fs, key);
    forall e | e in es[1..]
      ensures HasPartner(e, fs[1..], key, rel)
    {
      assert e in es;
      var f :| f in fs && key(f) == key(e) && rel(e, f);
      InRest(f, fs);
    }
    forall f | f in fs[1..]
      ensures HasKey(key(f), es[1..], key)
    {
      assert f in fs;
      var e :| e in es && key(e) == key(f);
      InRest(e, es);
    }
  }

  /** Sorted partners stand at the same places. */
  lemma {:induction false} LineUp<T(!new)>(es: seq<T>, fs: seq<T>, key: T -> seq<int>, rel: (T, T) -> bool)
    requires Ordered(es, key) && Ordered(fs, key) && Partners(es, fs, key, rel)
    ensures Aligned(es, fs, key, rel)
    decreases |es|
  {
    hide Partners;
    BothEmpty(es, fs, key, rel);
    if es != [] {
      FirstsMatch(es, fs, key, rel);
      RestPartners(es, fs, key, rel);
      LineUp(es[1..], fs[1..], key, rel);
      assert forall i | 1 <= i < |es| :: es[i] == es[1..][i - 1] && fs[i] == fs[1..][i - 1];
    }
  }

  lemma BothEmpty<T(!new)>(es: seq<T>, fs: seq<T>, key: T -> seq<int>, rel: (T, T) -> bool)
    requires Partners(es, fs, key, rel)
    ensures es == [] <==> fs == []
  {
    if es != [] {
      assert es[0] in es;
    }
    if fs != [] {
      assert fs[0] in fs;
    }
  }

  /** Two bags of differently keyed items are partners exactly when they line up once sorted. */
  lemma SortedPartners<T(!new)>(es: seq<T>, fs: seq<T>, key: T -> seq<int>, rel: (T, T) -> bool)
    requires Distinct(es, key) && Distinct(fs, key)
    ensures Partners(es, fs, key, rel) <==> Aligned(Sort(es, key), Sort(fs, key), key, rel)
  {
    hide Partners, Aligned;
    SortOrdered(es, key);
    SortOrdered(fs, key);
    var es', fs' := Sort(es, key), Sort(fs, key);
    if Partners(es, fs, key, rel) {
      PartnersIgnoreOrder(es, es', fs, fs', key, rel);
      LineUp(es', fs', key, rel);
    }
    if Aligned(es', fs', key, rel) {
      AlignedArePartners(es', fs', key, rel);
      PartnersIgnoreOrder(es', es, fs', fs, key, rel);
    }
  }

  // ----- dicts as sets of entries

  ghost predicate HasName<K(!new), V(!new)>(name: K, entries: seq<(K, V)>) {
    exists e :: e in entries && e.0 == name
  }

  ghost predicate HasTwin<K(!new), V(!new)>(name: K, v: V, entries: seq<(K, V)>, same: (V, V) -> bool) {
    exists f :: f in entries && f.0 == name && same(v, f.1)
  }

  /** Every entry of one has a same-named entry with the same value in the other, which has no further names. */
  ghost predicate Twins<K(!new), V(!new)>(es: seq<(K, V)>, fs: seq<(K, V)>, same: (V, V) -> bool) {
    && (forall e | e in es :: HasTwin(e.0, e.1, fs, same))
    && (forall f | f in fs :: HasName(f.0, es))
  }

  /** The same names in the same order, with the same values. */
  ghost predicate Alike<K(!new), V(!new)>(es: seq<(K, V)>, fs: seq<(K, V)>, same: (V, V) -> bool) {
    |es| == |fs| && forall i | 0 <= i < |es| :: es[i].0 == fs[i].0 && same(es[i].1, fs[i].1)
  }

  lemma AlikeCons<K(!new), V(!new)>(es: seq<(K, V)>, fs: seq<(K, V)>, same: (V, V) -> bool)
    requires es != [] && fs != [] && es[0].0 == fs[0].0 && same(es[0].1, fs[0].1)
    requires Alike(es[1..], fs[1..], same)
    ensures Alike(es, fs, same)
  {
    assert forall i | 1 <= i < |es| :: es[i] == es[1..][i - 1] && fs[i] == fs[1..][i - 1];
  }

  lemma TwinsIgnoreOrder<K(!new), V(!new)>(
      es: seq<(K, V)>, es': seq<(K, V)>, fs: seq<(K, V)>, fs': seq<(K, V)>, same: (V, V) -> bool)
    requires Twins(es, fs, same) && SameItems(es, es') && SameItems(fs, fs')
    ensures Twins(es', fs', same)
  {
    forall e | e in es'
      ensures HasTwin(e.0, e.1, fs', same)
    {
      assert HasTwin(e.0, e.1, fs, same);
    }
    forall f | f in fs'
      ensures HasName(f.0, es')
    {
      assert HasName(f.0, es);
    }
  }

  /** Names and keys tell the same entries apart. */
  ghost predicate KeyedByName<K(!new), V(!new)>(es: seq<(K, V)>, fs: seq<(K, V)>, key: ((K, V)) -> seq<int>) {
    forall e, f | e in es && f in fs :: key(e) == key(f) <==> e.0 == f.0
  }

  ghost function Matches<K(!new), V(!new)>(same: (V, V) -> bool): ((K, V), (K, V)) -> bool {
    (e: (K, V), f: (K, V)) => e.0 == f.0 && same(e.1, f.1)
  }

  lemma TwinsArePartners<K(!new), V(!new)>(
      es: seq<(K, V)>, fs: seq<(K, V)>, key: ((K, V)) -> seq<int>, same: (V, V) -> bool)
    requires KeyedByName(es, fs, key)
    ensures Twins(es, fs, same) <==> Partners(es, fs, key, Matches(same))
  {
    forall e | e in es
      ensures HasPartner(e, fs, key, Matches(same)) <==> HasTwin(e.0, e.1, fs, same)
    {
      if HasTwin(e.0, e.1, fs, same) {
        var f :| f in fs && f.0 == e.0 && same(e.1, f.1);
        assert key(f) == key(e) && Matches(same)(e, f);
      }
    }
    forall f | f in fs
      ensures HasKey(key(f), es, key) <==> HasName(f.0, es)
    {
    }
  }

  /** Two dicts agree as sets of entries exactly when they are alike once sorted. */
  lemma TwinsAlike<K(!new), V(!new)>(
      es: seq<(K, V)>, fs: seq<(K, V)>, key: ((K, V)) -> seq<int>, same: (V, V) -> bool)
    requires Distinct(es, key) && Distinct(fs, key) && KeyedByName(es, fs, key)
    ensures Twins(es, fs, same) <==> Alike(Sort(es, key), Sort(fs, key), same)
  {
    hide Twins, Partners, KeyedByName, Sort, Distinct;
    TwinsArePartners(es, fs, key, same);
    SortedPartners(es, fs, key, Matches(same));
    KeysAlign(es, fs, key, Sort(es, key), Sort(fs, key), same);
  }

  lemma KeysAlign<K(!new), V(!new)>(
      es: seq<(K, V)>, fs: seq<(K, V)>, key: ((K, V)) -> seq<int>,
      es': seq<(K, V)>, fs': seq<(K, V)>, same: (V, V) -> bool)
    requires KeyedByName(es, fs, key) && SameItems(es, es') && SameItems(fs, fs')
    ensures Alike(es', fs', same) <==> Aligned(es', fs', key, Matches(same))
  {
    assert forall i | 0 <= i < |es'| :: es'[i] in es;
    assert forall i | 0 <= i < |fs'| :: fs'[i] in fs;
  }
}
