/** The key-value store the registry keeps its records in (Deno KV): a map from
    composite keys (tuples of strings) to values, with point reads and writes and
    listing by key prefix in key order. Persistence, atomicity and versionstamps
    are not modelled; the store is an in-memory map. */
module KeyValue {
  import opened Wrappers

  /** A key of the store: an ordered tuple of string parts. */
  type Key = seq<string>

  /** `less` is a strict total order on T. */
  ghost predicate StrictTotalOrder<T(!new)>(less: (T, T) -> bool)
  {
    && (forall x :: !less(x, x))
    && (forall x, y, z :: less(x, y) && less(y, z) ==> less(x, z))
    && (forall x, y :: x != y ==> less(x, y) || less(y, x))
  }

  /** Strict lexicographic order on sequences induced by an order on their
      elements: a proper prefix comes before every extension of it. */
  predicate LexBelow<T(==)>(a: seq<T>, b: seq<T>, less: (T, T) -> bool)
    decreases |a|
  {
    if |a| == 0 then |b| > 0
    else if |b| == 0 then false
    else less(a[0], b[0]) || (a[0] == b[0] && LexBelow(a[1..], b[1..], less))
  }

  predicate CharBelow(x: char, y: char) { x < y }

  /** Order of key parts: strings compared character by character. Comparing
      code points is the same as comparing the UTF-8 encodings the store keeps. */
  predicate TextBelow(a: string, b: string) { LexBelow(a, b, CharBelow) }

  /** Order of keys: part by part, so ["acct"] < ["acct", "eth"] < ["acct", "ethx"]. */
  predicate KeyBelow(a: Key, b: Key) { LexBelow(a, b, TextBelow) }

  lemma {:induction false} LexIrreflexive<T(!new)>(a: seq<T>, less: (T, T) -> bool)
    requires StrictTotalOrder(less)
    ensures !LexBelow(a, a, less)
    decreases |a|
  {
    if |a| > 0 {
      LexIrreflexive(a[1..], less);
    }
  }

  lemma {:induction false} LexTransitive<T(!new)>(a: seq<T>, b: seq<T>, c: seq<T>, less: (T, T) -> bool)
    requires StrictTotalOrder(less)
    requires LexBelow(a, b, less) && LexBelow(b, c, less)
    ensures LexBelow(a, c, less)
    decreases |a|
  {
    if |a| > 0 && a[0] == b[0] && b[0] == c[0] {
      LexTransitive(a[1..], b[1..], c[1..], less);
    }
  }

  lemma {:induction false} LexTotal<T(!new)>(a: seq<T>, b: seq<T>, less: (T, T) -> bool)
    requires StrictTotalOrder(less)
    requires a != b
    ensures LexBelow(a, b, less) || LexBelow(b, a, less)
    decreases |a|
  {
    if |a| > 0 && |b| > 0 && a[0] == b[0] {
      assert a == [a[0]] + a[1..] && b == [b[0]] + b[1..];
      LexTotal(a[1..], b[1..], less);
    }
  }

  /** The lexicographic extension `lexLess` of a strict total order is one. */
  lemma LexStrictTotalOrder<T(!new)>(less: (T, T) -> bool, lexLess: (seq<T>, seq<T>) -> bool)
    requires StrictTotalOrder(less)
    requires forall a, b :: lexLess(a, b) == LexBelow(a, b, less)
    ensures StrictTotalOrder(lexLess)
  {
    forall a: seq<T> ensures !lexLess(a, a) {
      LexIrreflexive(a, less);
    }
    forall a: seq<T>, b: seq<T>, c: seq<T> | lexLess(a, b) && lexLess(b, c)
      ensures lexLess(a, c)
    {
      LexTransitive(a, b, c, less);
    }
    forall a: seq<T>, b: seq<T> | a != b ensures lexLess(a, b) || lexLess(b, a) {
      LexTotal(a, b, less);
    }
  }

  /** Key order is a strict total order, so every finite set of keys lists in
      exactly one way. */
  lemma KeyOrder()
    ensures StrictTotalOrder(KeyBelow)
  {
    LexStrictTotalOrder(CharBelow, TextBelow);
    LexStrictTotalOrder(TextBelow, KeyBelow);
  }

  /** `prefix` is a proper prefix of `key`: the keys a prefix listing yields
      (the prefix key itself is not among them). */
  predicate UnderPrefix(prefix: Key, key: Key)
  {
    |prefix| < |key| && key[..|prefix|] == prefix
  }

  /** `k` is the least key of `s`. */
  predicate IsLeast(k: Key, s: set<Key>)
  {
    k in s && forall k' :: k' in s && k' != k ==> KeyBelow(k, k')
  }

  lemma KeyTransitive(a: Key, b: Key, c: Key)
    requires KeyBelow(a, b) && KeyBelow(b, c)
    ensures KeyBelow(a, c)
  {
    LexStrictTotalOrder(CharBelow, TextBelow);
    LexTransitive(a, b, c, TextBelow);
  }

  lemma KeyTotal(a: Key, b: Key)
    requires a != b
    ensures KeyBelow(a, b) || KeyBelow(b, a)
  {
    LexStrictTotalOrder(CharBelow, TextBelow);
    LexTotal(a, b, TextBelow);
  }

  lemma {:induction false} LeastExists(s: set<Key>)
    requires s != {}
    ensures exists k :: IsLeast(k, s)
    decreases |s|
  {
    var x :| x in s;
    if s != {x} {
      LeastExists(s - {x});
      var m :| IsLeast(m, s - {x});
      if KeyBelow(x, m) {
        forall k' | k' in s && k' != x ensures KeyBelow(x, k') {
          if k' != m {
            KeyTransitive(x, m, k');
          }
        }
        assert IsLeast(x, s);
      } else {
        KeyTotal(x, m);
        assert IsLeast(m, s);
      }
    } else {
      assert IsLeast(x, s);
    }
  }

  lemma LeastUnique(s: set<Key>)
    ensures forall a, b :: IsLeast(a, s) && IsLeast(b, s) ==> a == b
  {
    KeyOrder();
  }

  /** The keys of `s` in ascending key order. */
  function Sorted(s: set<Key>): (r: seq<Key>)
    ensures |r| == |s|
    ensures forall i :: 0 <= i < |r| ==> r[i] in s
    ensures forall k :: k in s ==> k in r
    ensures forall i, j :: 0 <= i < j < |r| ==> KeyBelow(r[i], r[j])
    decreases s
  {
    if s == {} then []
    else
      LeastExists(s);
      LeastUnique(s);
      var m :| m in s && IsLeast(m, s);
      [m] + Sorted(s - {m})
  }

  /** The store. `data` is every entry it holds. */
  class Store<V> {
    var data: map<Key, V>

    /** An empty store. */
    constructor ()
      ensures data == map[]
    {
      data := map[];
    }

    /** kv.get: the value stored under `key`, or nothing. */
    function Get(key: Key): (r: Option<V>)
      reads this
      ensures r.Some? <==> key in data
      ensures r.Some? ==> r.value == data[key]
    {
      if key in data then Some(data[key]) else None
    }

    /** kv.set: stores `value` under `key`, replacing what was there. */
    method Set(key: Key, value: V)
      modifies this
      ensures data == old(data)[key := value]
    {
      data := data[key := value];
    }

    /** The keys a listing by `prefix` visits. */
    function Matching(prefix: Key): (s: set<Key>)
      reads this
      ensures forall k :: k in s <==> k in data && UnderPrefix(prefix, k)
    {
      set k | k in data && UnderPrefix(prefix, k)
    }

    /** kv.list({prefix}): every entry whose key has `prefix` as a proper
        prefix, each exactly once, in ascending key order. */
    function List(prefix: Key): (r: seq<(Key, V)>)
      reads this
      ensures |r| == |Matching(prefix)|
      ensures forall i :: 0 <= i < |r| ==>
        r[i].0 in data && UnderPrefix(prefix, r[i].0) && r[i].1 == data[r[i].0]
      ensures forall k :: k in data && UnderPrefix(prefix, k) ==>
        exists i :: 0 <= i < |r| && r[i].0 == k
      ensures forall i, j :: 0 <= i < j < |r| ==> KeyBelow(r[i].0, r[j].0)
    {
      var keys := Sorted(Matching(prefix));
      var d := data;
      var r := seq(|keys|, i requires 0 <= i < |keys| => (keys[i], d[keys[i]]));
      assert forall i :: 0 <= i < |r| ==> r[i].0 == keys[i];
      r
    }
  }
}
