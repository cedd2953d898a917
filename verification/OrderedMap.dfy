/** `std::map` seen through its iterators: key-value pairs in strictly increasing key order. */
module OrderedMap {
  import opened Bytes
  import opened Codec

  datatype Option<+T> = None | Some(value: T)

  ghost predicate StrictOrder<K(!new)>(less: (K, K) -> bool) {
    && (forall k :: !less(k, k))
    && (forall j, k, l :: less(j, k) && less(k, l) ==> less(j, l))
    && (forall j, k :: less(j, k) || less(k, j) || j == k)
  }

  ghost predicate Sorted<K, V>(less: (K, K) -> bool, m: seq<(K, V)>) {
    forall i, j :: 0 <= i < j < |m| ==> less(m[i].0, m[j].0)
  }

  /** `m[k] = v` when `replace`, `m.insert({k, v})` otherwise: an insertion keeps an existing value. */
  function Put<K(==), V>(less: (K, K) -> bool, m: seq<(K, V)>, k: K, v: V, replace: bool): seq<(K, V)> {
    if m == [] then [(k, v)]
    else if less(m[0].0, k) then [m[0]] + Put(less, m[1..], k, v, replace)
    else if less(k, m[0].0) then [(k, v)] + m
    else if replace then [(k, v)] + m[1..]
    else m
  }

  function Lookup<K(==), V>(m: seq<(K, V)>, k: K): Option<V> {
    if m == [] then None else if m[0].0 == k then Some(m[0].1) else Lookup(m[1..], k)
  }

  lemma {:induction false} LookupAbsent<K, V>(m: seq<(K, V)>, k: K)
    requires forall i :: 0 <= i < |m| ==> m[i].0 != k
    ensures Lookup(m, k) == None
  {
    if m != [] {
      LookupAbsent(m[1..], k);
    }
  }

  lemma {:induction false} PutKeys<K, V>(less: (K, K) -> bool, m: seq<(K, V)>, k: K, v: V, replace: bool)
    ensures forall i :: 0 <= i < |Put(less, m, k, v, replace)| ==>
      Put(less, m, k, v, replace)[i].0 == k || exists j :: 0 <= j < |m| && m[j].0 == Put(less, m, k, v, replace)[i].0
  {
    var p := Put(less, m, k, v, replace);
    if m != [] && less(m[0].0, k) {
      PutKeys(less, m[1..], k, v, replace);
      forall i | 0 <= i < |p|
        ensures p[i].0 == k || exists j :: 0 <= j < |m| && m[j].0 == p[i].0
      {
        if i > 0 && p[i].0 != k {
          var j :| 0 <= j < |m[1..]| && m[1..][j].0 == Put(less, m[1..], k, v, replace)[i - 1].0;
          assert m[j + 1].0 == p[i].0;
        }
      }
    }
  }

  lemma {:induction false} PutSorted<K(!new), V>(less: (K, K) -> bool, m: seq<(K, V)>, k: K, v: V, replace: bool)
    requires StrictOrder(less) && Sorted(less, m)
    ensures Sorted(less, Put(less, m, k, v, replace))
  {
    if m != [] && less(m[0].0, k) {
      var rest := Put(less, m[1..], k, v, replace);
      PutSorted(less, m[1..], k, v, replace);
      PutKeys(less, m[1..], k, v, replace);
      assert forall i :: 0 <= i < |rest| ==> less(m[0].0, rest[i].0);
    }
  }

  /** The map stays sorted and reads back as an update of one key. */
  lemma {:induction false} PutCorrect<K(!new), V>(less: (K, K) -> bool, m: seq<(K, V)>, k: K, v: V, replace: bool, q: K)
    requires StrictOrder(less) && Sorted(less, m)
    ensures Sorted(less, Put(less, m, k, v, replace))
    ensures Lookup(Put(less, m, k, v, replace), q) ==
      if q == k && (replace || Lookup(m, k).None?) then Some(v) else Lookup(m, q)
  {
    PutSorted(less, m, k, v, replace);
    if m == [] {
    } else if less(m[0].0, k) {
      assert m[0].0 != k;
      PutCorrect(less, m[1..], k, v, replace, q);
    } else if less(k, m[0].0) {
      LookupAbsent(m, k);
    }
  }

  /** Inserting behind every present key appends. */
  lemma {:induction false} PutLast<K(!new), V>(less: (K, K) -> bool, m: seq<(K, V)>, k: K, v: V, replace: bool)
    requires StrictOrder(less)
    requires forall i :: 0 <= i < |m| ==> less(m[i].0, k)
    ensures Put(less, m, k, v, replace) == m + [(k, v)]
  {
    if m != [] {
      PutLast(less, m[1..], k, v, replace);
    }
  }

  /** A loop that puts `pairs` one after the other into `m`. */
  function PutAll<K(==), V>(less: (K, K) -> bool, m: seq<(K, V)>, pairs: seq<(K, V)>, replace: bool): seq<(K, V)> {
    if pairs == [] then m
    else Put(less, PutAll(less, m, pairs[..|pairs| - 1], replace),
             pairs[|pairs| - 1].0, pairs[|pairs| - 1].1, replace)
  }

  /** Reading the pairs of a map back in iteration order rebuilds the map. */
  lemma {:induction false} PutAllSorted<K(!new), V>(less: (K, K) -> bool, m: seq<(K, V)>, replace: bool)
    requires StrictOrder(less) && Sorted(less, m)
    ensures PutAll(less, [], m, replace) == m
  {
    if m != [] {
      var n := |m| - 1;
      PutAllSorted(less, m[..n], replace);
      PutLast(less, m[..n], m[n].0, m[n].1, replace);
      assert m[..n] + [(m[n].0, m[n].1)] == m;
    }
  }

  // --- the two key orders in use ------------------------------------------------------

  predicate IdLess(a: u64, b: u64) {
    a < b
  }

  /** `std::string` comparison: byte by byte, a proper prefix first. */
  predicate LexLess(a: blob, b: blob) {
    b != [] && (a == [] || a[0] < b[0] || (a[0] == b[0] && LexLess(a[1..], b[1..])))
  }

  lemma {:induction false} LexTransitive(a: blob, b: blob, c: blob)
    requires LexLess(a, b) && LexLess(b, c)
    ensures LexLess(a, c)
  {
    if a != [] && a[0] == b[0] && b[0] == c[0] {
      LexTransitive(a[1..], b[1..], c[1..]);
    }
  }

  lemma {:induction false} LexTotal(a: blob, b: blob)
    ensures LexLess(a, b) || LexLess(b, a) || a == b
    ensures !LexLess(a, a)
  {
    if a != [] {
      if b != [] && a[0] == b[0] {
        LexTotal(a[1..], b[1..]);
        if a[1..] == b[1..] {
          assert a == [a[0]] + a[1..] && b == [b[0]] + b[1..];
        }
      } else {
        LexTotal(a[1..], []);
      }
    }
  }

  lemma LexLessIsStrictOrder()
    ensures StrictOrder<blob>(LexLess)
  {
    forall a: blob, b: blob
      ensures LexLess(a, b) || LexLess(b, a) || a == b
      ensures !LexLess(a, a)
    {
      LexTotal(a, b);
    }
    forall a: blob, b: blob, c: blob | LexLess(a, b) && LexLess(b, c)
      ensures LexLess(a, c)
    {
      LexTransitive(a, b, c);
    }
  }

  lemma IdLessIsStrictOrder()
    ensures StrictOrder<u64>(IdLess)
  {
  }
}
