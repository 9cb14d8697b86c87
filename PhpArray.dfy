// Failure-compatible wrappers used throughout the model.
module Wrappers {

  datatype Option<T> = None | Some(value: T)

  /** A value or the exception that escaped; `:-` propagates the exception. */
  datatype Result<T, E> = Ok(value: T) | Err(error: E) {
    predicate IsFailure() {
      Err?
    }

    function PropagateFailure<U>(): Result<U, E>
      requires Err?
    {
      Err(error)
    }

    function Extract(): T
      requires Ok?
    {
      value
    }
  }
}

/**
  PHP arrays as the component uses them: ordered maps whose iteration order
  is insertion order. An array is a sequence of key/value pairs; every array
  PHP can build has unique keys (`UniqueKeys`).
 */
module PhpArray {
  import opened Wrappers

  type Arr<K, V> = seq<(K, V)>

  predicate HasKey<K(==), V>(a: Arr<K, V>, k: K) {
    exists i :: 0 <= i < |a| && a[i].0 == k
  }

  predicate UniqueKeys<K(==), V>(a: Arr<K, V>) {
    forall i, j :: 0 <= i < j < |a| ==> a[i].0 != a[j].0
  }

  /** The position of key `k` (the first one, should the keys repeat). */
  function Position<K(==), V>(a: Arr<K, V>, k: K): (r: Option<nat>)
    ensures r.None? <==> !HasKey(a, k)
    ensures r.Some? ==> r.value < |a| && a[r.value].0 == k
    ensures r.Some? ==> forall j :: 0 <= j < r.value ==> a[j].0 != k
  {
    if a == [] then None
    else
      match Position(a[..|a| - 1], k)
      case Some(i) => Some(i)
      case None => if a[|a| - 1].0 == k then Some(|a| - 1) else None
  }

  /** `$a[$k]` when `isset($a[$k])`, None otherwise. */
  function Get<K(==), V>(a: Arr<K, V>, k: K): (r: Option<V>)
    ensures r.Some? <==> HasKey(a, k)
    ensures UniqueKeys(a) ==> forall i :: 0 <= i < |a| && a[i].0 == k ==> r == Some(a[i].1)
  {
    match Position(a, k)
    case Some(i) => Some(a[i].1)
    case None => None
  }

  function GetOr<K(==), V>(a: Arr<K, V>, k: K, default: V): V {
    match Get(a, k)
    case Some(v) => v
    case None => default
  }

  /**
    `$a[$k] = $v`: an existing key keeps its place and takes the new value;
    a new key is appended at the end.
   */
  function Put<K(==,!new), V>(a: Arr<K, V>, k: K, v: V): (r: Arr<K, V>)
    ensures |r| == if HasKey(a, k) then |a| else |a| + 1
    ensures HasKey(r, k)
    ensures UniqueKeys(a) ==> UniqueKeys(r)
  {
    match Position(a, k)
    case Some(i) =>
      var r := a[i := (k, v)];
      assert forall j :: 0 <= j < |a| ==> r[j].0 == a[j].0;
      assert r[i].0 == k;
      r
    case None =>
      var r := a + [(k, v)];
      assert r[|a|].0 == k;
      r
  }

  /** After `$a[$k] = $v`, `$a[$k]` is `$v` and every other key reads as before. */
  lemma PutGet<K(!new), V>(a: Arr<K, V>, k: K, v: V)
    requires UniqueKeys(a)
    ensures Get(Put(a, k, v), k) == Some(v)
    ensures forall k' :: k' != k ==> Get(Put(a, k, v), k') == Get(a, k')
  {
    var r := Put(a, k, v);
    match Position(a, k)
    case Some(i) =>
      assert r == a[i := (k, v)];
      forall k' | k' != k ensures Get(r, k') == Get(a, k') {
        if HasKey(a, k') {
          var j :| 0 <= j < |a| && a[j].0 == k';
          assert r[j] == a[j];
        } else {
          assert !HasKey(r, k');
        }
      }
    case None =>
      assert r == a + [(k, v)];
      forall k' | k' != k ensures Get(r, k') == Get(a, k') {
        if HasKey(a, k') {
          var j :| 0 <= j < |a| && a[j].0 == k';
          assert r[j] == a[j];
        } else {
          assert !HasKey(r, k');
        }
      }
  }

  /** Reading an array that had one pair appended. */
  lemma GetAppend<K, V>(a: Arr<K, V>, k': K, v: V, k: K)
    ensures Get(a + [(k', v)], k) == if HasKey(a, k) then Get(a, k) else if k == k' then Some(v) else None
  {
    assert (a + [(k', v)])[..|a|] == a;
  }

  /** Assigning the same key twice leaves only the second assignment. */
  lemma PutPut<K(!new), V>(a: Arr<K, V>, k: K, v1: V, v2: V)
    ensures Put(Put(a, k, v1), k, v2) == Put(a, k, v2)
  {
    var b := Put(a, k, v1);
    match Position(a, k)
    case Some(i) =>
      assert b == a[i := (k, v1)];
      assert forall j :: 0 <= j < |a| ==> b[j].0 == a[j].0;
      assert Position(b, k) == Some(i);
    case None =>
      assert b == a + [(k, v1)];
      assert Position(b, k) == Some(|a|);
  }

  /** Assigning a key the array does not have appends it. */
  lemma PutFresh<K(!new), V>(a: Arr<K, V>, k: K, v: V)
    requires !HasKey(a, k)
    ensures Put(a, k, v) == a + [(k, v)]
  {
  }

  /** Assigning the last key again replaces the last value. */
  lemma PutLast<K(!new), V>(a: Arr<K, V>, k: K, v: V, v': V)
    requires !HasKey(a, k)
    ensures Put(a + [(k, v)], k, v') == a + [(k, v')]
  {
    assert Position(a + [(k, v)], k) == Some(|a|);
  }

  /** Dropping the last pair of an array with unique keys: the rest has unique keys and lacks the last key. */
  lemma UniqueKeysFront<K, V>(a: Arr<K, V>)
    requires UniqueKeys(a) && a != []
    ensures UniqueKeys(a[..|a| - 1]) && !HasKey(a[..|a| - 1], a[|a| - 1].0)
  {
    var front := a[..|a| - 1];
    forall i | 0 <= i < |front| ensures front[i] == a[i] && front[i].0 != a[|a| - 1].0 {
    }
  }

  /** The keys are the positions 0, 1, 2, ...: what `$a[] = $v` builds. */
  predicate Dense<V>(a: Arr<int, V>) {
    forall i :: 0 <= i < |a| ==> a[i].0 == i
  }

  /** Assigning key b of a dense array replaces entry b, or appends when b is the next key. */
  lemma PutDense<V>(a: Arr<int, V>, b: int, v: V)
    requires Dense(a) && 0 <= b <= |a|
    ensures Put(a, b, v) == if b < |a| then a[b := (b, v)] else a + [(b, v)]
  {
    if b < |a| {
      assert a[b].0 == b;
      assert Position(a, b) == Some(b);
    } else {
      assert !HasKey(a, b);
    }
  }

  /** The values of an array in iteration order. */
  function Values<K, V>(a: Arr<K, V>): (vs: seq<V>)
    ensures |vs| == |a|
    ensures forall i :: 0 <= i < |a| ==> vs[i] == a[i].1
  {
    seq(|a|, i requires 0 <= i < |a| => a[i].1)
  }
}
