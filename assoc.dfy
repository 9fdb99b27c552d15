/**
 * PHP arrays with string keys, kept in insertion order, as sequences of key/value pairs.
 * Find is `$a[$k]` (None for a missing key), GetOr is `$a[$k] ?? $d`, Put is `$a[$k] = $v`
 * and Merge is `array_merge($a, $b)` for string keys.
 */
module Assoc {
  import opened Wrappers

  type Entries<V> = seq<(string, V)>

  function KeysOf<V>(a: Entries<V>): (ks: seq<string>)
    ensures |ks| == |a|
    ensures forall i :: 0 <= i < |a| ==> ks[i] == a[i].0
  {
    if a == [] then [] else [a[0].0] + KeysOf(a[1..])
  }

  function ValuesOf<V>(a: Entries<V>): (vs: seq<V>)
    ensures |vs| == |a|
    ensures forall i :: 0 <= i < |a| ==> vs[i] == a[i].1
  {
    if a == [] then [] else [a[0].1] + ValuesOf(a[1..])
  }

  /** A PHP array never holds one key twice. */
  ghost predicate Unique<V>(a: Entries<V>)
  {
    forall i, j :: 0 <= i < j < |a| ==> a[i].0 != a[j].0
  }

  function Find<V>(a: Entries<V>, k: string): (r: Option<V>)
    ensures r.Some? <==> k in KeysOf(a)
    ensures r.Some? ==> (k, r.value) in a
  {
    if a == [] then None
    else if a[0].0 == k then Some(a[0].1)
    else Find(a[1..], k)
  }

  /** The position of the first entry with key `k`; `isset($a[$k])` is `Position(a, k).Some?`. */
  function Position<V>(a: Entries<V>, k: string): (r: Option<nat>)
    ensures r.None? <==> k !in KeysOf(a)
    ensures r.Some? ==> r.value < |a| && a[r.value].0 == k && Find(a, k) == Some(a[r.value].1)
    ensures r.Some? ==> forall j :: 0 <= j < r.value ==> a[j].0 != k
  {
    if a == [] then None
    else if a[0].0 == k then Some(0)
    else
      SkipHead(a, k);
      match Position(a[1..], k)
      case None => None
      case Some(p) => Some(p + 1)
  }

  /** Past a first entry with another key, looking `k` up is looking it up in the rest. */
  lemma {:induction false} SkipHead<V>(a: Entries<V>, k: string)
    requires a != [] && a[0].0 != k
    ensures k in KeysOf(a) <==> k in KeysOf(a[1..])
    ensures Find(a, k) == Find(a[1..], k)
    ensures forall j :: 1 <= j < |a| ==> a[j] == a[1..][j - 1]
  {
    assert KeysOf(a) == [a[0].0] + KeysOf(a[1..]);
  }

  function GetOr<V>(a: Entries<V>, k: string, default: V): V
  {
    match Find(a, k)
    case Some(v) => v
    case None => default
  }

  /** In an array without repeated keys, Find returns the value stored with the key. */
  lemma {:induction false} FindUnique<V>(a: Entries<V>, i: nat)
    requires Unique(a) && i < |a|
    ensures Find(a, a[i].0) == Some(a[i].1)
  {
    if i > 0 {
      assert a[0].0 != a[i].0;
      assert a[1..][i - 1] == a[i];
      FindUnique(a[1..], i - 1);
    }
  }

  /** `$a[$k] = $v`: overwrites the value in place when the key exists, appends otherwise. */
  function Put<V>(a: Entries<V>, k: string, v: V): (r: Entries<V>)
    ensures forall j :: Find(r, j) == if j == k then Some(v) else Find(a, j)
    ensures k in KeysOf(a) ==> KeysOf(r) == KeysOf(a)
    ensures k !in KeysOf(a) ==> r == a + [(k, v)]
    ensures Unique(a) ==> Unique(r)
  {
    if a == [] then [(k, v)]
    else if a[0].0 == k then [(k, v)] + a[1..]
    else [a[0]] + Put(a[1..], k, v)
  }

  /** `array_merge($a, $b)` for string keys: `b`'s entries are put into `a`, in `b`'s order. */
  function Merge<V>(a: Entries<V>, b: Entries<V>): Entries<V>
    decreases |b|
  {
    if b == [] then a else Merge(Put(a, b[0].0, b[0].1), b[1..])
  }

  /** array_merge keeps the keys of its first argument first, in their order. */
  lemma {:induction false} MergeKeepsKeys<V>(a: Entries<V>, b: Entries<V>)
    ensures |Merge(a, b)| >= |a| && KeysOf(Merge(a, b))[..|a|] == KeysOf(a)
    decreases |b|
  {
    if b != [] {
      var a' := Put(a, b[0].0, b[0].1);
      MergeKeepsKeys(a', b[1..]);
      if b[0].0 !in KeysOf(a) {
        assert KeysOf(a') == KeysOf(a) + [b[0].0];
      }
      assert KeysOf(Merge(a, b))[..|a|] == KeysOf(Merge(a', b[1..]))[..|a'|][..|a|];
    }
  }

  /** The keys of array_merge are those of both arguments. */
  lemma {:induction false} MergeKeys<V>(a: Entries<V>, b: Entries<V>, k: string)
    ensures k in KeysOf(Merge(a, b)) <==> k in KeysOf(a) || k in KeysOf(b)
    decreases |b|
  {
    if b != [] {
      MergeKeys(Put(a, b[0].0, b[0].1), b[1..], k);
      assert KeysOf(b) == [b[0].0] + KeysOf(b[1..]);
      assert (Find(Put(a, b[0].0, b[0].1), k)).Some? <==> k == b[0].0 || Find(a, k).Some?;
    }
  }

  /** A key of `b` has `b`'s value in array_merge; any other key keeps `a`'s. */
  lemma {:induction false} MergeFind<V>(a: Entries<V>, b: Entries<V>, k: string)
    requires Unique(b)
    ensures Find(Merge(a, b), k) == if k in KeysOf(b) then Find(b, k) else Find(a, k)
    decreases |b|
  {
    if b != [] {
      UniqueTail(b);
      MergeFind(Put(a, b[0].0, b[0].1), b[1..], k);
      assert KeysOf(b) == [b[0].0] + KeysOf(b[1..]);
    }
  }

  lemma {:induction false} PutAbsent<V>(a: Entries<V>, k: string, v: V)
    requires forall i :: 0 <= i < |a| ==> a[i].0 != k
    ensures Put(a, k, v) == a + [(k, v)]
  {
    if a != [] {
      PutAbsent(a[1..], k, v);
      assert [a[0]] + (a[1..] + [(k, v)]) == a + [(k, v)];
    }
  }

  /** Building an array of distinct keys entry by entry: putting its next entry after a prefix extends the prefix. */
  lemma {:induction false} PutNext<V>(t: Entries<V>, i: nat, a: Entries<V>)
    requires Unique(t) && i < |t| && a == t[..i]
    ensures Put(a, t[i].0, t[i].1) == t[..i + 1]
  {
    forall j | 0 <= j < |a| ensures a[j].0 != t[i].0 {
      assert a[j] == t[j];
    }
    PutAbsent(a, t[i].0, t[i].1);
    assert t[..i + 1] == t[..i] + [t[i]];
  }

  /** Dropping the first entry keeps the keys distinct. */
  lemma {:induction false} UniqueTail<V>(b: Entries<V>)
    requires Unique(b) && b != []
    ensures Unique(b[1..])
  {
    forall i, j | 0 <= i < j < |b| - 1 ensures b[1..][i].0 != b[1..][j].0 {
      assert b[1..][i] == b[i + 1] && b[1..][j] == b[j + 1];
    }
  }

  /** No later entry has the first entry's key. */
  lemma {:induction false} UniqueHead<V>(b: Entries<V>, j: nat)
    requires Unique(b) && 0 < j < |b|
    ensures b[j].0 != b[0].0
  {
  }

  /** The keys of an array with one more entry at its end. */
  lemma {:induction false} KeysSnoc<V>(a: Entries<V>, e: (string, V))
    ensures KeysOf(a + [e]) == KeysOf(a) + [e.0]
  {
    var l, r := KeysOf(a + [e]), KeysOf(a) + [e.0];
    assert |l| == |r|;
    forall i | 0 <= i < |l| ensures l[i] == r[i] {
      if i < |a| {
        assert (a + [e])[i] == a[i];
      }
    }
  }

  /** array_merge's first step appends an entry whose key `a` does not hold. */
  lemma {:induction false} MergeStepAbsent<V>(a: Entries<V>, b: Entries<V>)
    requires b != [] && b[0].0 !in KeysOf(a)
    ensures Merge(a, b) == Merge(a + [b[0]], b[1..])
  {
    forall i | 0 <= i < |a| ensures a[i].0 != b[0].0 {
      assert KeysOf(a)[i] == a[i].0;
    }
    PutAbsent(a, b[0].0, b[0].1);
  }

  /** Moving the first entry of `b` to the end of `a` leaves `a + b` unchanged. */
  lemma {:induction false} AppendShift<V>(a: Entries<V>, b: Entries<V>)
    requires b != []
    ensures (a + [b[0]]) + b[1..] == a + b
  {
    assert b == [b[0]] + b[1..];
  }

  /** When no key of `b` is in `a`, array_merge is concatenation. */
  lemma {:induction false} MergeDisjoint<V>(a: Entries<V>, b: Entries<V>)
    requires Unique(b)
    requires forall j :: 0 <= j < |b| ==> b[j].0 !in KeysOf(a)
    ensures Merge(a, b) == a + b
    decreases |b|
  {
    if b != [] {
      var a', b' := a + [b[0]], b[1..];
      MergeStepAbsent(a, b);
      UniqueTail(b);
      assert forall j :: 0 <= j < |b'| ==> b'[j].0 !in KeysOf(a') by {
        KeysSnoc(a, b[0]);
        forall j | 0 <= j < |b'| ensures b'[j].0 != b[0].0 {
          UniqueHead(b, j + 1);
        }
      }
      MergeDisjoint(a', b');
      AppendShift(a, b);
    }
  }

  /** When every key of `b` is already in `a`, array_merge keeps `a`'s keys and their order. */
  lemma {:induction false} MergeKnownKeys<V>(a: Entries<V>, b: Entries<V>)
    requires forall j :: 0 <= j < |b| ==> b[j].0 in KeysOf(a)
    ensures KeysOf(Merge(a, b)) == KeysOf(a)
    decreases |b|
  {
    if b != [] {
      var a' := Put(a, b[0].0, b[0].1);
      assert KeysOf(a') == KeysOf(a);
      assert forall j :: 0 <= j < |b[1..]| ==> b[1..][j] == b[j + 1];
      MergeKnownKeys(a', b[1..]);
    }
  }

  /** Two arrays without repeated keys are equal when they have the same keys in the same order and each key finds the same value. */
  lemma {:induction false} EntriesEqual<V>(x: Entries<V>, y: Entries<V>)
    requires Unique(x) && KeysOf(x) == KeysOf(y)
    requires forall k :: Find(x, k) == Find(y, k)
    ensures x == y
  {
    assert |x| == |y|;
    assert Unique(y) by {
      forall i, j | 0 <= i < j < |y| ensures y[i].0 != y[j].0 {
        assert KeysOf(x)[i] == y[i].0 && KeysOf(x)[j] == y[j].0;
      }
    }
    forall i | 0 <= i < |x| ensures x[i] == y[i] {
      assert KeysOf(x)[i] == y[i].0;
      FindUnique(x, i);
      FindUnique(y, i);
      assert Find(x, x[i].0) == Find(y, y[i].0);
    }
  }

  /** array_merge of two arrays with the same keys, in the same order, is the second array. */
  lemma {:induction false} MergeOverwrite<V>(a: Entries<V>, b: Entries<V>)
    requires Unique(b) && KeysOf(a) == KeysOf(b)
    ensures Merge(a, b) == b
  {
    forall j | 0 <= j < |b| ensures b[j].0 in KeysOf(a) {
      assert KeysOf(b)[j] == b[j].0;
    }
    MergeKnownKeys(a, b);
    forall k ensures Find(b, k) == Find(Merge(a, b), k) {
      MergeFind(a, b, k);
    }
    EntriesEqual(b, Merge(a, b));
  }
}
