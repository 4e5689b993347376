/** A plain JavaScript object with string-like keys, as the console code uses
    it: an ordered list of entries (the order `Object.entries` reports), whose
    keys are distinct. Reading a key that is not there gives `None`
    (`undefined`); `o[k] = v` and `{ ...o, [k]: v }` are both `Assign`. */
module JsObject {
  import opened Wrappers

  /** The keys of `o`, in entry order (`Object.keys`). */
  function KeysOf<K, V>(o: seq<(K, V)>): (ks: seq<K>)
    ensures |ks| == |o|
    ensures forall i :: 0 <= i < |o| ==> ks[i] == o[i].0
  {
    seq(|o|, i requires 0 <= i < |o| => o[i].0)
  }

  lemma KeysOfConcat<K, V>(a: seq<(K, V)>, b: seq<(K, V)>)
    ensures KeysOf(a + b) == KeysOf(a) + KeysOf(b)
  {
  }

  /** Object keys are unique: no two entries share a key. */
  predicate DistinctKeys<K(==), V>(o: seq<(K, V)>) {
    forall i, j :: 0 <= i < j < |o| ==> o[i].0 != o[j].0
  }

  /** In an object, no entry repeats the key of an entry before it. */
  lemma KeyFreshInPrefix<K, V>(o: seq<(K, V)>, i: nat)
    requires DistinctKeys(o) && i < |o|
    ensures o[i].0 !in KeysOf(o[..i])
  {
    forall j | 0 <= j < i ensures KeysOf(o[..i])[j] != o[i].0 {
      assert o[..i][j] == o[j];
    }
  }

  /** `o[k]`: the value stored under `k`, or `None` when `k` is not a key. */
  function Lookup<K(==), V>(o: seq<(K, V)>, k: K): (r: Option<V>)
    ensures r.None? <==> k !in KeysOf(o)
    ensures forall i :: 0 <= i < |o| && o[i].0 == k && DistinctKeys(o) ==> r == Some(o[i].1)
  {
    if o == [] then None
    else if o[0].0 == k then Some(o[0].1)
    else Lookup(o[1..], k)
  }

  /** `o[k] = v`: an existing key keeps its position and takes the new value;
      a new key is appended at the end. */
  function Assign<K(==), V>(o: seq<(K, V)>, k: K, v: V): (r: seq<(K, V)>)
    ensures k in KeysOf(o) ==> |r| == |o| && KeysOf(r) == KeysOf(o)
    ensures k !in KeysOf(o) ==> r == o + [(k, v)]
    ensures forall i :: 0 <= i < |o| && o[i].0 != k ==> r[i] == o[i]
  {
    if o == [] then [(k, v)]
    else if o[0].0 == k then [(k, v)] + o[1..]
    else
      KeysOfConcat([o[0]], o[1..]);
      assert o == [o[0]] + o[1..];
      var rest := Assign(o[1..], k, v);
      KeysOfConcat([o[0]], rest);
      [o[0]] + rest
  }

  /** On an object, assigning an existing key overwrites that one entry in place. */
  lemma {:induction false} AssignExisting<K, V>(o: seq<(K, V)>, k: K, v: V, i: nat)
    requires DistinctKeys(o) && i < |o| && o[i].0 == k
    ensures Assign(o, k, v) == o[i := (k, v)]
  {
    if i > 0 {
      assert o[1..][i - 1].0 == k;
      AssignExisting(o[1..], k, v, i - 1);
      assert o[1..][i - 1 := (k, v)] == o[i := (k, v)][1..];
    }
  }

  /** Assignment keeps the keys of an object distinct. */
  lemma AssignKeepsDistinct<K, V>(o: seq<(K, V)>, k: K, v: V)
    requires DistinctKeys(o)
    ensures DistinctKeys(Assign(o, k, v))
  {
    if k in KeysOf(o) {
      var i :| 0 <= i < |o| && KeysOf(o)[i] == k;
      AssignExisting(o, k, v, i);
    }
  }

  /** After `o[k] = v`, reading `k` gives `v` and every other key reads as before. */
  lemma {:induction false} AssignLookup<K, V>(o: seq<(K, V)>, k: K, v: V, k': K)
    ensures Lookup(Assign(o, k, v), k') == if k' == k then Some(v) else Lookup(o, k')
  {
    if o != [] && o[0].0 != k {
      AssignLookup(o[1..], k, v, k');
    }
  }
}
