/** `defaultdict(list)` filled by `m[k].append(v)`: a map from key to the
    values appended under it, in order. */
module Multimap {

  /** `m[k].append(v)`: a missing key starts as the empty list. */
  function Append<K(==), V>(m: map<K, seq<V>>, k: K, v: V): map<K, seq<V>>
  {
    m[k := (if k in m then m[k] else []) + [v]]
  }

  /** An append adds `k` if it was missing, puts `v` after the values already
      under `k`, and leaves every other key's list as it was. */
  lemma AppendLookup<K, V>(m: map<K, seq<V>>, k: K, v: V, k': K)
    ensures Append(m, k, v).Keys == m.Keys + {k}
    ensures k' == k ==> Append(m, k, v)[k'] == (if k in m then m[k] else []) + [v]
    ensures k' != k && k' in m ==> Append(m, k, v)[k'] == m[k']
  {
  }

  /** The dictionary after appending every (key, value) hit in order. */
  function Group<K(==), V>(hits: seq<(K, V)>): map<K, seq<V>>
  {
    if hits == [] then map[]
    else
      var last := hits[|hits| - 1];
      Append(Group(hits[..|hits| - 1]), last.0, last.1)
  }

  /** The values of the hits with key `k`, in order. */
  function Select<K(==), V>(hits: seq<(K, V)>, k: K): seq<V>
  {
    if hits == [] then []
    else
      var last := hits[|hits| - 1];
      Select(hits[..|hits| - 1], k) + (if last.0 == k then [last.1] else [])
  }

  lemma GroupSnoc<K, V>(hits: seq<(K, V)>, k: K, v: V)
    ensures Group(hits + [(k, v)]) == Append(Group(hits), k, v)
  {
    assert (hits + [(k, v)])[..|hits|] == hits;
  }

  /** A key is present exactly when some hit has it, and it holds exactly the
      values of the hits with that key, in order. */
  lemma {:induction false} GroupLookup<K, V>(hits: seq<(K, V)>)
    ensures forall k :: k in Group(hits) <==> Select(hits, k) != []
    ensures forall k :: k in Group(hits) ==> Group(hits)[k] == Select(hits, k)
  {
    if hits != [] {
      GroupLookup(hits[..|hits| - 1]);
    }
  }

  lemma {:induction false} SelectAppend<K, V>(a: seq<(K, V)>, b: seq<(K, V)>, k: K)
    ensures Select(a + b, k) == Select(a, k) + Select(b, k)
  {
    if b == [] {
      assert a + b == a;
    } else {
      var n := |b| - 1;
      SelectAppend(a, b[..n], k);
      assert (a + b)[..|a| + n] == a + b[..n];
    }
  }

  /** A value is selected under `k` exactly when (k, v) is one of the hits. */
  lemma {:induction false} SelectMembership<K, V>(hits: seq<(K, V)>, k: K, v: V)
    ensures v in Select(hits, k) <==> (k, v) in hits
  {
    if hits != [] {
      var n := |hits| - 1;
      SelectMembership(hits[..n], k, v);
      assert hits == hits[..n] + [hits[n]];
    }
  }
}
