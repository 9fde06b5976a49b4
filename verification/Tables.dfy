/** Dictionaries with a default value: the counts and set-valued tables that the offline
    tools fill in, with what they mean and how two of them merge. */
module Tables {

  function Get<K>(m: map<K, nat>, k: K): nat {
    if k in m then m[k] else 0
  }

  function GetSet<K, V>(m: map<K, set<V>>, k: K): set<V> {
    if k in m then m[k] else {}
  }

  /** The number of occurrences of every element of a sequence. */
  function Counter<K>(s: seq<K>): map<K, nat> {
    map k | k in s :: multiset(s)[k]
  }

  /** The values that occur with key `k` in a sequence of pairs. */
  function Values<K(==), V(==)>(s: seq<(K, V)>, k: K): set<V> {
    set q | q in s && q.0 == k :: q.1
  }

  function Relation<K(==), V(==)>(s: seq<(K, V)>): map<K, set<V>> {
    map p | p in s :: p.0 := Values(s, p.0)
  }

  function Bump<K>(m: map<K, nat>, k: K): map<K, nat> {
    m[k := Get(m, k) + 1]
  }

  function Insert<K, V>(m: map<K, set<V>>, k: K, v: V): map<K, set<V>> {
    m[k := GetSet(m, k) + {v}]
  }

  function AddCounts<K>(a: map<K, nat>, b: map<K, nat>): map<K, nat> {
    map k | k in a.Keys + b.Keys :: Get(a, k) + Get(b, k)
  }

  function UnionSets<K, V>(a: map<K, set<V>>, b: map<K, set<V>>): map<K, set<V>> {
    map k | k in a.Keys + b.Keys :: GetSet(a, k) + GetSet(b, k)
  }

  lemma CounterSnoc<K>(s: seq<K>, k: K)
    ensures Counter(s + [k]) == Bump(Counter(s), k)
  {
    assert multiset(s + [k]) == multiset(s) + multiset{k};
  }

  lemma CounterConcat<K>(s: seq<K>, t: seq<K>)
    ensures Counter(s + t) == AddCounts(Counter(s), Counter(t))
  {
    assert multiset(s + t) == multiset(s) + multiset(t);
  }

  lemma ValuesConcat<K, V>(s: seq<(K, V)>, t: seq<(K, V)>, k: K)
    ensures Values(s + t, k) == Values(s, k) + Values(t, k)
  {
  }

  lemma RelationAt<K, V>(s: seq<(K, V)>, k: K)
    ensures k in Relation(s) <==> exists p :: p in s && p.0 == k
    ensures GetSet(Relation(s), k) == Values(s, k)
  {
    if p :| p in s && p.0 == k {
    }
  }

  lemma RelationConcat<K, V>(s: seq<(K, V)>, t: seq<(K, V)>)
    ensures Relation(s + t) == UnionSets(Relation(s), Relation(t))
  {
    var l, r := Relation(s + t), UnionSets(Relation(s), Relation(t));
    forall k
      ensures k in l <==> k in r
      ensures GetSet(l, k) == GetSet(r, k)
    {
      RelationAt(s + t, k);
      RelationAt(s, k);
      RelationAt(t, k);
      ValuesConcat(s, t, k);
    }
    SameTables(l, r);
  }

  lemma SameTables<K, V>(l: map<K, set<V>>, r: map<K, set<V>>)
    requires forall k :: k in l <==> k in r
    requires forall k :: GetSet(l, k) == GetSet(r, k)
    ensures l == r
  {
    forall k | k in l ensures l[k] == r[k] {
      assert GetSet(l, k) == GetSet(r, k);
    }
  }

  lemma RelationSnoc<K, V>(s: seq<(K, V)>, p: (K, V))
    ensures Relation(s + [p]) == Insert(Relation(s), p.0, p.1)
  {
    var l, r := Relation(s + [p]), Insert(Relation(s), p.0, p.1);
    forall k
      ensures k in l <==> k in r
      ensures GetSet(l, k) == GetSet(r, k)
    {
      RelationAt(s + [p], k);
      RelationAt(s, k);
      ValuesConcat(s, [p], k);
      assert p in s + [p] && Values([p], k) == if p.0 == k then {p.1} else {};
    }
    SameTables(l, r);
  }

  /** total[k] += c for every item of `part`, in any order. */
  method AddInto<K(==)>(total: map<K, nat>, part: map<K, nat>) returns (r: map<K, nat>)
    ensures r == AddCounts(total, part)
  {
    r := total;
    var keys := part.Keys;
    while keys != {}
      invariant keys <= part.Keys
      invariant r.Keys == total.Keys + (part.Keys - keys)
      invariant forall k :: k in r ==> r[k] == Get(total, k) + if k in keys then 0 else Get(part, k)
      decreases keys
    {
      var k :| k in keys;
      r := r[k := Get(r, k) + part[k]];
      keys := keys - {k};
    }
  }

  lemma UnionStep<K, V>(total: map<K, set<V>>, done: map<K, set<V>>, k: K, s: set<V>)
    requires k !in done
    ensures UnionSets(total, done[k := s]) == Join(UnionSets(total, done), k, s)
  {
    assert GetSet(total, k) + {} + s == GetSet(total, k) + s;
  }

  lemma UnionEmpty<K, V>(total: map<K, set<V>>)
    ensures UnionSets(total, map[]) == total
  {
    assert forall k :: k in total ==> total[k] + {} == total[k];
  }

  function Join<K, V>(m: map<K, set<V>>, k: K, s: set<V>): map<K, set<V>> {
    m[k := GetSet(m, k) + s]
  }

  /** total[k] |= s for every item of `part`, in any order. */
  method UnionInto<K(==), V>(total: map<K, set<V>>, part: map<K, set<V>>) returns (r: map<K, set<V>>)
    ensures r == UnionSets(total, part)
  {
    r := total;
    var keys := part.Keys;
    ghost var done: map<K, set<V>> := map[];
    UnionEmpty(total);
    while keys != {}
      invariant keys <= part.Keys && done == part - keys
      invariant r == UnionSets(total, done)
      decreases keys
    {
      var k :| k in keys;
      UnionStep(total, done, k, part[k]);
      r := Join(r, k, part[k]);
      keys := keys - {k};
      done := done[k := part[k]];
    }
    assert done == part;
  }
}
