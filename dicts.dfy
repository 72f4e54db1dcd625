/** Python dictionaries as used by the catalog: a map together with the order in which
    its keys were first inserted. Assigning to a key that is already present replaces
    its value and keeps its position; `keys()` and `values()` follow that order. */
module Dicts {
  import opened Seqs

  datatype Dict<K(!new), V> = Dict(keys: seq<K>, entries: map<K, V>)
  {
    /** The insertion order lists every key of the map exactly once. */
    ghost predicate Valid() {
      Distinct(keys) && (forall k :: k in entries <==> k in keys)
    }

    /** `d[k] = v`. */
    function Put(k: K, v: V): (r: Dict<K, V>)
      requires Valid()
      ensures r.Valid()
      ensures r.entries == entries[k := v]
      ensures r.keys == if k in entries then keys else keys + [k]
    {
      if k in entries then Dict(keys, entries[k := v]) else Dict(keys + [k], entries[k := v])
    }

    /** `list(d.values())`: the entries in key order. */
    function Values(): (vs: seq<V>)
      requires Valid()
      ensures |vs| == |keys|
      ensures forall i :: 0 <= i < |keys| ==> vs[i] == entries[keys[i]]
    {
      seq(|keys|, i requires 0 <= i < |keys| => entries[keys[i]])
    }

    /** The values listed are exactly the values the dictionary maps some key to. */
    lemma ValuesMembers()
      requires Valid()
      ensures forall v :: v in Values() <==> exists k :: k in entries && entries[k] == v
    {
      forall v | v in Values() ensures exists k :: k in entries && entries[k] == v {
        var i :| 0 <= i < |keys| && Values()[i] == v;
        assert keys[i] in entries && entries[keys[i]] == v;
      }
      forall v | (exists k :: k in entries && entries[k] == v) ensures v in Values() {
        var k :| k in entries && entries[k] == v;
        var i :| 0 <= i < |keys| && keys[i] == k;
        assert Values()[i] == v;
      }
    }
  }

  /** `{}`. */
  function Empty<K(!new), V>(): (d: Dict<K, V>)
    ensures d.Valid() && d.keys == [] && d.entries == map[]
  {
    Dict([], map[])
  }

  /** The first components of a sequence of pairs. */
  function Firsts<K, V>(ps: seq<(K, V)>): (ks: seq<K>)
    ensures |ks| == |ps|
    ensures forall i :: 0 <= i < |ps| ==> ks[i] == ps[i].0
  {
    seq(|ps|, i requires 0 <= i < |ps| => ps[i].0)
  }

  /** The position of the last occurrence of `k` in `ks`. */
  function LastIndex<K(==)>(ks: seq<K>, k: K): (j: nat)
    requires k in ks
    ensures j < |ks| && ks[j] == k
    ensures forall i :: j < i < |ks| ==> ks[i] != k
    decreases |ks|
  {
    if ks[|ks| - 1] == k then |ks| - 1
    else
      assert k in ks[..|ks| - 1] by {
        assert ks == ks[..|ks| - 1] + [ks[|ks| - 1]];
      }
      LastIndex(ks[..|ks| - 1], k)
  }

  /** The dictionary obtained by assigning the pairs of `ps` one after the other, starting
      from `{}`: the loops of the loader and `dict(iterable_of_pairs)`. */
  function FromPairs<K(!new), V>(ps: seq<(K, V)>): (d: Dict<K, V>)
    ensures d.Valid()
    ensures forall k :: k in d.entries <==> k in Firsts(ps)
    decreases |ps|
  {
    if ps == [] then Empty()
    else
      assert Firsts(ps) == Firsts(ps[..|ps| - 1]) + [ps[|ps| - 1].0];
      FromPairs(ps[..|ps| - 1]).Put(ps[|ps| - 1].0, ps[|ps| - 1].1)
  }

  /** The dictionary built from one more pair of a prefix of `ps`. */
  lemma FromPairsPrefix<K(!new), V>(ps: seq<(K, V)>, i: nat)
    requires i < |ps|
    ensures FromPairs(ps[..i + 1]) == FromPairs(ps[..i]).Put(ps[i].0, ps[i].1)
  {
    assert ps[..i + 1][..i] == ps[..i];
  }

  /** Building a dictionary from pairs: its keys come in order of first occurrence among
      the first components. */
  lemma {:induction false} FromPairsKeys<K(!new), V>(ps: seq<(K, V)>)
    ensures FromPairs(ps).keys == Dedup(Firsts(ps))
    decreases |ps|
  {
    if ps != [] {
      var n := |ps| - 1;
      FromPairsKeys(ps[..n]);
      assert Firsts(ps)[..n] == Firsts(ps[..n]);
    }
  }

  /** Building a dictionary from pairs: each key holds the value of the LAST pair that
      carries it. */
  lemma {:induction false} FromPairsLastWins<K(!new), V>(ps: seq<(K, V)>, k: K)
    requires k in Firsts(ps)
    ensures k in FromPairs(ps).entries
    ensures FromPairs(ps).entries[k] == ps[LastIndex(Firsts(ps), k)].1
    decreases |ps|
  {
    var n := |ps| - 1;
    if ps[n].0 != k {
      var p := ps[..n];
      assert Firsts(ps) == Firsts(p) + [ps[n].0];
      assert k in Firsts(p);
      FromPairsLastWins(p, k);
      assert Firsts(ps)[..n] == Firsts(p);
    }
  }

  /** Both facts about `FromPairs`, for every key. */
  lemma FromPairsSpec<K(!new), V>(ps: seq<(K, V)>)
    ensures FromPairs(ps).keys == Dedup(Firsts(ps))
    ensures forall k :: k in FromPairs(ps).entries ==>
              FromPairs(ps).entries[k] == ps[LastIndex(Firsts(ps), k)].1
  {
    FromPairsKeys(ps);
    forall k | k in FromPairs(ps).entries
      ensures FromPairs(ps).entries[k] == ps[LastIndex(Firsts(ps), k)].1
    {
      FromPairsLastWins(ps, k);
    }
  }
}
