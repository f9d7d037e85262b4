/** A Python `dict` with string keys: the key-value mapping together with
    the order in which the keys were first inserted, which is the order a
    `for k in d` loop visits them. */
module Dicts {
  import opened Outcomes

  datatype Dict<V> = Dict(keys: seq<string>, entries: map<string, V>)

  /** Each key is listed once, and the listed keys are the mapped ones. */
  ghost predicate Valid<V>(d: Dict<V>) {
    (forall i, j :: 0 <= i < j < |d.keys| ==> d.keys[i] != d.keys[j])
    && (forall k :: k in d.entries <==> k in d.keys)
  }

  /** `d.get(k)` */
  function Get<V>(d: Dict<V>, k: string): (r: Option<V>)
    ensures r.None? <==> k !in d.entries
    ensures r.Some? ==> r.value == d.entries[k]
  {
    if k in d.entries then Some(d.entries[k]) else None
  }

  /** `{}` */
  function Empty<V>(): (d: Dict<V>)
    ensures Valid(d) && d.keys == []
    ensures forall k :: Get(d, k) == None
  {
    Dict([], map[])
  }

  /** `d[k] = v`: a new key goes to the end, an existing key keeps its place
      and takes the new value. */
  function Put<V>(d: Dict<V>, k: string, v: V): (r: Dict<V>)
    requires Valid(d)
    ensures Valid(r)
    ensures Get(r, k) == Some(v)
    ensures forall k' :: k' != k ==> Get(r, k') == Get(d, k')
    ensures k in d.entries ==> r.keys == d.keys
    ensures k !in d.entries ==> r.keys == d.keys + [k]
  {
    Dict(if k in d.entries then d.keys else d.keys + [k], d.entries[k := v])
  }

  /** The keys of a list of pairs, in order. */
  function Firsts<V>(ps: seq<(string, V)>): (ks: seq<string>)
    ensures |ks| == |ps|
    ensures forall i :: 0 <= i < |ps| ==> ks[i] == ps[i].0
  {
    seq(|ps|, i requires 0 <= i < |ps| => ps[i].0)
  }

  lemma FirstsSnoc<V>(ps: seq<(string, V)>)
    requires ps != []
    ensures Firsts(ps) == Firsts(ps[..|ps| - 1]) + [ps[|ps| - 1].0]
  {
  }

  /** `dict(ps)`, or a comprehension `{k: v for ...}`: the pairs are
      inserted one after the other. */
  function FromPairs<V>(ps: seq<(string, V)>): (d: Dict<V>)
    ensures Valid(d)
    ensures |d.keys| <= |ps|
    decreases |ps|
  {
    if ps == [] then Empty()
    else Put(FromPairs(ps[..|ps| - 1]), ps[|ps| - 1].0, ps[|ps| - 1].1)
  }

  /** Where `k` first occurs in `ks`. */
  function FirstIndex(ks: seq<string>, k: string): (i: nat)
    requires k in ks
    ensures i < |ks| && ks[i] == k
    ensures forall j :: 0 <= j < i ==> ks[j] != k
  {
    if ks[0] == k then 0 else 1 + FirstIndex(ks[1..], k)
  }

  /** The keys of `dict(ps)` are exactly the keys that occur in `ps`. */
  lemma {:induction false} FromPairsKeys<V>(ps: seq<(string, V)>, k: string)
    ensures k in FromPairs(ps).entries <==> k in Firsts(ps)
    decreases |ps|
  {
    if ps != [] {
      var init := ps[..|ps| - 1];
      FromPairsKeys(init, k);
      FirstsSnoc(ps);
    }
  }

  /** Later pairs overwrite earlier ones: a key is mapped to the value of
      its last pair. */
  lemma {:induction false} FromPairsLastWins<V>(ps: seq<(string, V)>, i: nat)
    requires i < |ps|
    requires forall j :: i < j < |ps| ==> ps[j].0 != ps[i].0
    ensures Get(FromPairs(ps), ps[i].0) == Some(ps[i].1)
    decreases |ps|
  {
    if i < |ps| - 1 {
      var init := ps[..|ps| - 1];
      FromPairsLastWins(init, i);
    }
  }

  /** `keys` lists elements of `ks` in the order of their first occurrence
      in `ks`. */
  ghost predicate FirstOccurrenceOrder(keys: seq<string>, ks: seq<string>) {
    && (forall k :: k in keys ==> k in ks)
    && (forall a, b :: 0 <= a < b < |keys| ==> FirstIndex(ks, keys[a]) < FirstIndex(ks, keys[b]))
  }

  /** The order is kept when `k` is appended to `ks`, and `k` goes last
      when it is new. */
  lemma FirstOccurrenceOrderExtend(keys: seq<string>, ks: seq<string>, k: string)
    requires FirstOccurrenceOrder(keys, ks)
    ensures k in ks ==> FirstOccurrenceOrder(keys, ks + [k])
    ensures k !in ks ==> FirstOccurrenceOrder(keys + [k], ks + [k])
  {
    var ks' := ks + [k];
    forall x | x in keys ensures FirstIndex(ks', x) == FirstIndex(ks, x) {
      FirstIndexAppend(ks, x, k);
    }
    if k !in ks {
      FirstIndexAppend(ks, k, k);
      var keys' := keys + [k];
      forall a, b | 0 <= a < b < |keys'|
        ensures FirstIndex(ks', keys'[a]) < FirstIndex(ks', keys'[b])
      {
        assert keys'[a] == keys[a];
        if b < |keys| { assert keys'[b] == keys[b]; }
      }
    }
  }

  /** The keys of `dict(ps)` are listed in the order of their first
      occurrence in `ps`. */
  lemma {:induction false} FromPairsOrder<V>(ps: seq<(string, V)>)
    ensures FirstOccurrenceOrder(FromPairs(ps).keys, Firsts(ps))
    decreases |ps|
  {
    if ps != [] {
      var init := ps[..|ps| - 1];
      var k := ps[|ps| - 1].0;
      FromPairsOrder(init);
      FirstsSnoc(ps);
      FromPairsKeys(init, k);
      FirstOccurrenceOrderExtend(FromPairs(init).keys, Firsts(init), k);
    }
  }

  lemma {:induction false} FirstIndexAppend(ks: seq<string>, x: string, k: string)
    requires x in ks + [k]
    ensures x in ks ==> FirstIndex(ks + [k], x) == FirstIndex(ks, x)
    ensures x !in ks ==> FirstIndex(ks + [k], x) == |ks|
  {
    if ks != [] && ks[0] != x {
      assert (ks + [k])[1..] == ks[1..] + [k];
      FirstIndexAppend(ks[1..], x, k);
    }
  }
}
