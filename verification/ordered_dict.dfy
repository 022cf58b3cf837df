/** Python's `dict` with string keys, as the decoders use it: keys keep the order of their first
    insertion, and assigning an existing key replaces its value in place. */
module OrderedDict {
  import opened Wrappers

  datatype Entry<V> = Entry(key: string, value: V)

  type Dict<V> = seq<Entry<V>>

  function Keys<V>(d: Dict<V>): (ks: seq<string>)
    ensures |ks| == |d|
    ensures forall i :: 0 <= i < |d| ==> ks[i] == d[i].key
  {
    if |d| == 0 then [] else [d[0].key] + Keys(d[1..])
  }

  predicate Distinct(ks: seq<string>) {
    forall i, j :: 0 <= i < j < |ks| ==> ks[i] != ks[j]
  }

  /** `d.get(k)`. */
  function Get<V>(d: Dict<V>, k: string): (r: Option<V>)
    ensures r.Some? <==> k in Keys(d)
  {
    if |d| == 0 then None
    else if d[0].key == k then Some(d[0].value)
    else Get(d[1..], k)
  }

  /** `d[k] = v`: the value of `k` becomes `v`, every other key keeps its value,
      and the key order only grows by `k` at the end when `k` is new. */
  function Put<V>(d: Dict<V>, k: string, v: V): (r: Dict<V>)
    ensures k in Keys(d) ==> Keys(r) == Keys(d)
    ensures k !in Keys(d) ==> Keys(r) == Keys(d) + [k]
    ensures Get(r, k) == Some(v)
    ensures forall k' :: k' != k ==> Get(r, k') == Get(d, k')
  {
    if |d| == 0 then [Entry(k, v)]
    else if d[0].key == k then
      PutFirst(d, k, v);
      [Entry(k, v)] + d[1..]
    else
      var t := Put(d[1..], k, v);
      PutBehind(d, k, v, t);
      [d[0]] + t
  }

  /** Assigning the first key replaces its value in place. */
  lemma {:induction false} PutFirst<V>(d: Dict<V>, k: string, v: V)
    requires |d| > 0 && d[0].key == k
    ensures var r := [Entry(k, v)] + d[1..];
      && Keys(r) == Keys(d)
      && Get(r, k) == Some(v)
      && forall k' :: k' != k ==> Get(r, k') == Get(d, k')
  {
    var r := [Entry(k, v)] + d[1..];
    assert r[1..] == d[1..];
  }

  /** Assigning behind the first entry keeps the first entry in front. */
  lemma {:induction false} PutBehind<V>(d: Dict<V>, k: string, v: V, t: Dict<V>)
    requires |d| > 0 && d[0].key != k
    requires k in Keys(d[1..]) ==> Keys(t) == Keys(d[1..])
    requires k !in Keys(d[1..]) ==> Keys(t) == Keys(d[1..]) + [k]
    requires Get(t, k) == Some(v)
    requires forall k' :: k' != k ==> Get(t, k') == Get(d[1..], k')
    ensures var r := [d[0]] + t;
      && (k in Keys(d) ==> Keys(r) == Keys(d))
      && (k !in Keys(d) ==> Keys(r) == Keys(d) + [k])
      && Get(r, k) == Some(v)
      && forall k' :: k' != k ==> Get(r, k') == Get(d, k')
  {
    var r := [d[0]] + t;
    assert r[1..] == t;
    assert Keys(r) == [d[0].key] + Keys(t);
    assert Keys(d) == [d[0].key] + Keys(d[1..]);
    assert k in Keys(d) <==> k in Keys(d[1..]);
    if k !in Keys(d) {
      assert Keys(r) == [d[0].key] + (Keys(d[1..]) + [k]);
    }
  }

  /** The keys of `ks` without repeats, each at its first position. */
  function Dedup(ks: seq<string>): (r: seq<string>)
    ensures Distinct(r)
    ensures forall k :: k in r <==> k in ks
  {
    if |ks| == 0 then []
    else
      var p := Dedup(ks[..|ks| - 1]);
      assert forall k :: k in ks <==> k in ks[..|ks| - 1] || k == ks[|ks| - 1] by {
        assert ks == ks[..|ks| - 1] + [ks[|ks| - 1]];
      }
      if ks[|ks| - 1] in p then p else p + [ks[|ks| - 1]]
  }

  /** The index of the last occurrence of `k` in `ks`. */
  function LastIndex(ks: seq<string>, k: string): (i: nat)
    requires k in ks
    ensures i < |ks| && ks[i] == k
    ensures forall j :: i < j < |ks| ==> ks[j] != k
  {
    if ks[|ks| - 1] == k then |ks| - 1
    else
      assert k in ks[..|ks| - 1] by {
        var j :| 0 <= j < |ks| && ks[j] == k;
        assert ks[..|ks| - 1][j] == k;
      }
      LastIndex(ks[..|ks| - 1], k)
  }

  /** `for i, k in enumerate(ks): d[k] = value(i)` starting from an empty dict. */
  function FromKeys<V>(ks: seq<string>, value: nat -> V): Dict<V>
  {
    if |ks| == 0 then [] else Put(FromKeys(ks[..|ks| - 1], value), ks[|ks| - 1], value(|ks| - 1))
  }

  /** Filling a dict from a key sequence: the keys are the distinct keys in
      first-occurrence order, and a repeated key holds the value of its last
      position (the later assignment replaces the earlier one). */
  lemma {:induction false} FromKeysSpec<V>(ks: seq<string>, value: nat -> V)
    ensures Keys(FromKeys(ks, value)) == Dedup(ks)
    ensures forall k :: k in ks ==> Get(FromKeys(ks, value), k) == Some(value(LastIndex(ks, k)))
    ensures forall k :: k !in ks ==> Get(FromKeys(ks, value), k) == None
    decreases |ks|
  {
    if |ks| > 0 {
      var n := |ks| - 1;
      var p := ks[..n];
      FromKeysSpec(p, value);
      assert ks == p + [ks[n]];
      forall k | k in ks
        ensures Get(FromKeys(ks, value), k) == Some(value(LastIndex(ks, k)))
      {
        if k != ks[n] {
          assert k in p;
        }
      }
    }
  }

  /** Every value stored by `FromKeys` is `value(i)` for some position `i`. */
  lemma {:induction false} FromKeysValues<V>(ks: seq<string>, value: nat -> V, k: string)
    requires k in ks
    ensures exists i :: 0 <= i < |ks| && ks[i] == k && Get(FromKeys(ks, value), k) == Some(value(i))
  {
    FromKeysSpec(ks, value);
  }
}
