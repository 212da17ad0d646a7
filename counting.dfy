/**
  * The counting idiom the analyser uses twice (the Struts duplicate map and the
  * front-end path recount): `m.put(k, m.getOrDefault(k, 0) + 1)` once per key,
  * in list order.
  */
module Counting {

  /** The map obtained by incrementing the entry of each key of `keys` once, in order. */
  function Tally(keys: seq<string>): map<string, nat>
  {
    if keys == [] then map[] else Increment(Tally(keys[..|keys| - 1]), keys[|keys| - 1])
  }

  /** The tally holds exactly the keys that occur, each with its number of occurrences. */
  lemma {:induction false} TallyCounts(keys: seq<string>)
    ensures forall k :: k in Tally(keys) <==> k in keys
    ensures forall k :: k in Tally(keys) ==> Tally(keys)[k] == multiset(keys)[k]
  {
    if keys != [] {
      var rest, last := keys[..|keys| - 1], keys[|keys| - 1];
      assert keys == rest + [last];
      TallyCounts(rest);
    }
  }

  /** Counting one more key is one more increment. */
  lemma TallyAppend(keys: seq<string>, k: string)
    ensures Tally(keys + [k]) == Increment(Tally(keys), k)
  {
    assert (keys + [k])[..|keys|] == keys;
  }

  /** `m.put(k, m.getOrDefault(k, 0) + 1)` */
  function Increment(m: map<string, nat>, k: string): (r: map<string, nat>)
    ensures r.Keys == m.Keys + {k}
    ensures r[k] == (if k in m then m[k] else 0) + 1
    ensures forall j :: j in m && j != k ==> r[j] == m[j]
  {
    m[k := GetOrDefault(m, k, 0) + 1]
  }

  /** `m.getOrDefault(k, d)` */
  function GetOrDefault(m: map<string, nat>, k: string, d: nat): nat
  {
    if k in m then m[k] else d
  }

  /** The sum of the values of a map. */
  ghost function SumValues(m: map<string, nat>): nat
    decreases |m|
  {
    if m == map[] then 0
    else
      var k :| k in m;
      m[k] + SumValues(m - {k})
  }

  /** The sum does not depend on which key is taken out first. */
  lemma SumValuesRemove(m: map<string, nat>, k: string)
    requires k in m
    ensures SumValues(m) == m[k] + SumValues(m - {k})
    decreases |m|
  {
    var j :| j in m && SumValues(m) == m[j] + SumValues(m - {j});
    if j != k {
      var mj, mk := m - {j}, m - {k};
      assert |mj| < |m| && |mk| < |m| by {
        assert mj.Keys == m.Keys - {j} && mk.Keys == m.Keys - {k};
      }
      SumValuesRemove(mj, k);
      SumValuesRemove(mk, j);
      assert mj - {k} == mk - {j};
    }
  }

  /** Incrementing one entry raises the sum by one. */
  lemma SumValuesIncrement(m: map<string, nat>, k: string)
    ensures SumValues(Increment(m, k)) == SumValues(m) + 1
  {
    var r := Increment(m, k);
    SumValuesRemove(r, k);
    assert r - {k} == m - {k};
    if k in m {
      SumValuesRemove(m, k);
    } else {
      assert m - {k} == m;
    }
  }

  /** One increment per key: the counts add up to the number of keys. */
  lemma {:induction false} TallySum(keys: seq<string>)
    ensures SumValues(Tally(keys)) == |keys|
  {
    if keys != [] {
      var rest := keys[..|keys| - 1];
      TallySum(rest);
      SumValuesIncrement(Tally(rest), keys[|keys| - 1]);
    }
  }
}
