/** A Python `dict` with `str` keys: entries in insertion order, each key
    at most once. Assigning to a present key keeps its position. */
module OrderedMap {
  import opened Results

  type Entries<V> = seq<(string, V)>

  function Keys<V>(e: Entries<V>): set<string> {
    set i | 0 <= i < |e| :: e[i].0
  }

  predicate UniqueKeys<V>(e: Entries<V>) {
    forall i, j :: 0 <= i < j < |e| ==> e[i].0 != e[j].0
  }

  /** `d.get(k)`. */
  function Get<V>(e: Entries<V>, k: string): (r: Option<V>)
    ensures r.None? <==> k !in Keys(e)
    ensures r.Some? ==> exists i :: 0 <= i < |e| && e[i] == (k, r.value)
  {
    if |e| == 0 then None
    else if e[0].0 == k then Some(e[0].1)
    else
      var r := Get(e[1..], k);
      KeysCons(e);
      assert r.Some? ==> exists i :: 0 < i < |e| && e[i] == (k, r.value) by {
        if r.Some? {
          var i :| 0 <= i < |e[1..]| && e[1..][i] == (k, r.value);
          assert e[i + 1] == (k, r.value);
        }
      }
      r
  }

  /** `d[k] = v`: replaces the value in place, or appends a new entry. */
  function Set<V>(e: Entries<V>, k: string, v: V): (r: Entries<V>)
    requires UniqueKeys(e)
    ensures UniqueKeys(r)
    ensures Keys(r) == Keys(e) + {k}
    ensures k in Keys(e) ==> |r| == |e| && forall i :: 0 <= i < |e| ==> r[i].0 == e[i].0
    ensures k !in Keys(e) ==> r == e + [(k, v)]
    ensures forall i :: 0 <= i < |r| && r[i].0 != k ==> i < |e| && r[i] == e[i]
    ensures forall i :: 0 <= i < |r| && r[i].0 == k ==> r[i].1 == v
  {
    if |e| == 0 then
      assert [(k, v)][0].0 == k;
      [(k, v)]
    else if e[0].0 == k then
      var r := [(k, v)] + e[1..];
      KeysCons(e);
      KeysCons(r);
      assert r[1..] == e[1..];
      r
    else
      var tail := Set(e[1..], k, v);
      SetBehind(e, k, v, tail);
      [e[0]] + tail
  }

  /** The head of `e` stays in front of the assignment into the rest. */
  lemma SetBehind<V>(e: Entries<V>, k: string, v: V, tail: Entries<V>)
    requires |e| > 0 && e[0].0 != k && UniqueKeys(e)
    requires UniqueKeys(tail)
    requires Keys(tail) == Keys(e[1..]) + {k}
    requires k in Keys(e[1..]) ==> |tail| == |e[1..]| && forall i :: 0 <= i < |e[1..]| ==> tail[i].0 == e[1..][i].0
    requires k !in Keys(e[1..]) ==> tail == e[1..] + [(k, v)]
    requires forall i :: 0 <= i < |tail| && tail[i].0 != k ==> i < |e[1..]| && tail[i] == e[1..][i]
    requires forall i :: 0 <= i < |tail| && tail[i].0 == k ==> tail[i].1 == v
    ensures var r := [e[0]] + tail;
      && UniqueKeys(r)
      && Keys(r) == Keys(e) + {k}
      && (k in Keys(e) ==> |r| == |e| && forall i :: 0 <= i < |e| ==> r[i].0 == e[i].0)
      && (k !in Keys(e) ==> r == e + [(k, v)])
      && (forall i :: 0 <= i < |r| && r[i].0 != k ==> i < |e| && r[i] == e[i])
      && (forall i :: 0 <= i < |r| && r[i].0 == k ==> r[i].1 == v)
  {
    var r := [e[0]] + tail;
    KeysCons(e);
    KeysCons(r);
    assert r[1..] == tail;
    assert e == [e[0]] + e[1..];
    forall i, j | 0 <= i < j < |r| ensures r[i].0 != r[j].0 {
      if i == 0 {
        assert r[j].0 in Keys(tail);
      }
    }
  }

  lemma KeysCons<V>(e: Entries<V>)
    requires |e| > 0
    ensures Keys(e) == {e[0].0} + Keys(e[1..])
  {
    forall key | key in Keys(e) ensures key in {e[0].0} + Keys(e[1..]) {
      var i :| 0 <= i < |e| && e[i].0 == key;
      if i > 0 { assert e[1..][i - 1].0 == key; }
    }
    forall key | key in Keys(e[1..]) ensures key in Keys(e) {
      var i :| 0 <= i < |e[1..]| && e[1..][i].0 == key;
      assert e[i + 1].0 == key;
    }
  }

  /** Reading back what was stored, and nothing else disturbed. */
  lemma {:induction false} GetSet<V>(e: Entries<V>, k: string, v: V, k2: string)
    requires UniqueKeys(e)
    ensures Get(Set(e, k, v), k) == Some(v)
    ensures k2 != k ==> Get(Set(e, k, v), k2) == Get(e, k2)
  {
    if |e| > 0 && e[0].0 != k {
      GetSet(e[1..], k, v, k2);
    }
  }
}
