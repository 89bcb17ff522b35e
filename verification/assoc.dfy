/** A JavaScript plain object used as a dictionary, modelled as an ordered
    association list: `Object.keys` lists the keys in insertion order,
    assigning to an existing key keeps its place, assigning to a new key
    appends it, and `delete` drops it. */
module Assoc {
  import opened Wrappers
  import opened Seqs

  type Table = seq<(string, string)>

  /** `Object.keys(m)` */
  function Keys(m: Table): (ks: seq<string>)
    ensures |ks| == |m|
    ensures forall i :: 0 <= i < |m| ==> ks[i] == m[i].0
    decreases |m|
  {
    if |m| == 0 then [] else [m[0].0] + Keys(m[1..])
  }

  /** `k in m` */
  predicate HasKey(m: Table, k: string) {
    k in Keys(m)
  }

  /** Every key appears once, as in a JavaScript object. */
  predicate DistinctKeys(m: Table) {
    forall i, j :: 0 <= i < j < |m| ==> m[i].0 != m[j].0
  }

  /** `m[k]`, with `None` for a missing key. */
  function Get(m: Table, k: string): (r: Option<string>)
    ensures r.Some? <==> HasKey(m, k)
    ensures r.Some? ==> (k, r.value) in m
    ensures DistinctKeys(m) ==> forall i :: 0 <= i < |m| && m[i].0 == k ==> r == Some(m[i].1)
    decreases |m|
  {
    if |m| == 0 then None
    else if m[0].0 == k then Some(m[0].1)
    else
      var r := Get(m[1..], k);
      assert HasKey(m, k) <==> HasKey(m[1..], k) by {
        assert Keys(m) == [m[0].0] + Keys(m[1..]);
      }
      r
  }

  /** Replaces the value of every pair with key `k`, keeping positions. */
  function Update(m: Table, k: string, v: string): (r: Table)
    ensures Keys(r) == Keys(m)
    ensures HasKey(m, k) ==> Get(r, k) == Some(v)
    ensures forall k' :: k' != k ==> Get(r, k') == Get(m, k')
    ensures forall i :: 0 <= i < |r| ==> r[i] in m || r[i] == (k, v)
    decreases |m|
  {
    if |m| == 0 then []
    else
      var rest := Update(m[1..], k, v);
      var r := [if m[0].0 == k then (k, v) else m[0]] + rest;
      assert r[1..] == rest;
      assert Keys(m) == [m[0].0] + Keys(m[1..]);
      r
  }

  /** `m[k] = v` */
  function Put(m: Table, k: string, v: string): (r: Table)
    ensures Get(r, k) == Some(v)
    ensures forall k' :: k' != k ==> Get(r, k') == Get(m, k')
    ensures Keys(r) == if HasKey(m, k) then Keys(m) else Keys(m) + [k]
    ensures DistinctKeys(m) ==> DistinctKeys(r)
    ensures forall i :: 0 <= i < |r| ==> r[i] in m || r[i] == (k, v)
  {
    if HasKey(m, k) then
      Update(m, k, v)
    else
      var r := m + [(k, v)];
      assert Keys(r) == Keys(m) + [k];
      PutNewGet(m, k, v);
      r
  }

  /** Assigning a one-key table its own pair leaves it as it is. */
  lemma {:induction false} PutSingle(k: string, v: string)
    ensures Put([(k, v)], k, v) == [(k, v)]
  {
  }

  /** Lookups in a list with one new pair appended. */
  lemma {:induction false} PutNewGet(m: Table, k: string, v: string)
    requires !HasKey(m, k)
    ensures Get(m + [(k, v)], k) == Some(v)
    ensures forall k' :: k' != k ==> Get(m + [(k, v)], k') == Get(m, k')
    decreases |m|
  {
    if |m| > 0 {
      assert (m + [(k, v)])[1..] == m[1..] + [(k, v)];
      assert Keys(m) == [m[0].0] + Keys(m[1..]);
      PutNewGet(m[1..], k, v);
    }
  }

  /** `delete m[k]` */
  function Remove(m: Table, k: string): (r: Table)
    ensures !HasKey(r, k)
    ensures forall k' :: k' != k ==> Get(r, k') == Get(m, k')
    ensures DistinctKeys(m) ==> DistinctKeys(r)
    ensures forall i :: 0 <= i < |r| ==> r[i] in m
    decreases |m|
  {
    if |m| == 0 then []
    else
      var rest := Remove(m[1..], k);
      var r := if m[0].0 == k then rest else [m[0]] + rest;
      assert Keys(r) == if m[0].0 == k then Keys(rest) else [m[0].0] + Keys(rest);
      assert m[0].0 != k ==> r[1..] == rest;
      r
  }

  /** `delete` keeps the other keys in their order. */
  lemma {:induction false} RemoveKeepsOrder(m: Table, k: string)
    ensures Keys(Remove(m, k)) == Filter(x => x != k, Keys(m))
    decreases |m|
  {
    if |m| > 0 {
      RemoveKeepsOrder(m[1..], k);
      FilterKeysStep(m, k);
      var rest := Remove(m[1..], k);
      assert Keys(Remove(m, k)) == if m[0].0 == k then Keys(rest) else [m[0].0] + Keys(rest);
    }
  }

  /** The keys other than `k`: the first one if it is not `k`, then those of the rest. */
  lemma {:induction false} FilterKeysStep(m: Table, k: string)
    requires |m| > 0
    ensures Filter(x => x != k, Keys(m))
         == if m[0].0 == k then Filter(x => x != k, Keys(m[1..]))
            else [m[0].0] + Filter(x => x != k, Keys(m[1..]))
  {
    assert Keys(m)[1..] == Keys(m[1..]);
  }

  /** The object built by assigning the pairs of `ps` in order, as a
      `forEach` that stores `m[k] = v` does. */
  function FromPairs(ps: Table): (m: Table)
    ensures DistinctKeys(m)
    ensures forall k :: HasKey(m, k) <==> k in Keys(ps)
    ensures InFirstOrder(m, Keys(ps))
    decreases |ps|
  {
    if |ps| == 0 then []
    else
      var init := ps[..|ps| - 1];
      KeysOfPrefix(ps);
      var prev := FromPairs(init);
      FirstOrderPut(prev, Keys(init), ps[|ps| - 1].0, ps[|ps| - 1].1);
      Put(prev, ps[|ps| - 1].0, ps[|ps| - 1].1)
  }

  /** The keys of `m` come in the order in which they first occur in `ks`. */
  predicate InFirstOrder(m: Table, ks: seq<string>) {
    forall i, j :: 0 <= i < j < |m| ==> FirstIndex(ks, m[i].0) < FirstIndex(ks, m[j].0)
  }

  /** Assigning `k` keeps a table in first-occurrence order once `k` is
      counted as occurring last. */
  lemma {:induction false} FirstOrderPut(m: Table, ks: seq<string>, k: string, v: string)
    requires InFirstOrder(m, ks) && forall x :: HasKey(m, x) <==> x in ks
    ensures InFirstOrder(Put(m, k, v), ks + [k])
  {
    assert forall i :: 0 <= i < |m| ==> HasKey(m, Keys(m)[i]);
    FirstOrderExtend(m, ks, k);
    if HasKey(m, k) {
      FirstOrderSameKeys(m, Put(m, k, v), ks + [k]);
    } else {
      FirstOrderNewKey(m, Put(m, k, v), ks, k);
    }
  }

  /** Occurrences appended to `ks` do not move the first ones of the keys of `m`. */
  lemma {:induction false} FirstOrderExtend(m: Table, ks: seq<string>, k: string)
    requires InFirstOrder(m, ks) && forall i :: 0 <= i < |m| ==> m[i].0 in ks
    ensures InFirstOrder(m, ks + [k])
  {
    forall i | 0 <= i < |m|
      ensures FirstIndex(ks + [k], m[i].0) == FirstIndex(ks, m[i].0)
    {
      FirstIndexAppend(ks, [k], m[i].0);
    }
  }

  lemma {:induction false} FirstOrderSameKeys(m: Table, r: Table, ks: seq<string>)
    requires InFirstOrder(m, ks) && Keys(r) == Keys(m)
    ensures InFirstOrder(r, ks)
  {
    assert forall i :: 0 <= i < |r| ==> r[i].0 == Keys(m)[i];
  }

  lemma {:induction false} FirstOrderNewKey(m: Table, r: Table, ks: seq<string>, k: string)
    requires InFirstOrder(m, ks + [k]) && Keys(r) == Keys(m) + [k] && k !in ks
    requires forall i :: 0 <= i < |m| ==> m[i].0 in ks
    ensures InFirstOrder(r, ks + [k])
  {
    assert FirstIndex(ks + [k], k) == |ks| by {
      assert (ks + [k])[|ks|] == k;
    }
    forall i, j | 0 <= i < j < |r|
      ensures FirstIndex(ks + [k], r[i].0) < FirstIndex(ks + [k], r[j].0)
    {
      assert r[i].0 == Keys(r)[i] == m[i].0;
      if j < |m| {
        assert r[j].0 == Keys(r)[j] == m[j].0;
      } else {
        assert r[j].0 == Keys(r)[j] == k;
        assert FirstIndex(ks + [k], m[i].0) < |ks| by {
          FirstIndexAppend(ks, [k], m[i].0);
        }
      }
    }
  }

  /** A single assignment builds a one-key table. */
  lemma {:induction false} FromPairsSingle(p: (string, string))
    ensures FromPairs([p]) == [p]
  {
    assert [p][..0] == [];
  }

  lemma {:induction false} KeysOfPrefix(ps: Table)
    requires |ps| > 0
    ensures Keys(ps) == Keys(ps[..|ps| - 1]) + [ps[|ps| - 1].0]
  {
  }

  /** In `FromPairs` the last assignment to a key wins. */
  lemma {:induction false} FromPairsLastWins(ps: Table, k: string, v: string)
    ensures Get(FromPairs(ps), k) == Some(v) <==> LastAssignment(ps, k, v)
    decreases |ps|
  {
    if |ps| > 0 {
      var n := |ps| - 1;
      var init := ps[..n];
      assert FromPairs(ps) == Put(FromPairs(init), ps[n].0, ps[n].1);
      if ps[n].0 == k {
        assert Get(FromPairs(ps), k) == Some(ps[n].1);
        LastAssignmentAtEnd(ps, k, v);
      } else {
        assert Get(FromPairs(ps), k) == Get(FromPairs(init), k);
        FromPairsLastWins(init, k, v);
        LastAssignmentSkipEnd(ps, k, v);
      }
    }
  }

  /** `FromPairsLastWins` for every key and value at once. */
  lemma {:induction false} FromPairsLastWinsAll(ps: Table)
    ensures forall k, v :: Get(FromPairs(ps), k) == Some(v) <==> LastAssignment(ps, k, v)
  {
    forall k, v
      ensures Get(FromPairs(ps), k) == Some(v) <==> LastAssignment(ps, k, v)
    {
      FromPairsLastWins(ps, k, v);
    }
  }

  /** When the final pair assigns `k`, it is the last assignment to `k`. */
  lemma {:induction false} LastAssignmentAtEnd(ps: Table, k: string, v: string)
    requires |ps| > 0 && ps[|ps| - 1].0 == k
    ensures LastAssignment(ps, k, v) <==> ps[|ps| - 1].1 == v
  {
    if ps[|ps| - 1].1 == v {
      assert LastAt(ps, k, v, |ps| - 1);
    }
  }

  /** A final pair for another key does not change the last assignment to `k`. */
  lemma {:induction false} LastAssignmentSkipEnd(ps: Table, k: string, v: string)
    requires |ps| > 0 && ps[|ps| - 1].0 != k
    ensures LastAssignment(ps, k, v) <==> LastAssignment(ps[..|ps| - 1], k, v)
  {
    var init := ps[..|ps| - 1];
    if LastAssignment(ps, k, v) {
      var i :| LastAt(ps, k, v, i);
      assert LastAt(init, k, v, i);
    }
    if LastAssignment(init, k, v) {
      var i :| LastAt(init, k, v, i);
      assert LastAt(ps, k, v, i);
    }
  }

  /** Pair `i` of `ps` assigns `v` to `k` and no later pair assigns to `k`. */
  predicate LastAt(ps: Table, k: string, v: string, i: int) {
    0 <= i < |ps| && ps[i] == (k, v) && forall j :: i < j < |ps| ==> ps[j].0 != k
  }

  ghost predicate LastAssignment(ps: Table, k: string, v: string) {
    exists i :: LastAt(ps, k, v, i)
  }
}
