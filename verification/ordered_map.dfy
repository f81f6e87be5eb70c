/**
  A Python `dict` as the monitor uses it: a sequence of (key, value) pairs
  in insertion order with no key repeated. Assigning an existing key keeps
  the key's place and overwrites its value; a new key goes at the end.
 */
module OrderedMap {
  import opened Wrappers

  function Keys<K, V>(m: seq<(K, V)>): (ks: seq<K>)
    ensures |ks| == |m|
    ensures forall i :: 0 <= i < |m| ==> ks[i] == m[i].0
  {
    seq(|m|, i requires 0 <= i < |m| => m[i].0)
  }

  function Values<K, V>(m: seq<(K, V)>): (vs: seq<V>)
    ensures |vs| == |m|
    ensures forall i :: 0 <= i < |m| ==> vs[i] == m[i].1
  {
    seq(|m|, i requires 0 <= i < |m| => m[i].1)
  }

  predicate DistinctKeys<K(==), V>(m: seq<(K, V)>) {
    forall i, j :: 0 <= i < j < |m| ==> m[i].0 != m[j].0
  }

  /** `d[k] = v` on a dict. */
  function Put<K(==), V>(m: seq<(K, V)>, k: K, v: V): (r: seq<(K, V)>)
    requires DistinctKeys(m)
    ensures DistinctKeys(r)
    ensures k !in Keys(m) ==> r == m + [(k, v)]
    ensures k in Keys(m) ==> |r| == |m| && Keys(r) == Keys(m)
    ensures k in Keys(m) ==> forall i :: 0 <= i < |m| ==> r[i] == (if m[i].0 == k then (k, v) else m[i])
  {
    if k in Keys(m) then seq(|m|, i requires 0 <= i < |m| => if m[i].0 == k then (k, v) else m[i])
    else m + [(k, v)]
  }

  /** The value the last pair with key `k` carries, if any pair has it. */
  function LastValue<K(==), V>(ps: seq<(K, V)>, k: K): Option<V>
  {
    if |ps| == 0 then None
    else if ps[|ps| - 1].0 == k then Some(ps[|ps| - 1].1)
    else LastValue(ps[..|ps| - 1], k)
  }

  /** Where key `k` first appears in `ps`. */
  function FirstIndex<K(==), V>(ps: seq<(K, V)>, k: K): (i: nat)
    requires k in Keys(ps)
    ensures i < |ps| && ps[i].0 == k
    ensures forall j :: 0 <= j < i ==> ps[j].0 != k
  {
    if ps[0].0 == k then 0
    else
      assert k in Keys(ps[1..]) by {
        var j :| 0 <= j < |ps| && Keys(ps)[j] == k;
        assert Keys(ps[1..])[j - 1] == k;
      }
      1 + FirstIndex(ps[1..], k)
  }

  /**
    `{k: v for (k, v) in ps}`: the dict built by assigning every pair in
    order; its keys are unique.
   */
  function FromPairs<K(==), V>(ps: seq<(K, V)>): (r: seq<(K, V)>)
    ensures DistinctKeys(r)
  {
    if |ps| == 0 then []
    else Put(FromPairs(ps[..|ps| - 1]), ps[|ps| - 1].0, ps[|ps| - 1].1)
  }

  /** The dict has one entry per distinct key of `ps`, and no other keys. */
  lemma {:induction false} FromPairsKeys<K, V>(ps: seq<(K, V)>)
    ensures |FromPairs(ps)| <= |ps|
    ensures forall i :: 0 <= i < |ps| ==> ps[i].0 in Keys(FromPairs(ps))
    ensures forall i :: 0 <= i < |FromPairs(ps)| ==> FromPairs(ps)[i].0 in Keys(ps)
    decreases |ps|
  {
    if |ps| > 0 {
      var init := ps[..|ps| - 1];
      var last := ps[|ps| - 1];
      var m := FromPairs(init);
      var r := FromPairs(ps);
      FromPairsKeys(init);
      assert Keys(ps) == Keys(init) + [last.0];
      if last.0 in Keys(m) {
        forall i | 0 <= i < |ps| ensures ps[i].0 in Keys(r) {
          if i < |init| { assert ps[i] == init[i]; }
        }
        forall i | 0 <= i < |r| ensures r[i].0 in Keys(ps) {
          assert r[i].0 == Keys(r)[i] == Keys(m)[i] == m[i].0;
        }
      } else {
        assert r == m + [last];
        forall i | 0 <= i < |ps| ensures ps[i].0 in Keys(r) {
          if i < |init| {
            assert ps[i] == init[i];
            assert Keys(r) == Keys(m) + [last.0];
          } else {
            assert Keys(r)[|m|] == last.0;
          }
        }
      }
    }
  }

  /** Last write wins: every entry carries the value of the last pair with its key. */
  lemma {:induction false} FromPairsLastValue<K, V>(ps: seq<(K, V)>)
    ensures forall i :: 0 <= i < |FromPairs(ps)| ==> LastValue(ps, FromPairs(ps)[i].0) == Some(FromPairs(ps)[i].1)
    decreases |ps|
  {
    if |ps| > 0 {
      var init := ps[..|ps| - 1];
      var last := ps[|ps| - 1];
      var m := FromPairs(init);
      var r := FromPairs(ps);
      FromPairsLastValue(init);
      forall i | 0 <= i < |r| ensures LastValue(ps, r[i].0) == Some(r[i].1) {
        if r[i].0 == last.0 {
          if last.0 in Keys(m) {
            assert m[i].0 == last.0;
          }
        } else {
          if last.0 in Keys(m) {
            assert r[i] == m[i];
          } else {
            assert r == m + [last];
            assert i < |m| && r[i] == m[i];
          }
        }
      }
    }
  }

  /** A list of pairs with no repeated key already is the dict it builds. */
  lemma {:induction false} FromPairsOfDistinct<K, V>(ps: seq<(K, V)>)
    requires DistinctKeys(ps)
    ensures FromPairs(ps) == ps
    decreases |ps|
  {
    if |ps| > 0 {
      var init := ps[..|ps| - 1];
      var last := ps[|ps| - 1];
      assert DistinctKeys(init) by {
        forall i, j | 0 <= i < j < |init| ensures init[i].0 != init[j].0 {
          assert init[i] == ps[i] && init[j] == ps[j];
        }
      }
      FromPairsOfDistinct(init);
      assert last.0 !in Keys(init) by {
        forall i | 0 <= i < |init| ensures Keys(init)[i] != last.0 {
          assert init[i] == ps[i];
        }
      }
      assert FromPairs(ps) == Put(init, last.0, last.1);
      assert ps == init + [last];
    }
  }

  /** Dict order is first-insertion order: an earlier entry's key was first seen earlier. */
  lemma {:induction false} FromPairsFirstSeenOrder<K, V>(ps: seq<(K, V)>, i: nat, j: nat)
    requires i < j < |FromPairs(ps)|
    ensures FromPairs(ps)[i].0 in Keys(ps) && FromPairs(ps)[j].0 in Keys(ps)
    ensures FirstIndex(ps, FromPairs(ps)[i].0) < FirstIndex(ps, FromPairs(ps)[j].0)
    decreases |ps|
  {
    var r := FromPairs(ps);
    var init := ps[..|ps| - 1];
    var last := ps[|ps| - 1];
    var m := FromPairs(init);
    assert ps == init + [last];
    assert r == Put(m, last.0, last.1);
    if last.0 in Keys(m) || j < |m| {
      assert r[i].0 == m[i].0 by { assert Keys(r)[i] == Keys(m)[i]; }
      assert r[j].0 == m[j].0 by { assert Keys(r)[j] == Keys(m)[j]; }
      FromPairsFirstSeenOrder(init, i, j);
      FirstIndexKept(init, last, m[i].0);
      FirstIndexKept(init, last, m[j].0);
    } else {
      assert r == m + [last];
      FromPairsKeys(init);
      assert r[i].0 == m[i].0 && m[i].0 in Keys(init);
      assert last.0 !in Keys(init) by {
        forall k | 0 <= k < |init| ensures Keys(init)[k] != last.0 {
          assert init[k].0 in Keys(m);
        }
      }
      FirstIndexKept(init, last, m[i].0);
      FirstIndexNew(init, last);
    }
  }

  /** Appending a pair does not move the first occurrence of a key already present. */
  lemma FirstIndexKept<K, V>(init: seq<(K, V)>, last: (K, V), k: K)
    requires k in Keys(init)
    ensures k in Keys(init + [last]) && FirstIndex(init + [last], k) == FirstIndex(init, k)
  {
    var ps := init + [last];
    var f := FirstIndex(init, k);
    assert Keys(ps)[f] == k;
    var g := FirstIndex(ps, k);
    assert g <= f;
  }

  /** A key first seen in the appended pair is first seen at the end. */
  lemma FirstIndexNew<K, V>(init: seq<(K, V)>, last: (K, V))
    requires last.0 !in Keys(init)
    ensures last.0 in Keys(init + [last]) && FirstIndex(init + [last], last.0) == |init|
  {
    var ps := init + [last];
    assert Keys(ps)[|init|] == last.0;
    var g := FirstIndex(ps, last.0);
    assert forall j :: 0 <= j < |init| ==> Keys(init)[j] == ps[j].0;
  }
}
