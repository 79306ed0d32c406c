/**
 * Python dictionaries filled by a sequence of assignments `d[k] = v`, as a dict
 * literal and an assignment loop both do: a key assigned twice keeps the value
 * assigned last, and no key other than the assigned ones changes.
 */
module Dicts {

  /** The dictionary m after `m[k] = v` for every (k, v) of the entries, first to last. */
  function Assign<K, V>(m: map<K, V>, entries: seq<(K, V)>): map<K, V>
    decreases |entries|
  {
    if entries == [] then m else Assign(m[entries[0].0 := entries[0].1], entries[1..])
  }

  /** A dict literal `{k1: v1, k2: v2, ...}`: its entries assigned in order into an empty dictionary. */
  function DictLiteral<K, V>(entries: seq<(K, V)>): map<K, V> {
    Assign(map[], entries)
  }

  /** The keys afterwards are the old keys and the assigned ones. */
  lemma {:induction false} AssignKeys<K, V>(m: map<K, V>, entries: seq<(K, V)>, k: K)
    ensures k in Assign(m, entries) <==> k in m || exists i :: 0 <= i < |entries| && entries[i].0 == k
    decreases |entries|
  {
    if entries != [] {
      AssignKeys(m[entries[0].0 := entries[0].1], entries[1..], k);
      if exists i :: 0 <= i < |entries| && entries[i].0 == k {
        var i :| 0 <= i < |entries| && entries[i].0 == k;
        if i > 0 {
          assert entries[1..][i - 1].0 == k;
        }
      }
      forall i | 0 <= i < |entries| - 1 && entries[1..][i].0 == k
        ensures exists i :: 0 <= i < |entries| && entries[i].0 == k
      {
        assert entries[i + 1].0 == k;
      }
    }
  }

  /** A key assigned again later is overwritten: the last assignment of a key wins. */
  lemma {:induction false} AssignLastWins<K, V>(m: map<K, V>, entries: seq<(K, V)>, i: nat)
    requires i < |entries|
    requires forall j :: i < j < |entries| ==> entries[j].0 != entries[i].0
    ensures entries[i].0 in Assign(m, entries)
    ensures Assign(m, entries)[entries[i].0] == entries[i].1
    decreases |entries|
  {
    var m' := m[entries[0].0 := entries[0].1];
    if i == 0 {
      AssignUntouched(m', entries[1..], entries[0].0);
    } else {
      AssignLastWins(m', entries[1..], i - 1);
    }
  }

  /** A key no entry assigns keeps its value. */
  lemma {:induction false} AssignUntouched<K, V>(m: map<K, V>, entries: seq<(K, V)>, k: K)
    requires k in m
    requires forall j :: 0 <= j < |entries| ==> entries[j].0 != k
    ensures k in Assign(m, entries) && Assign(m, entries)[k] == m[k]
    decreases |entries|
  {
    if entries != [] {
      AssignUntouched(m[entries[0].0 := entries[0].1], entries[1..], k);
    }
  }

  /** Assigning a batch after another is assigning the two batches joined. */
  lemma {:induction false} AssignAppend<K, V>(m: map<K, V>, first: seq<(K, V)>, second: seq<(K, V)>)
    ensures Assign(Assign(m, first), second) == Assign(m, first + second)
    decreases |first|
  {
    if first == [] {
      assert first + second == second;
    } else {
      AssignAppend(m[first[0].0 := first[0].1], first[1..], second);
      assert (first + second)[1..] == first[1..] + second;
    }
  }

  /** `[f(x) for x in xs]`. */
  function MapSeq<A, B>(xs: seq<A>, f: A -> B): (ys: seq<B>)
    ensures |ys| == |xs|
  {
    if xs == [] then [] else MapSeq(xs[..|xs| - 1], f) + [f(xs[|xs| - 1])]
  }

  /** Each element of the mapped sequence is f of the element at the same place. */
  lemma {:induction false} MapSeqAt<A, B>(xs: seq<A>, f: A -> B, i: nat)
    requires i < |xs|
    ensures MapSeq(xs, f)[i] == f(xs[i])
  {
    var init := xs[..|xs| - 1];
    if i < |init| {
      MapSeqAt(init, f, i);
      assert init[i] == xs[i];
    }
  }
}
