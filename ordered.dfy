/** The keys along the level-0 chain and the map they stand for.
    Keys are integers under `<`, the container's strict order: two keys are equal exactly when
    neither is less than the other. */
module Ordered {

  import opened Seqs

  predicate Increasing(ks: seq<int>) {
    forall i, j :: 0 <= i < j < |ks| ==> ks[i] < ks[j]
  }

  /** The number of keys strictly less than `k`, i.e. where `k` belongs in `ks`. */
  function LowerBound(ks: seq<int>, k: int): (r: nat)
    ensures r <= |ks|
    ensures forall j :: 0 <= j < r ==> ks[j] < k
    ensures r < |ks| ==> k <= ks[r]
  {
    if |ks| == 0 || k <= ks[0] then 0
    else
      assert forall j :: 1 <= j < |ks| ==> ks[j] == ks[1..][j - 1];
      1 + LowerBound(ks[1..], k)
  }

  /** In an increasing sequence everything from the lower bound on is at least `k`,
      so `k` occurs in `ks` exactly when it sits at the lower bound. */
  lemma LowerBoundSplits(ks: seq<int>, k: int)
    requires Increasing(ks)
    ensures forall j :: LowerBound(ks, k) <= j < |ks| ==> k <= ks[j]
    ensures k in ks <==> LowerBound(ks, k) < |ks| && ks[LowerBound(ks, k)] == k
  {
  }

  /** Putting an absent key at its lower bound keeps the sequence increasing. */
  lemma InsertKeepsIncreasing(ks: seq<int>, k: int)
    requires Increasing(ks) && k !in ks
    ensures Increasing(InsertAt(ks, LowerBound(ks, k), k))
  {
    var i := LowerBound(ks, k);
    LowerBoundSplits(ks, k);
    var r := InsertAt(ks, i, k);
    forall a, b | 0 <= a < b < |r| ensures r[a] < r[b] {
      if b < i {
      } else if b == i {
      } else if a < i {
        assert ks[a] < k <= ks[i] <= ks[b - 1];
      } else if a == i {
        assert k <= ks[i] <= ks[b - 1] && k != ks[b - 1];
      } else {
      }
    }
  }

  lemma RemoveKeepsIncreasing(ks: seq<int>, i: nat)
    requires Increasing(ks) && i < |ks|
    ensures Increasing(RemoveAt(ks, i))
  {
  }

  /** A position of `k` in `ks`. */
  function IndexOf(ks: seq<int>, k: int): (j: nat)
    requires k in ks
    ensures j < |ks| && ks[j] == k
  {
    if ks[0] == k then 0 else 1 + IndexOf(ks[1..], k)
  }

  /** The map from each key of the chain to the value beside it. */
  function MapOf<V>(ks: seq<int>, vs: seq<V>): (m: map<int, V>)
    requires |ks| == |vs| && Increasing(ks)
    ensures forall k :: k in m <==> k in ks
    ensures forall j :: 0 <= j < |ks| ==> ks[j] in m && m[ks[j]] == vs[j]
  {
    assert forall j :: 0 <= j < |ks| ==> IndexOf(ks, ks[j]) == j by {
      forall j | 0 <= j < |ks| ensures IndexOf(ks, ks[j]) == j {
        var i := IndexOf(ks, ks[j]);
        assert !(i < j) && !(j < i);
      }
    }
    map k | k in ks :: vs[IndexOf(ks, k)]
  }

  /** A map with MapOf's two properties is MapOf. */
  lemma MapOfUnique<V>(ks: seq<int>, vs: seq<V>, m: map<int, V>)
    requires |ks| == |vs| && Increasing(ks)
    requires forall k :: k in m <==> k in ks
    requires forall j :: 0 <= j < |ks| ==> ks[j] in m && m[ks[j]] == vs[j]
    ensures m == MapOf(ks, vs)
  {
    var m2 := MapOf(ks, vs);
    forall x | x in m ensures m[x] == m2[x] {
      var j :| 0 <= j < |ks| && ks[j] == x;
    }
  }

  lemma MapOfInsert<V>(ks: seq<int>, vs: seq<V>, i: nat, k: int, v: V)
    requires |ks| == |vs| && i <= |ks|
    requires Increasing(ks) && Increasing(InsertAt(ks, i, k))
    ensures k !in ks
    ensures MapOf(InsertAt(ks, i, k), InsertAt(vs, i, v)) == MapOf(ks, vs)[k := v]
  {
    InsertedAbsent(ks, i, k);
    var m := MapOf(ks, vs);
    InsertedEntries(ks, vs, i, k, v, m);
    MapOfUnique(InsertAt(ks, i, k), InsertAt(vs, i, v), m[k := v]);
  }

  /** A key that fits strictly between its neighbours was not among them. */
  lemma InsertedAbsent(ks: seq<int>, i: nat, k: int)
    requires i <= |ks| && Increasing(InsertAt(ks, i, k))
    ensures k !in ks
  {
    var ks2 := InsertAt(ks, i, k);
    forall j | 0 <= j < |ks| ensures ks[j] != k {
      if j < i { assert ks2[j] < ks2[i]; } else { assert ks2[i] < ks2[j + 1]; }
    }
  }

  /** A map holding the entries of (ks, vs), with k bound to v, holds those of the sequences with
      k and v inserted at position i. */
  lemma InsertedEntries<V>(ks: seq<int>, vs: seq<V>, i: nat, k: int, v: V, m: map<int, V>)
    requires |ks| == |vs| && i <= |ks| && k !in ks
    requires forall x :: x in m <==> x in ks
    requires forall j :: 0 <= j < |ks| ==> ks[j] in m && m[ks[j]] == vs[j]
    ensures forall x :: x in m[k := v] <==> x in InsertAt(ks, i, k)
    ensures forall j :: 0 <= j < |ks| + 1 ==> InsertAt(ks, i, k)[j] in m[k := v] && m[k := v][InsertAt(ks, i, k)[j]] == InsertAt(vs, i, v)[j]
  {
    var ks2, vs2, m2 := InsertAt(ks, i, k), InsertAt(vs, i, v), m[k := v];
    InsertAtMembers(ks, i, k);
    forall j | 0 <= j < |ks2| ensures ks2[j] in m2 && m2[ks2[j]] == vs2[j] {
      if j < i { assert ks2[j] == ks[j]; } else if j > i { assert ks2[j] == ks[j - 1]; }
    }
  }

  lemma MapOfRemove<V>(ks: seq<int>, vs: seq<V>, i: nat)
    requires |ks| == |vs| && i < |ks| && Increasing(ks)
    ensures Increasing(RemoveAt(ks, i))
    ensures MapOf(RemoveAt(ks, i), RemoveAt(vs, i)) == MapOf(ks, vs) - {ks[i]}
  {
    var ks2, vs2 := RemoveAt(ks, i), RemoveAt(vs, i);
    RemoveKeepsIncreasing(ks, i);
    var m := MapOf(ks, vs) - {ks[i]};
    var whole := MapOf(ks, vs);
    forall j | 0 <= j < |ks2| ensures ks2[j] in m && m[ks2[j]] == vs2[j] {
      var o := if j < i then j else j + 1;
      assert ks2[j] == ks[o] && vs2[j] == vs[o];
      assert o != i;
      assert ks[o] != ks[i] by {
        if o < i { assert ks[o] < ks[i]; } else { assert ks[i] < ks[o]; }
      }
      assert ks[o] in whole && whole[ks[o]] == vs[o];
    }
    forall x | x in m ensures x in ks2 {
      var j :| 0 <= j < |ks| && ks[j] == x;
      if j < i { assert ks2[j] == x; } else { assert ks2[j - 1] == x; }
    }
    MapOfUnique(ks2, vs2, m);
  }

  lemma MapOfUpdate<V>(ks: seq<int>, vs: seq<V>, i: nat, v: V)
    requires |ks| == |vs| && i < |ks| && Increasing(ks)
    ensures MapOf(ks, vs[i := v]) == MapOf(ks, vs)[ks[i] := v]
  {
    var m, m2 := MapOf(ks, vs), MapOf(ks, vs[i := v]);
    forall x | x in m2 ensures m2[x] == m[ks[i] := v][x] {
      var j :| 0 <= j < |ks| && ks[j] == x;
      assert j == i <==> x == ks[i];
    }
  }

  /** Distinct keys: the map has as many entries as the chain has nodes. */
  lemma {:induction false} MapOfSize<V>(ks: seq<int>, vs: seq<V>)
    requires |ks| == |vs| && Increasing(ks)
    ensures |MapOf(ks, vs)| == |ks|
  {
    if |ks| == 0 {
      assert MapOf(ks, vs).Keys == {};
    } else {
      MapOfRemove(ks, vs, 0);
      MapOfSize(RemoveAt(ks, 0), RemoveAt(vs, 0));
      var m := MapOf(ks, vs);
      assert (m - {ks[0]}).Keys == m.Keys - {ks[0]};
    }
  }
}
