/** Sequence edits shared by the chain, its keys, its values and its heights. */
module Seqs {

  /** `s` with `x` put at position `i`. */
  function InsertAt<T>(s: seq<T>, i: nat, x: T): (r: seq<T>)
    requires i <= |s|
    ensures |r| == |s| + 1
    ensures forall j {:trigger r[j]} :: 0 <= j < i ==> r[j] == s[j]
    ensures r[i] == x
    ensures forall j {:trigger r[j]} :: i < j < |r| ==> r[j] == s[j - 1]
  {
    s[..i] + [x] + s[i..]
  }

  /** `s` with the element at position `i` taken out. */
  function RemoveAt<T>(s: seq<T>, i: nat): (r: seq<T>)
    requires i < |s|
    ensures |r| == |s| - 1
    ensures forall j {:trigger r[j]} :: 0 <= j < i ==> r[j] == s[j]
    ensures forall j {:trigger r[j]} :: i <= j < |r| ==> r[j] == s[j + 1]
  {
    s[..i] + s[i + 1..]
  }

  lemma InsertAtMembers<T>(s: seq<T>, i: nat, x: T)
    requires i <= |s|
    ensures forall y :: y in InsertAt(s, i, x) <==> y in s || y == x
  {
    assert s == s[..i] + s[i..];
  }

  lemma InsertRemove<T>(s: seq<T>, i: nat)
    requires i < |s|
    ensures InsertAt(RemoveAt(s, i), i, s[i]) == s
  {
  }

  /** Removing position i keeps every element held at another position, and drops the element
      at i when no other position holds it. */
  lemma RemovedMembers<T>(s: seq<T>, i: nat)
    requires i < |s|
    ensures forall j :: 0 <= j < |s| && j != i ==> s[j] in RemoveAt(s, i)
    ensures (forall j :: 0 <= j < |s| && j != i ==> s[j] != s[i]) ==> s[i] !in RemoveAt(s, i)
  {
    forall j | 0 <= j < |s| && j != i ensures s[j] in RemoveAt(s, i) {
      if j < i { assert RemoveAt(s, i)[j] == s[j]; } else { assert RemoveAt(s, i)[j - 1] == s[j]; }
    }
  }

  /** What the array `arr` holds at each index of `c`, in the order of `c`. */
  function Along<T>(arr: seq<T>, c: seq<nat>): (r: seq<T>)
    requires forall j :: 0 <= j < |c| ==> c[j] < |arr|
    ensures |r| == |c|
    ensures forall j {:trigger r[j]} :: 0 <= j < |c| ==> r[j] == arr[c[j]]
  {
    seq(|c|, j requires 0 <= j < |c| => arr[c[j]])
  }

  lemma AlongInsert<T>(arr: seq<T>, c: seq<nat>, i: nat, n: nat)
    requires forall j :: 0 <= j < |c| ==> c[j] < |arr|
    requires i <= |c| && n < |arr|
    ensures Along(arr, InsertAt(c, i, n)) == InsertAt(Along(arr, c), i, arr[n])
  {
  }

  lemma AlongRemove<T>(arr: seq<T>, c: seq<nat>, i: nat)
    requires forall j :: 0 <= j < |c| ==> c[j] < |arr|
    requires i < |c|
    ensures Along(arr, RemoveAt(c, i)) == RemoveAt(Along(arr, c), i)
  {
  }

  /** Growing the array (a new arena slot) does not change what the old indices see. */
  lemma AlongExtend<T>(arr: seq<T>, x: T, c: seq<nat>)
    requires forall j :: 0 <= j < |c| ==> c[j] < |arr|
    ensures Along(arr + [x], c) == Along(arr, c)
  {
  }

  /** A slot appended to the arena and entered into the chain at position i. */
  lemma AlongAppendInsert<T>(arr: seq<T>, x: T, c: seq<nat>, i: nat)
    requires forall j :: 0 <= j < |c| ==> c[j] < |arr|
    requires i <= |c|
    ensures Along(arr + [x], InsertAt(c, i, |arr|)) == InsertAt(Along(arr, c), i, x)
  {
    AlongExtend(arr, x, c);
    AlongInsert(arr + [x], c, i, |arr|);
  }

  /** Changing a slot that `c` visits at position `i` changes what `c` sees there only. */
  lemma AlongUpdate<T>(arr: seq<T>, c: seq<nat>, i: nat, x: T)
    requires forall j :: 0 <= j < |c| ==> c[j] < |arr|
    requires i < |c|
    requires forall j :: 0 <= j < |c| && j != i ==> c[j] != c[i]
    ensures Along(arr[c[i] := x], c) == Along(arr, c)[i := x]
  {
  }
}
