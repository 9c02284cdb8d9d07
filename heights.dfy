/** Facts about the sequence of node heights along the level-0 chain.
    A node of height `t` takes part in levels `0 .. t-1`, so "present at level h" is `h < t`. */
module Heights {

  import opened Seqs

  /** The first position at or after `from` whose node takes part in level `h`;
      `|hc|` when there is none (the null link). */
  function FirstAbove(hc: seq<nat>, from: nat, h: nat): (q: nat)
    requires from <= |hc|
    ensures from <= q <= |hc|
    ensures q < |hc| ==> h < hc[q]
    decreases |hc| - from
  {
    if from == |hc| then |hc|
    else if h < hc[from] then from
    else FirstAbove(hc, from + 1, h)
  }

  /** The last position before `upto` whose node takes part in level `h`; -1 (the head) when none. */
  function LastBelow(hc: seq<nat>, upto: nat, h: nat): (p: int)
    requires upto <= |hc|
    ensures -1 <= p < upto
    ensures 0 <= p ==> h < hc[p]
  {
    if upto == 0 then -1
    else if h < hc[upto - 1] then upto - 1
    else LastBelow(hc, upto - 1, h)
  }

  /** No position that the forward search from `from` passes over takes part in level h. */
  lemma {:induction false} FirstAboveGap(hc: seq<nat>, from: nat, h: nat)
    requires from <= |hc|
    ensures forall j :: from <= j < FirstAbove(hc, from, h) ==> hc[j] <= h
    decreases |hc| - from
  {
    if from < |hc| && hc[from] <= h {
      FirstAboveGap(hc, from + 1, h);
    }
  }

  /** No position between the level-h predecessor of `upto` and `upto` takes part in level h. */
  lemma {:induction false} LastBelowGap(hc: seq<nat>, upto: nat, h: nat)
    requires upto <= |hc|
    ensures forall j :: LastBelow(hc, upto, h) < j < upto ==> hc[j] <= h
  {
    if 0 < upto && hc[upto - 1] <= h {
      LastBelowGap(hc, upto - 1, h);
    }
  }

  /** The largest height along the chain, 0 for an empty chain. */
  function MaxOf(hc: seq<nat>): (m: nat)
    ensures forall j :: 0 <= j < |hc| ==> hc[j] <= m
    ensures |hc| == 0 ==> m == 0
    ensures |hc| > 0 ==> m in hc
  {
    if |hc| == 0 then 0
    else
      var m := MaxOf(hc[1..]);
      assert forall j :: 1 <= j < |hc| ==> hc[j] == hc[1..][j - 1];
      if hc[0] < m then m else hc[0]
  }

  /** The three clauses of FirstAbove's contract single out its result. */
  lemma FirstAboveUnique(hc: seq<nat>, from: nat, h: nat, q: nat)
    requires from <= q <= |hc|
    requires q < |hc| ==> h < hc[q]
    requires forall j :: from <= j < q ==> hc[j] <= h
    ensures FirstAbove(hc, from, h) == q
  {
    FirstAboveGap(hc, from, h);
  }

  /** Level h is empty exactly when every height is at most h. */
  lemma {:induction false} EmptyLevel(hc: seq<nat>, h: nat)
    ensures FirstAbove(hc, 0, h) == |hc| <==> MaxOf(hc) <= h
  {
    if |hc| > 0 {
      var q := FirstAbove(hc, 0, h);
      var m := MaxOf(hc);
      var j :| 0 <= j < |hc| && hc[j] == m;
      FirstAboveGap(hc, 0, h);
      if q == |hc| {
        assert hc[j] <= h;
      } else {
        assert hc[q] <= m;
      }
    }
  }

  /** Every node takes part in level 0, so the level-0 successor of a position is the next position. */
  lemma LevelZeroFirst(hc: seq<nat>, from: nat)
    requires from <= |hc|
    requires forall j :: 0 <= j < |hc| ==> 1 <= hc[j]
    ensures FirstAbove(hc, from, 0) == from
  {
  }

  /** No node between the level-h predecessor of `upto` and `upto` itself takes part in level h,
      so searching forward from that predecessor or from `upto` finds the same successor. */
  lemma SkipToUpto(hc: seq<nat>, upto: nat, h: nat)
    requires upto <= |hc|
    ensures FirstAbove(hc, LastBelow(hc, upto, h) + 1, h) == FirstAbove(hc, upto, h)
  {
    var p := LastBelow(hc, upto, h);
    var q := FirstAbove(hc, upto, h);
    LastBelowGap(hc, upto, h);
    FirstAboveGap(hc, upto, h);
    FirstAboveUnique(hc, p + 1, h, q);
  }

  /** The predecessor at a higher level comes no later than the one at a lower level. */
  lemma LastBelowMonotone(hc: seq<nat>, upto: nat, h: nat, h': nat)
    requires upto <= |hc| && h <= h'
    ensures LastBelow(hc, upto, h') <= LastBelow(hc, upto, h)
  {
  }

  /** How a forward search at level h changes when a node of height `x` enters at position `i`:
      behind the new node every answer shifts by one; in front of it the answer is unchanged
      unless the search used to run past position `i`, in which case it now stops at the new
      node if that node takes part in level h. */
  lemma FirstAboveInsert(hc: seq<nat>, i: nat, x: nat, f: nat, h: nat)
    requires i <= |hc| && f <= |hc|
    ensures i <= f ==> FirstAbove(InsertAt(hc, i, x), f + 1, h) == FirstAbove(hc, f, h) + 1
    ensures f <= i ==>
              FirstAbove(InsertAt(hc, i, x), f, h) ==
                (if FirstAbove(hc, f, h) < i then FirstAbove(hc, f, h)
                 else if h < x then i
                 else FirstAbove(hc, f, h) + 1)
  {
    var hc2 := InsertAt(hc, i, x);
    var q := FirstAbove(hc, f, h);
    FirstAboveGap(hc, f, h);
    if i <= f {
      forall j | f + 1 <= j < q + 1 ensures hc2[j] <= h {
        assert hc2[j] == hc[j - 1];
      }
      FirstAboveUnique(hc2, f + 1, h, q + 1);
    }
    if f <= i {
      if q < i {
        FirstAboveUnique(hc2, f, h, q);
      } else if h < x {
        FirstAboveUnique(hc2, f, h, i);
      } else {
        forall j | f <= j < q + 1 ensures hc2[j] <= h {
          if j > i { assert hc2[j] == hc[j - 1]; }
        }
        FirstAboveUnique(hc2, f, h, q + 1);
      }
    }
  }

  /** The predecessors in front of the insertion point do not depend on what is inserted. */
  lemma LastBelowInsert(hc: seq<nat>, i: nat, x: nat, h: nat)
    requires i <= |hc|
    ensures LastBelow(InsertAt(hc, i, x), i, h) == LastBelow(hc, i, h)
  {
    var hc2 := InsertAt(hc, i, x);
    assert hc2[..i] == hc[..i];
    PrefixLastBelow(hc, hc2, i, h);
  }

  lemma {:induction false} PrefixLastBelow(a: seq<nat>, b: seq<nat>, upto: nat, h: nat)
    requires upto <= |a| && upto <= |b| && a[..upto] == b[..upto]
    ensures LastBelow(a, upto, h) == LastBelow(b, upto, h)
  {
    if upto > 0 {
      assert a[upto - 1] == a[..upto][upto - 1] == b[..upto][upto - 1] == b[upto - 1];
      assert a[..upto - 1] == a[..upto][..upto - 1];
      assert b[..upto - 1] == b[..upto][..upto - 1];
      PrefixLastBelow(a, b, upto - 1, h);
    }
  }

  /** Inserting a node of height `x` raises the maximal height to at least `x`. */
  lemma MaxOfInsert(hc: seq<nat>, i: nat, x: nat)
    requires i <= |hc|
    ensures MaxOf(InsertAt(hc, i, x)) == if MaxOf(hc) < x then x else MaxOf(hc)
  {
    var hc2 := InsertAt(hc, i, x);
    var m2 := MaxOf(hc2);
    var m := MaxOf(hc);
    var j2 :| 0 <= j2 < |hc2| && hc2[j2] == m2;
    if |hc| > 0 {
      var j :| 0 <= j < |hc| && hc[j] == m;
      if j < i { assert hc2[j] == m; } else { assert hc2[j + 1] == m; }
    }
    if j2 < i { assert hc[j2] == m2; } else if j2 > i { assert hc[j2 - 1] == m2; }
  }

  /** A node found by a forward search from p that lies before `upto` lies no later than the
      level-h predecessor of `upto`. */
  lemma FirstAboveBefore(hc: seq<nat>, upto: nat, h: nat, p: int)
    requires upto <= |hc| && -1 <= p < upto
    requires FirstAbove(hc, p + 1, h) < upto
    ensures FirstAbove(hc, p + 1, h) <= LastBelow(hc, upto, h)
  {
    LastBelowGap(hc, upto, h);
  }

  /** A search from p that does not stop before `upto` started at the level-h predecessor of `upto`. */
  lemma LastBelowFromGap(hc: seq<nat>, upto: nat, h: nat, p: int)
    requires upto <= |hc| && -1 <= p <= LastBelow(hc, upto, h)
    requires upto <= FirstAbove(hc, p + 1, h)
    ensures p == LastBelow(hc, upto, h)
  {
    FirstAboveGap(hc, p + 1, h);
  }

  /** At level 0, which every node takes part in, the predecessor of `upto` is the position before it. */
  lemma LastBelowZero(hc: seq<nat>, upto: nat)
    requires upto <= |hc|
    requires forall j :: 0 <= j < |hc| ==> 1 <= hc[j]
    ensures LastBelow(hc, upto, 0) == upto - 1
  {
  }

  /** A search at a higher level ends no earlier than one at a lower level. */
  lemma FirstAboveMonotone(hc: seq<nat>, from: nat, h: nat, h': nat)
    requires from <= |hc| && h <= h'
    ensures FirstAbove(hc, from, h) <= FirstAbove(hc, from, h')
  {
    FirstAboveGap(hc, from, h);
  }

  /** Removing a node does not raise the maximal height. */
  lemma MaxOfRemove(hc: seq<nat>, i: nat)
    requires i < |hc|
    ensures MaxOf(RemoveAt(hc, i)) <= MaxOf(hc)
  {
    InsertRemove(hc, i);
    MaxOfInsert(RemoveAt(hc, i), i, hc[i]);
  }
}
