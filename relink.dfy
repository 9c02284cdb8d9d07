/** The invariants of the relinking loops of emplace and erase.

    Both loops walk the levels upwards from 0. Below the loop counter the links already describe
    the new chain; from the counter on they are still those of the arena as it was before the
    loop. One lemma starts each invariant, one carries it over a level, one reads off the result. */
module Relink {

  import opened Seqs
  import opened Heights
  import opened Links

  /** An arena slot appended at the end leaves every level as it was. */
  lemma LevelExtend(next: seq<seq<int>>, s: seq<int>, c: seq<nat>, h: nat)
    requires 0 < |next| && InArena(next, c) && LevelLinked(next, c, h)
    ensures InArena(next + [s], c) && LevelLinked(next + [s], c, h)
  {
    SlotHeightsAppend(next, s);
    AlongExtend(SlotHeights(next), |s|, c);
    assert HeightsOf(next + [s], c) == HeightsOf(next, c);
    forall p | -1 <= p < |c| ensures LinkOk(next + [s], c, h, p) {
      assert LinkOk(next, c, h, p);
    }
  }

  /** An empty level: the head's link is null and the head is everybody's predecessor. */
  lemma EmptyAbove(next: seq<seq<int>>, c: seq<nat>, h: nat)
    requires 0 < |next| && h < |next[Head]| && InArena(next, c) && LevelLinked(next, c, h)
    requires MaxOf(HeightsOf(next, c)) <= h
    ensures next[Head][h] == Null
    ensures forall upto :: 0 <= upto <= |c| ==> LastBelow(HeightsOf(next, c), upto, h) == -1
  {
    var hc := HeightsOf(next, c);
    EmptyLevel(hc, h);
    LinkAt(next, c, h, -1);
  }

  /** The level-h predecessor of chain position i points at the node there exactly when that node
      takes part in level h; at higher levels it points elsewhere. */
  lemma PredLink(next: seq<seq<int>>, c: seq<nat>, i: nat, h: nat)
    requires 0 < |next| && h < |next[Head]| && InArena(next, c) && Distinct(c) && i < |c|
    requires LevelLinked(next, c, h)
    ensures h < |next[NodeAt(c, LastBelow(HeightsOf(next, c), i, h))]|
    ensures next[NodeAt(c, LastBelow(HeightsOf(next, c), i, h))][h] == c[i] <==> h < |next[c[i]]|
  {
    var hc := HeightsOf(next, c);
    var lb := LastBelow(hc, i, h);
    SkipToUpto(hc, i, h);
    var q := FirstAbove(hc, i, h);
    LinkAt(next, c, h, lb);
    if q != i && q < |c| {
      assert c[q] != c[i];
    }
  }

  // ---------------------------------------------------------------- splicing a node in

  /** Levels below `height` are linked along the chain with n at position i; the others still
      hold the links of next0. */
  ghost predicate Linking(next0: seq<seq<int>>, next: seq<seq<int>>, c: seq<nat>, i: nat, n: nat, height: nat)
    requires 0 < |next0| && InArena(next0, c) && i <= |c| && 0 < n < |next0|
  {
    && SlotHeights(next) == SlotHeights(next0)
    && InArena(next, InsertAt(c, i, n))
    && (forall l :: 0 <= l < height ==> LevelLinked(next, InsertAt(c, i, n), l))
    && (forall x, l :: 0 <= x < |next| && height <= l < |next[x]| ==> next[x][l] == next0[x][l])
  }

  lemma LinkStart(next0: seq<seq<int>>, c: seq<nat>, i: nat, n: nat)
    requires 0 < |next0| && InArena(next0, c) && i <= |c| && 0 < n < |next0|
    ensures Linking(next0, next0, c, i, n, 0)
  {
    InsertAtMembers(c, i, n);
    var c2 := InsertAt(c, i, n);
    forall j | 0 <= j < |c2| ensures 0 < c2[j] < |next0| {
      assert c2[j] in c2;
    }
  }

  lemma LinkStep(next0: seq<seq<int>>, next: seq<seq<int>>, next': seq<seq<int>>, c: seq<nat>, i: nat, n: nat, h: nat)
    requires 0 < |next0| && |next0[Head]| == MaxLevel && InArena(next0, c) && Distinct(c)
    requires i <= |c| && 0 < n < |next0| && n !in c && h < MaxLevel
    requires LevelLinked(next0, c, h)
    requires Linking(next0, next, c, i, n, h)
    requires Spliced(next, next', c, i, n, h)
    requires forall x, l :: 0 <= x < |next| && 0 <= l < |next[x]| && l != h ==> next'[x][l] == next[x][l]
    ensures Linking(next0, next', c, i, n, h + 1)
  {
    var c2 := InsertAt(c, i, n);
    LevelFrame(next0, next, c, h);
    SpliceLevel(next, next', c, i, n, h);
    forall l | 0 <= l < h ensures LevelLinked(next', c2, l) {
      LevelFrame(next, next', c2, l);
    }
  }

  /** Once the counter reaches n's height, the levels above it need no change: n is absent there. */
  lemma LinkDone(next0: seq<seq<int>>, next: seq<seq<int>>, c: seq<nat>, i: nat, n: nat)
    requires 0 < |next0| && |next0[Head]| == MaxLevel && InArena(next0, c) && Distinct(c)
    requires i <= |c| && 0 < n < |next0| && n !in c
    requires AllLinked(next0, c)
    requires Linking(next0, next, c, i, n, |next0[n]|)
    ensures InArena(next, InsertAt(c, i, n)) && AllLinked(next, InsertAt(c, i, n))
  {
    var c2 := InsertAt(c, i, n);
    forall l | |next0[n]| <= l < MaxLevel ensures LevelLinked(next, c2, l) {
      LevelFrame(next0, next, c, l);
      SpliceLevel(next, next, c, i, n, l);
    }
  }

  // ---------------------------------------------------------------- unlinking a node

  /** Levels below `height` are linked along the chain without position i; the others still
      hold the links of next0. */
  ghost predicate Unlinking(next0: seq<seq<int>>, next: seq<seq<int>>, c: seq<nat>, i: nat, height: nat)
    requires 0 < |next0| && InArena(next0, c) && i < |c|
  {
    && SlotHeights(next) == SlotHeights(next0)
    && InArena(next, RemoveAt(c, i))
    && (forall l :: 0 <= l < height ==> LevelLinked(next, RemoveAt(c, i), l))
    && (forall x, l :: 0 <= x < |next| && height <= l < |next[x]| ==> next[x][l] == next0[x][l])
  }

  lemma UnlinkStart(next0: seq<seq<int>>, c: seq<nat>, i: nat)
    requires 0 < |next0| && InArena(next0, c) && i < |c|
    ensures Unlinking(next0, next0, c, i, 0)
  {
  }

  lemma UnlinkStep(next0: seq<seq<int>>, next: seq<seq<int>>, next': seq<seq<int>>, c: seq<nat>, i: nat, h: nat)
    requires 0 < |next0| && |next0[Head]| == MaxLevel && InArena(next0, c) && Distinct(c)
    requires i < |c| && h < MaxLevel
    requires LevelLinked(next0, c, h)
    requires Unlinking(next0, next, c, i, h)
    requires Unspliced(next, next', c, i, h)
    requires forall x, l :: 0 <= x < |next| && 0 <= l < |next[x]| && l != h ==> next'[x][l] == next[x][l]
    ensures Unlinking(next0, next', c, i, h + 1)
  {
    var c2 := RemoveAt(c, i);
    LevelFrame(next0, next, c, h);
    UnspliceLevel(next, next', c, i, h);
    forall l | 0 <= l < h ensures LevelLinked(next', c2, l) {
      LevelFrame(next, next', c2, l);
    }
  }

  lemma UnlinkDone(next0: seq<seq<int>>, next: seq<seq<int>>, c: seq<nat>, i: nat)
    requires 0 < |next0| && |next0[Head]| == MaxLevel && InArena(next0, c) && Distinct(c) && i < |c|
    requires AllLinked(next0, c)
    requires Unlinking(next0, next, c, i, |next0[c[i]]|)
    ensures InArena(next, RemoveAt(c, i)) && AllLinked(next, RemoveAt(c, i))
  {
    var c2 := RemoveAt(c, i);
    forall l | |next0[c[i]]| <= l < MaxLevel ensures LevelLinked(next, c2, l) {
      LevelFrame(next0, next, c, l);
      UnspliceLevel(next, next, c, i, l);
    }
  }
}
