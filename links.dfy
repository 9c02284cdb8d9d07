/** The link structure of the node arena.

    Nodes live in an arena: slot 0 is the head sentinel, every other slot a node created by an
    insertion. `next[x]` is node x's array of successor links, one per level it takes part in, so
    `|next[x]|` is its height; `Null` is the null link. The level-0 chain `c` lists the live
    nodes in order. At every level h, the successor of a node (or of the head, position -1) is
    the first later node of the chain whose height exceeds h: each level is the level-0 chain
    with the shorter nodes left out, which is what makes the levels nested. */
module Links {

  import opened Seqs
  import opened Heights
  import opened Ordered

  /** kMaxHeight: the head's height and the bound on every node's height. */
  const MaxLevel: nat := 16
  const Null: int := -1
  const Head: nat := 0

  /** The height of every arena slot. */
  function SlotHeights(next: seq<seq<int>>): (r: seq<nat>)
    ensures |r| == |next|
    ensures forall x :: 0 <= x < |next| ==> r[x] == |next[x]|
  {
    seq(|next|, x requires 0 <= x < |next| => |next[x]|)
  }

  /** Changing a link keeps every height. */
  lemma SlotHeightsSetLink(next: seq<seq<int>>, x: nat, h: nat, v: int)
    requires x < |next| && h < |next[x]|
    ensures SlotHeights(next[x := next[x][h := v]]) == SlotHeights(next)
  {
  }

  lemma SlotHeightsAppend(next: seq<seq<int>>, s: seq<int>)
    ensures SlotHeights(next + [s]) == SlotHeights(next) + [|s|]
  {
  }

  /** The chain lists real nodes of the arena, never the head. */
  predicate InArena(next: seq<seq<int>>, c: seq<nat>) {
    forall j :: 0 <= j < |c| ==> 0 < c[j] < |next|
  }

  /** Chain positions a and b hold different nodes. */
  predicate Apart(c: seq<nat>, a: nat, b: nat)
    requires a < |c| && b < |c|
  {
    c[a] != c[b]
  }

  /** No node occurs twice in the chain. */
  predicate Distinct(c: seq<nat>) {
    forall a, b {:trigger Apart(c, a, b)} :: 0 <= a < b < |c| ==> Apart(c, a, b)
  }

  lemma DistinctAt(c: seq<nat>, a: nat, b: nat)
    requires Distinct(c) && a < |c| && b < |c| && a != b
    ensures c[a] != c[b]
  {
    if a < b { assert Apart(c, a, b); } else { assert Apart(c, b, a); }
  }

  function HeightsOf(next: seq<seq<int>>, c: seq<nat>): (hc: seq<nat>)
    requires InArena(next, c)
    ensures |hc| == |c|
    ensures forall j {:trigger hc[j]} :: 0 <= j < |c| ==> hc[j] == |next[c[j]]|
  {
    Along(SlotHeights(next), c)
  }

  /** The node at chain position p, the head for p == -1. */
  function NodeAt(c: seq<nat>, p: int): nat
    requires -1 <= p < |c|
  {
    if p < 0 then Head else c[p]
  }

  /** The link to chain position q, the null link for q == |c|. */
  function Target(c: seq<nat>, q: nat): int
    requires q <= |c|
  {
    if q < |c| then c[q] else Null
  }

  /** What the level-h link of chain position p (the head for -1) ought to be. */
  function Expected(c: seq<nat>, hc: seq<nat>, p: int, h: nat): int
    requires |hc| == |c| && -1 <= p < |c|
  {
    Target(c, FirstAbove(hc, p + 1, h))
  }

  /** How the expected links change when node n of height x enters the chain at position i.
      The new node inherits the link of its level-h predecessor ... */
  lemma ExpectedAtNew(c: seq<nat>, hc: seq<nat>, i: nat, n: nat, x: nat, h: nat)
    requires |hc| == |c| && i <= |c|
    ensures Expected(InsertAt(c, i, n), InsertAt(hc, i, x), i, h) == Expected(c, hc, LastBelow(hc, i, h), h)
  {
    SkipToUpto(hc, i, h);
    FirstAboveInsert(hc, i, x, i, h);
  }

  /** ... every position behind it expects what it expected before ... */
  lemma ExpectedBehind(c: seq<nat>, hc: seq<nat>, i: nat, n: nat, x: nat, h: nat, p: int)
    requires |hc| == |c| && i <= p < |c|
    ensures Expected(InsertAt(c, i, n), InsertAt(hc, i, x), p + 1, h) == Expected(c, hc, p, h)
  {
    FirstAboveInsert(hc, i, x, p + 1, h);
  }

  /** ... its level-h predecessor now expects n ... */
  lemma ExpectedAtPrev(c: seq<nat>, hc: seq<nat>, i: nat, n: nat, x: nat, h: nat)
    requires |hc| == |c| && i <= |c| && h < x
    ensures Expected(InsertAt(c, i, n), InsertAt(hc, i, x), LastBelow(hc, i, h), h) == n
  {
    var lb := LastBelow(hc, i, h);
    SkipToUpto(hc, i, h);
    FirstAboveInsert(hc, i, x, lb + 1, h);
  }

  /** ... and every other position in front of it expects what it expected before. */
  lemma ExpectedInFront(c: seq<nat>, hc: seq<nat>, i: nat, n: nat, x: nat, h: nat, p: int)
    requires |hc| == |c| && -1 <= p < i <= |c|
    requires p == -1 || h < hc[p]
    requires x <= h || p != LastBelow(hc, i, h)
    ensures Expected(InsertAt(c, i, n), InsertAt(hc, i, x), p, h) == Expected(c, hc, p, h)
  {
    FirstAboveInsert(hc, i, x, p + 1, h);
    LastBelowGap(hc, i, h);
    if i <= FirstAbove(hc, p + 1, h) {
      LastBelowFromGap(hc, i, h, p);
    }
  }

  /** The level-h link of chain position p (the head for -1), when p takes part in level h,
      leads to the next node of the chain that takes part in level h, or is null. */
  ghost predicate LinkOk(next: seq<seq<int>>, c: seq<nat>, h: nat, p: int)
    requires 0 < |next| && InArena(next, c) && -1 <= p < |c|
  {
    h < |next[NodeAt(c, p)]| ==> next[NodeAt(c, p)][h] == Target(c, FirstAbove(HeightsOf(next, c), p + 1, h))
  }

  /** Level h is linked: every node taking part in level h (the head included) points at the
      next node of the chain that takes part in level h, or is null when there is none. */
  ghost predicate LevelLinked(next: seq<seq<int>>, c: seq<nat>, h: nat)
    requires 0 < |next| && InArena(next, c)
  {
    forall p :: -1 <= p < |c| ==> LinkOk(next, c, h, p)
  }

  /** A linked level, read at one position. */
  lemma LinkAt(next: seq<seq<int>>, c: seq<nat>, h: nat, p: int)
    requires 0 < |next| && InArena(next, c) && LevelLinked(next, c, h)
    requires -1 <= p < |c| && h < |next[NodeAt(c, p)]|
    ensures next[NodeAt(c, p)][h] == Expected(c, HeightsOf(next, c), p, h)
    ensures next[NodeAt(c, p)][h] == Target(c, FirstAbove(HeightsOf(next, c), p + 1, h))
  {
    assert LinkOk(next, c, h, p);
  }

  /** The structural invariant of a live container: the arena, its head, the heights, strictly
      increasing keys along level 0 and every level linked. */
  ghost predicate Shape<V>(keys: seq<int>, vals: seq<V>, next: seq<seq<int>>, c: seq<nat>) {
    && 0 < |next| && |keys| == |next| && |vals| == |next|
    && |next[Head]| == MaxLevel
    && InArena(next, c)
    && (forall j :: 0 <= j < |c| ==> 1 <= |next[c[j]]| <= MaxLevel)
    && Increasing(Along(keys, c))
    && AllLinked(next, c)
  }

  /** Every level of the arena is linked along the chain. */
  ghost predicate AllLinked(next: seq<seq<int>>, c: seq<nat>)
    requires 0 < |next| && InArena(next, c)
  {
    forall l :: 0 <= l < MaxLevel ==> LevelLinked(next, c, l)
  }

  /** Strictly increasing keys make the chain free of repeats. */
  lemma IncreasingDistinct(keys: seq<int>, c: seq<nat>)
    requires forall j :: 0 <= j < |c| ==> c[j] < |keys|
    requires Increasing(Along(keys, c))
    ensures Distinct(c)
  {
    var ks := Along(keys, c);
    forall a, b | 0 <= a < b < |c| ensures Apart(c, a, b) {
      assert ks[a] < ks[b];
    }
  }

  /** A level whose links are untouched stays linked. */
  lemma LevelFrame(next: seq<seq<int>>, next': seq<seq<int>>, c: seq<nat>, h: nat)
    requires 0 < |next| && InArena(next, c) && SlotHeights(next') == SlotHeights(next)
    requires forall x :: 0 <= x < |next| && h < |next[x]| ==> next'[x][h] == next[x][h]
    requires LevelLinked(next, c, h)
    ensures LevelLinked(next', c, h)
  {
    assert HeightsOf(next', c) == HeightsOf(next, c);
    forall p | -1 <= p < |c| ensures LinkOk(next', c, h, p) {
      assert LinkOk(next, c, h, p);
    }
  }

  /** Along every level keys strictly increase: a link leads to a later node of the chain,
      whose key is larger. */
  lemma LinksAscend(keys: seq<int>, next: seq<seq<int>>, c: seq<nat>, h: nat, p: int)
    requires 0 < |next| && |keys| == |next| && InArena(next, c) && Increasing(Along(keys, c))
    requires LevelLinked(next, c, h)
    requires -1 <= p < |c| && h < |next[NodeAt(c, p)]|
    ensures next[NodeAt(c, p)][h] == Null ||
              (next[NodeAt(c, p)][h] in c && (p == -1 || keys[c[p]] < keys[next[NodeAt(c, p)][h]]))
  {
    var q := FirstAbove(HeightsOf(next, c), p + 1, h);
    LinkAt(next, c, h, p);
    if q < |c| && 0 <= p {
      assert Along(keys, c)[p] < Along(keys, c)[q];
    }
  }

  /** The levels are nested: a node's link at level h + 1 reaches no nearer than its link at
      level h, and a node on level h + 1 is on level h as well. */
  lemma LinksNested(keys: seq<int>, next: seq<seq<int>>, c: seq<nat>, h: nat, p: int)
    requires 0 < |next| && |keys| == |next| && InArena(next, c) && Increasing(Along(keys, c))
    requires LevelLinked(next, c, h) && LevelLinked(next, c, h + 1)
    requires -1 <= p < |c| && h + 1 < |next[NodeAt(c, p)]|
    ensures h < |next[NodeAt(c, p)]|
    ensures next[NodeAt(c, p)][h + 1] != Null ==>
              && next[NodeAt(c, p)][h] != Null
              && next[NodeAt(c, p)][h] in c && next[NodeAt(c, p)][h + 1] in c
              && keys[next[NodeAt(c, p)][h]] <= keys[next[NodeAt(c, p)][h + 1]]
              && h + 1 < |next[next[NodeAt(c, p)][h + 1]]|
  {
    var hc := HeightsOf(next, c);
    var q, q' := FirstAbove(hc, p + 1, h), FirstAbove(hc, p + 1, h + 1);
    FirstAboveMonotone(hc, p + 1, h, h + 1);
    LinkAt(next, c, h, p);
    LinkAt(next, c, h + 1, p);
    if q' < |c| {
      if q < q' { assert Along(keys, c)[q] < Along(keys, c)[q']; }
    }
  }

  /** In front of the searched key, the level-h predecessor of its lower bound brackets it:
      it is the head or has a smaller key, and its level-h link is null or has a key no smaller. */
  lemma PredecessorBrackets(keys: seq<int>, next: seq<seq<int>>, c: seq<nat>, key: int, h: nat)
    requires 0 < |next| && |keys| == |next| && h < |next[Head]| && InArena(next, c)
    requires Increasing(Along(keys, c)) && LevelLinked(next, c, h)
    ensures var pv := NodeAt(c, LastBelow(HeightsOf(next, c), LowerBound(Along(keys, c), key), h));
      && h < |next[pv]|
      && (pv == Head || keys[pv] < key)
      && (next[pv][h] == Null || (next[pv][h] in c && key <= keys[next[pv][h]]))
  {
    var ks, hc := Along(keys, c), HeightsOf(next, c);
    var lb := LowerBound(ks, key);
    LowerBoundSplits(ks, key);
    var p := LastBelow(hc, lb, h);
    SkipToUpto(hc, lb, h);
    var q := FirstAbove(hc, lb, h);
    LinkAt(next, c, h, p);
    if 0 <= p { assert ks[p] < key; }
    if q < |c| { assert key <= ks[q]; }
  }

  /** findLessThan entering level h from p, the last node of level h + 1 in front of the key:
      p is in front of the key on level h as well, and its link there is the expected one. */
  lemma SearchStart(keys: seq<int>, next: seq<seq<int>>, c: seq<nat>, key: int, h: nat, p: int)
    requires 0 < |next| && |keys| == |next| && h < |next[Head]| && InArena(next, c)
    requires LevelLinked(next, c, h)
    requires p == LastBelow(HeightsOf(next, c), LowerBound(Along(keys, c), key), h + 1)
    ensures -1 <= p <= LastBelow(HeightsOf(next, c), LowerBound(Along(keys, c), key), h)
    ensures p == -1 || h < HeightsOf(next, c)[p]
    ensures h < |next[NodeAt(c, p)]|
    ensures next[NodeAt(c, p)][h] == Target(c, FirstAbove(HeightsOf(next, c), p + 1, h))
  {
    LastBelowMonotone(HeightsOf(next, c), LowerBound(Along(keys, c), key), h, h + 1);
    LinkAt(next, c, h, p);
  }

  /** One step of findLessThan along level h: the link of position p leads to a node still in
      front of the key, which becomes the new p. */
  lemma SearchStep(keys: seq<int>, next: seq<seq<int>>, c: seq<nat>, key: int, h: nat, p: int) returns (q: nat)
    requires 0 < |next| && |keys| == |next| && InArena(next, c) && Increasing(Along(keys, c))
    requires LevelLinked(next, c, h)
    requires -1 <= p <= LastBelow(HeightsOf(next, c), LowerBound(Along(keys, c), key), h)
    requires h < |next[NodeAt(c, p)]|
    requires next[NodeAt(c, p)][h] == Target(c, FirstAbove(HeightsOf(next, c), p + 1, h))
    requires next[NodeAt(c, p)][h] != Null && keys[next[NodeAt(c, p)][h]] < key
    ensures q == FirstAbove(HeightsOf(next, c), p + 1, h) && p < q < |c|
    ensures next[NodeAt(c, p)][h] == NodeAt(c, q)
    ensures q <= LastBelow(HeightsOf(next, c), LowerBound(Along(keys, c), key), h)
    ensures h < HeightsOf(next, c)[q] && h < |next[NodeAt(c, q)]|
    ensures next[NodeAt(c, q)][h] == Target(c, FirstAbove(HeightsOf(next, c), q + 1, h))
  {
    var ks, hc := Along(keys, c), HeightsOf(next, c);
    var lb := LowerBound(ks, key);
    LowerBoundSplits(ks, key);
    q := FirstAbove(hc, p + 1, h);
    assert ks[q] < key;
    FirstAboveBefore(hc, lb, h, p);
    LinkAt(next, c, h, q);
  }

  /** Only chain nodes are linked to: a slot outside the chain is on no level. */
  lemma LinksStayInChain(next: seq<seq<int>>, c: seq<nat>, h: nat, p: int)
    requires 0 < |next| && InArena(next, c) && LevelLinked(next, c, h)
    requires -1 <= p < |c| && h < |next[NodeAt(c, p)]|
    ensures next[NodeAt(c, p)][h] == Null || next[NodeAt(c, p)][h] in c
  {
    LinkAt(next, c, h, p);
  }

  /** next' is next with node n spliced into level h at chain position i: n takes over the
      successor of its level-h predecessor `pv`, and `pv` now points at n; every other level-h
      link stays. When n does not reach level h, no level-h link changes. */
  ghost predicate Spliced(next: seq<seq<int>>, next': seq<seq<int>>, c: seq<nat>, i: nat, n: nat, h: nat)
    requires 0 < |next| && h < |next[Head]| && InArena(next, c) && i <= |c| && n < |next|
  {
    && SlotHeights(next') == SlotHeights(next)
    && (h < |next[n]| ==>
          var pv := NodeAt(c, LastBelow(HeightsOf(next, c), i, h));
          && next'[n][h] == next[pv][h]
          && next'[pv][h] == n
          && forall x :: 0 <= x < |next| && x != n && x != pv && h < |next[x]| ==> next'[x][h] == next[x][h])
    && (|next[n]| <= h ==>
          forall x :: 0 <= x < |next| && h < |next[x]| ==> next'[x][h] == next[x][h])
  }

  /** The level-h link of chain position p2 after a splice, in one lemma per kind of position. */
  ghost predicate SplicedLinkOk(next': seq<seq<int>>, c: seq<nat>, i: nat, n: nat, h: nat, p2: int)
    requires i <= |c| && -1 <= p2 <= |c| && 0 < |next'| && 0 < n < |next'| && InArena(next', c)
    requires h < |next'[NodeAt(InsertAt(c, i, n), p2)]|
  {
    AlongInsert(SlotHeights(next'), c, i, n);
    next'[NodeAt(InsertAt(c, i, n), p2)][h] == Expected(InsertAt(c, i, n), HeightsOf(next', InsertAt(c, i, n)), p2, h)
  }

  lemma SpliceNew(next: seq<seq<int>>, next': seq<seq<int>>, c: seq<nat>, i: nat, n: nat, h: nat)
    requires 0 < |next| && h < |next[Head]| && InArena(next, c) && Distinct(c)
    requires i <= |c| && 0 < n < |next| && n !in c && h < |next[n]|
    requires LevelLinked(next, c, h) && Spliced(next, next', c, i, n, h)
    ensures InArena(next', c) && h < |next'[NodeAt(InsertAt(c, i, n), i)]|
    ensures SplicedLinkOk(next', c, i, n, h, i)
  {
    var hc := HeightsOf(next, c);
    AlongInsert(SlotHeights(next), c, i, n);
    assert HeightsOf(next', InsertAt(c, i, n)) == InsertAt(hc, i, |next[n]|);
    ExpectedAtNew(c, hc, i, n, |next[n]|, h);
    LinkAt(next, c, h, LastBelow(hc, i, h));
  }

  /** A splice leaves the level-h link of every chain node other than n and its predecessor. */
  lemma SplicedOther(next: seq<seq<int>>, next': seq<seq<int>>, c: seq<nat>, i: nat, n: nat, h: nat, p: int)
    requires 0 < |next| && h < |next[Head]| && InArena(next, c) && Distinct(c)
    requires i <= |c| && 0 < n < |next| && n !in c
    requires Spliced(next, next', c, i, n, h)
    requires -1 <= p < |c| && h < |next[NodeAt(c, p)]|
    requires |next[n]| <= h || p != LastBelow(HeightsOf(next, c), i, h)
    ensures next'[NodeAt(c, p)][h] == next[NodeAt(c, p)][h]
  {
    if h < |next[n]| {
      var lb := LastBelow(HeightsOf(next, c), i, h);
      assert NodeAt(c, p) != NodeAt(c, lb) by {
        if 0 <= p && 0 <= lb { DistinctAt(c, lb, p); }
      }
    }
  }

  lemma SpliceBehind(next: seq<seq<int>>, next': seq<seq<int>>, c: seq<nat>, i: nat, n: nat, h: nat, p2: nat)
    requires 0 < |next| && h < |next[Head]| && InArena(next, c) && Distinct(c)
    requires i < p2 <= |c| && 0 < n < |next| && n !in c && h < |next[c[p2 - 1]]|
    requires LevelLinked(next, c, h) && Spliced(next, next', c, i, n, h)
    ensures InArena(next', c) && h < |next'[NodeAt(InsertAt(c, i, n), p2)]|
    ensures SplicedLinkOk(next', c, i, n, h, p2)
  {
    var hc := HeightsOf(next, c);
    AlongInsert(SlotHeights(next), c, i, n);
    assert HeightsOf(next', InsertAt(c, i, n)) == InsertAt(hc, i, |next[n]|);
    var p := p2 - 1;
    assert NodeAt(InsertAt(c, i, n), p2) == NodeAt(c, p);
    ExpectedBehind(c, hc, i, n, |next[n]|, h, p);
    SplicedOther(next, next', c, i, n, h, p);
    LinkAt(next, c, h, p);
  }

  lemma SplicePrev(next: seq<seq<int>>, next': seq<seq<int>>, c: seq<nat>, i: nat, n: nat, h: nat)
    requires 0 < |next| && h < |next[Head]| && InArena(next, c) && Distinct(c)
    requires i <= |c| && 0 < n < |next| && n !in c && h < |next[n]|
    requires LevelLinked(next, c, h) && Spliced(next, next', c, i, n, h)
    ensures var lb := LastBelow(HeightsOf(next, c), i, h);
      InArena(next', c) && h < |next'[NodeAt(InsertAt(c, i, n), lb)]| && SplicedLinkOk(next', c, i, n, h, lb)
  {
    var hc := HeightsOf(next, c);
    AlongInsert(SlotHeights(next), c, i, n);
    assert HeightsOf(next', InsertAt(c, i, n)) == InsertAt(hc, i, |next[n]|);
    var lb := LastBelow(hc, i, h);
    assert NodeAt(InsertAt(c, i, n), lb) == NodeAt(c, lb);
    ExpectedAtPrev(c, hc, i, n, |next[n]|, h);
  }

  lemma SpliceFront(next: seq<seq<int>>, next': seq<seq<int>>, c: seq<nat>, i: nat, n: nat, h: nat, p: int)
    requires 0 < |next| && h < |next[Head]| && InArena(next, c) && Distinct(c)
    requires -1 <= p < i <= |c| && 0 < n < |next| && n !in c && h < |next[NodeAt(c, p)]|
    requires |next[n]| <= h || p != LastBelow(HeightsOf(next, c), i, h)
    requires LevelLinked(next, c, h) && Spliced(next, next', c, i, n, h)
    ensures InArena(next', c) && h < |next'[NodeAt(InsertAt(c, i, n), p)]|
    ensures SplicedLinkOk(next', c, i, n, h, p)
  {
    var hc := HeightsOf(next, c);
    AlongInsert(SlotHeights(next), c, i, n);
    assert HeightsOf(next', InsertAt(c, i, n)) == InsertAt(hc, i, |next[n]|);
    assert NodeAt(InsertAt(c, i, n), p) == NodeAt(c, p);
    var lb := LastBelow(hc, i, h);
    ExpectedInFront(c, hc, i, n, |next[n]|, h, p);
    LinkAt(next, c, h, p);
    assert NodeAt(c, p) != n;
    assert next'[NodeAt(c, p)][h] == next[NodeAt(c, p)][h] by {
      if h < |next[n]| {
        if 0 <= p && 0 <= lb { DistinctAt(c, lb, p); }
      }
    }
  }

  /** Splicing keeps level h linked, now along the longer chain. */
  lemma SpliceLevel(next: seq<seq<int>>, next': seq<seq<int>>, c: seq<nat>, i: nat, n: nat, h: nat)
    requires 0 < |next| && h < |next[Head]| && InArena(next, c) && Distinct(c)
    requires i <= |c| && 0 < n < |next| && n !in c
    requires LevelLinked(next, c, h) && Spliced(next, next', c, i, n, h)
    ensures InArena(next', InsertAt(c, i, n))
    ensures LevelLinked(next', InsertAt(c, i, n), h)
  {
    var c2 := InsertAt(c, i, n);
    var hc := HeightsOf(next, c);
    var lb := LastBelow(hc, i, h);
    assert InArena(next', c);
    forall p2 | -1 <= p2 < |c2| && h < |next'[NodeAt(c2, p2)]|
      ensures LinkOk(next', c2, h, p2)
    {
      assert SlotHeights(next')[NodeAt(c2, p2)] == SlotHeights(next)[NodeAt(c2, p2)];
      if p2 == i {
        SpliceNew(next, next', c, i, n, h);
      } else if p2 > i {
        assert NodeAt(c2, p2) == c[p2 - 1];
        SpliceBehind(next, next', c, i, n, h, p2);
      } else {
        assert NodeAt(c2, p2) == NodeAt(c, p2);
        if h < |next[n]| && p2 == lb {
          SplicePrev(next, next', c, i, n, h);
        } else {
          SpliceFront(next, next', c, i, n, h, p2);
        }
      }
      assert SplicedLinkOk(next', c, i, n, h, p2);
    }
  }

  /** next' is next with the node at chain position i unlinked from level h: its level-h
      predecessor `pv` takes over its successor and every other level-h link stays. When the node
      does not reach level h, no level-h link changes. */
  ghost predicate Unspliced(next: seq<seq<int>>, next': seq<seq<int>>, c: seq<nat>, i: nat, h: nat)
    requires 0 < |next| && h < |next[Head]| && InArena(next, c) && i < |c|
  {
    && SlotHeights(next') == SlotHeights(next)
    && (h < |next[c[i]]| ==>
          var pv := NodeAt(c, LastBelow(HeightsOf(next, c), i, h));
          && next'[pv][h] == next[c[i]][h]
          && forall x :: 0 <= x < |next| && x != pv && h < |next[x]| ==> next'[x][h] == next[x][h])
    && (|next[c[i]]| <= h ==>
          forall x :: 0 <= x < |next| && h < |next[x]| ==> next'[x][h] == next[x][h])
  }

  /** The level-h link of position p2 of the chain c2 that is left once n is unlinked. */
  ghost predicate UnsplicedLinkOk(next': seq<seq<int>>, c2: seq<nat>, h: nat, p2: int)
    requires -1 <= p2 < |c2| && 0 < |next'| && InArena(next', c2)
    requires h < |next'[NodeAt(c2, p2)]|
  {
    next'[NodeAt(c2, p2)][h] == Expected(c2, HeightsOf(next', c2), p2, h)
  }

  /** Unlinking leaves the level-h link of every chain node other than the predecessor. */
  lemma UnsplicedOther(next: seq<seq<int>>, next': seq<seq<int>>, c: seq<nat>, i: nat, h: nat, p: int)
    requires 0 < |next| && h < |next[Head]| && InArena(next, c) && Distinct(c) && i < |c|
    requires Unspliced(next, next', c, i, h)
    requires -1 <= p < |c| && h < |next[NodeAt(c, p)]|
    requires |next[c[i]]| <= h || p != LastBelow(HeightsOf(next, c), i, h)
    ensures next'[NodeAt(c, p)][h] == next[NodeAt(c, p)][h]
  {
    if h < |next[c[i]]| {
      var lb := LastBelow(HeightsOf(next, c), i, h);
      assert NodeAt(c, p) != NodeAt(c, lb) by {
        if 0 <= p && 0 <= lb { DistinctAt(c, lb, p); }
      }
    }
  }

  lemma UnspliceBehind(next: seq<seq<int>>, next': seq<seq<int>>, c2: seq<nat>, i: nat, n: nat, h: nat, p2: nat)
    requires 0 < |next| && h < |next[Head]| && i <= p2 < |c2| && 0 < n < |next|
    requires InArena(next, InsertAt(c2, i, n)) && Distinct(InsertAt(c2, i, n))
    requires LevelLinked(next, InsertAt(c2, i, n), h) && Unspliced(next, next', InsertAt(c2, i, n), i, h)
    requires InArena(next, c2) && h < |next[c2[p2]]|
    ensures InArena(next', c2) && h < |next'[NodeAt(c2, p2)]|
    ensures UnsplicedLinkOk(next', c2, h, p2)
  {
    var c := InsertAt(c2, i, n);
    var hc2 := HeightsOf(next, c2);
    AlongInsert(SlotHeights(next), c2, i, n);
    assert HeightsOf(next, c) == InsertAt(hc2, i, |next[n]|);
    assert HeightsOf(next', c2) == hc2;
    assert NodeAt(c2, p2) == NodeAt(c, p2 + 1);
    ExpectedBehind(c2, hc2, i, n, |next[n]|, h, p2);
    UnsplicedOther(next, next', c, i, h, p2 + 1);
    LinkAt(next, c, h, p2 + 1);
  }

  lemma UnsplicePrev(next: seq<seq<int>>, next': seq<seq<int>>, c2: seq<nat>, i: nat, n: nat, h: nat)
    requires 0 < |next| && h < |next[Head]| && i <= |c2| && 0 < n < |next| && h < |next[n]|
    requires InArena(next, InsertAt(c2, i, n)) && Distinct(InsertAt(c2, i, n))
    requires LevelLinked(next, InsertAt(c2, i, n), h) && Unspliced(next, next', InsertAt(c2, i, n), i, h)
    ensures InArena(next', c2) && InArena(next, c2)
    ensures var lb := LastBelow(HeightsOf(next, c2), i, h);
      h < |next'[NodeAt(c2, lb)]| && UnsplicedLinkOk(next', c2, h, lb)
  {
    var c := InsertAt(c2, i, n);
    assert InArena(next, c2) by { assert forall j :: 0 <= j < |c2| ==> c2[j] in c; }
    var hc2 := HeightsOf(next, c2);
    AlongInsert(SlotHeights(next), c2, i, n);
    assert HeightsOf(next, c) == InsertAt(hc2, i, |next[n]|);
    assert HeightsOf(next', c2) == hc2;
    LastBelowInsert(hc2, i, |next[n]|, h);
    var lb := LastBelow(hc2, i, h);
    assert NodeAt(c2, lb) == NodeAt(c, lb);
    assert c[i] == n;
    LinkAt(next, c, h, i);
    ExpectedAtNew(c2, hc2, i, n, |next[n]|, h);
  }

  lemma UnspliceFront(next: seq<seq<int>>, next': seq<seq<int>>, c2: seq<nat>, i: nat, n: nat, h: nat, p2: int)
    requires 0 < |next| && h < |next[Head]| && -1 <= p2 < i <= |c2| && 0 < n < |next|
    requires InArena(next, InsertAt(c2, i, n)) && Distinct(InsertAt(c2, i, n))
    requires LevelLinked(next, InsertAt(c2, i, n), h) && Unspliced(next, next', InsertAt(c2, i, n), i, h)
    requires InArena(next, c2) && h < |next[NodeAt(c2, p2)]|
    requires |next[n]| <= h || p2 != LastBelow(HeightsOf(next, c2), i, h)
    ensures InArena(next', c2) && h < |next'[NodeAt(c2, p2)]|
    ensures UnsplicedLinkOk(next', c2, h, p2)
  {
    var c := InsertAt(c2, i, n);
    var hc2 := HeightsOf(next, c2);
    AlongInsert(SlotHeights(next), c2, i, n);
    assert HeightsOf(next, c) == InsertAt(hc2, i, |next[n]|);
    assert HeightsOf(next', c2) == hc2;
    LastBelowInsert(hc2, i, |next[n]|, h);
    assert NodeAt(c2, p2) == NodeAt(c, p2);
    ExpectedInFront(c2, hc2, i, n, |next[n]|, h, p2);
    UnsplicedOther(next, next', c, i, h, p2);
    LinkAt(next, c, h, p2);
  }

  lemma UnspliceChain(next: seq<seq<int>>, next': seq<seq<int>>, c2: seq<nat>, i: nat, n: nat, h: nat)
    requires 0 < |next| && h < |next[Head]| && i <= |c2| && 0 < n < |next|
    requires InArena(next, InsertAt(c2, i, n)) && Distinct(InsertAt(c2, i, n))
    requires LevelLinked(next, InsertAt(c2, i, n), h) && Unspliced(next, next', InsertAt(c2, i, n), i, h)
    ensures InArena(next', c2)
    ensures LevelLinked(next', c2, h)
  {
    assert InArena(next, c2) by {
      forall j | 0 <= j < |c2| ensures 0 < c2[j] < |next| {
        if j < i { assert c2[j] == InsertAt(c2, i, n)[j]; } else { assert c2[j] == InsertAt(c2, i, n)[j + 1]; }
      }
    }
    var lb := LastBelow(HeightsOf(next, c2), i, h);
    forall p2 | -1 <= p2 < |c2| && h < |next'[NodeAt(c2, p2)]|
      ensures LinkOk(next', c2, h, p2)
    {
      assert SlotHeights(next')[NodeAt(c2, p2)] == SlotHeights(next)[NodeAt(c2, p2)];
      if p2 >= i {
        UnspliceBehind(next, next', c2, i, n, h, p2);
      } else if h < |next[n]| && p2 == lb {
        UnsplicePrev(next, next', c2, i, n, h);
      } else {
        UnspliceFront(next, next', c2, i, n, h, p2);
      }
      assert UnsplicedLinkOk(next', c2, h, p2);
    }
  }

  /** Unlinking keeps level h linked, now along the shorter chain. */
  lemma UnspliceLevel(next: seq<seq<int>>, next': seq<seq<int>>, c: seq<nat>, i: nat, h: nat)
    requires 0 < |next| && h < |next[Head]| && InArena(next, c) && Distinct(c) && i < |c|
    requires LevelLinked(next, c, h) && Unspliced(next, next', c, i, h)
    ensures InArena(next', RemoveAt(c, i))
    ensures LevelLinked(next', RemoveAt(c, i), h)
  {
    InsertRemove(c, i);
    UnspliceChain(next, next', RemoveAt(c, i), i, c[i], h);
  }
}
