/** The skip-list ordered map `fm::SkipList`: its nodes, its iterator and the container.

    The container owns an arena of nodes (see module Links): `keys[x]`, `vals[x]` and `next[x]`
    are the key, the value and the successor links of node x, slot 0 is the head sentinel of
    height MaxLevel, and `Null` is the null pointer. The ghost `chain` lists the live nodes in
    level-0 order; the map the container stands for is `Contents()`. */
module Fm {

  import opened Seqs
  import opened Heights
  import opened Ordered
  import opened Links
  import opened Relink

  /** kBranching: a node climbs one more level when a draw of the engine is divisible by it. */
  const Branching: nat := 4

  /** A cursor on a node of the level-0 chain; the null node is end(). */
  datatype Iterator = Iterator(node: int) {
    /** operator bool: true exactly on iterators other than end(). */
    predicate NonNull(): (b: bool)
      ensures b <==> this != End()
    {
      node != Null
    }
  }

  /** end(): the iterator on the null node, which is no arena slot. */
  function End(): (it: Iterator)
    ensures it.node < 0
  {
    Iterator(Null)
  }

  function Max(a: nat, b: nat): nat {
    if a < b then b else a
  }

  /** The height getRandomHeight draws from the engine outputs rolls(0), rolls(1), ...:
      one more level for every leading draw divisible by Branching, at most MaxLevel. */
  predicate DrawnHeight(rolls: nat -> nat, height: nat) {
    && 1 <= height <= MaxLevel
    && (forall j :: 0 <= j < height - 1 ==> rolls(j) % Branching == 0)
    && (height < MaxLevel ==> rolls(height - 1) % Branching != 0)
  }

  /** The same draws give the same height. */
  lemma DrawnHeightUnique(rolls: nat -> nat, a: nat, b: nat)
    requires DrawnHeight(rolls, a) && DrawnHeight(rolls, b)
    ensures a == b
  {
  }

  /** getRandomHeight, with the engine's outputs for this call given as `rolls`. */
  method GetRandomHeight(rolls: nat -> nat) returns (height: nat)
    ensures 1 <= height <= MaxLevel
    ensures forall j :: 0 <= j < height - 1 ==> rolls(j) % Branching == 0
    ensures height < MaxLevel ==> rolls(height - 1) % Branching != 0
  {
    height := 1;
    while height < MaxLevel && rolls(height - 1) % Branching == 0
      invariant 1 <= height <= MaxLevel
      invariant forall j :: 0 <= j < height - 1 ==> rolls(j) % Branching == 0
    {
      height := height + 1;
    }
  }

  /** The invariant of a live container, over the values of its fields: the arena is shaped,
      `size` counts the chain and `height` is the height of the tallest node. */
  ghost predicate Live<V>(keys: seq<int>, vals: seq<V>, next: seq<seq<int>>, c: seq<nat>, height: nat, size: nat) {
    && Shape(keys, vals, next, c)
    && size == |c|
    && height == MaxOf(HeightsOf(next, c))
  }

  /** The map a live container with these fields stands for. */
  ghost function ContentsOf<V>(keys: seq<int>, vals: seq<V>, c: seq<nat>): map<int, V>
    requires |keys| == |vals| && (forall j :: 0 <= j < |c| ==> c[j] < |keys|) && Increasing(Along(keys, c))
  {
    MapOf(Along(keys, c), Along(vals, c))
  }

  class SkipList<V> {
    var keys: seq<int>
    var vals: seq<V>
    var next: seq<seq<int>>
    var currentHeight: nat
    var size: nat
    ghost var chain: seq<nat>
    /** Value{}: the value of the head slot and the value operator[] inserts. */
    const blank: V

    /** A live container: the arena is shaped, `size` counts the chain and `currentHeight` is
        the height of the tallest node. */
    ghost predicate Valid()
      reads this
    {
      Live(keys, vals, next, chain, currentHeight, size)
    }

    /** A container whose nodes were moved away: no head, height 0, size 0. */
    ghost predicate MovedFrom()
      reads this
    {
      next == [] && keys == [] && vals == [] && chain == [] && currentHeight == 0 && size == 0
    }

    /** The keys along level 0. */
    ghost function Keys(): seq<int>
      reads this
      requires Valid()
    {
      Along(keys, chain)
    }

    /** The map the container holds. */
    ghost function Contents(): map<int, V>
      reads this
      requires Valid()
    {
      ContentsOf(keys, vals, chain)
    }

    /** SkipList(): a head of MaxLevel null links and no nodes. */
    constructor (blank: V)
      ensures Valid() && Contents() == map[]
      ensures size == 0 && currentHeight == 0 && |next| == 1 && this.blank == blank
    {
      keys := [0];
      vals := [blank];
      next := [seq(MaxLevel, _ => Null)];
      currentHeight := 0;
      size := 0;
      chain := [];
      this.blank := blank;
    }

    /** SkipList(SkipList&&): takes over the nodes of rhs and leaves it without any. */
    constructor MoveFrom(rhs: SkipList<V>)
      modifies rhs
      ensures keys == old(rhs.keys) && vals == old(rhs.vals) && next == old(rhs.next)
      ensures chain == old(rhs.chain) && currentHeight == old(rhs.currentHeight) && size == old(rhs.size)
      ensures blank == rhs.blank
      ensures rhs.MovedFrom()
    {
      keys, vals, next := rhs.keys, rhs.vals, rhs.next;
      chain, currentHeight, size := rhs.chain, rhs.currentHeight, rhs.size;
      blank := rhs.blank;
      rhs.keys, rhs.vals, rhs.next, rhs.chain := [], [], [], [];
      rhs.currentHeight, rhs.size := 0, 0;
    }

    /** swap: exchanges the nodes, the height and the size; nothing happens on self. */
    method Swap(rhs: SkipList<V>)
      modifies this, rhs
      ensures rhs == this ==> unchanged(this)
      ensures rhs != this ==>
                && keys == old(rhs.keys) && vals == old(rhs.vals) && next == old(rhs.next)
                && chain == old(rhs.chain) && currentHeight == old(rhs.currentHeight) && size == old(rhs.size)
                && rhs.keys == old(keys) && rhs.vals == old(vals) && rhs.next == old(next)
                && rhs.chain == old(chain) && rhs.currentHeight == old(currentHeight) && rhs.size == old(size)
    {
      if this != rhs {
        keys, rhs.keys := rhs.keys, keys;
        vals, rhs.vals := rhs.vals, vals;
        next, rhs.next := rhs.next, next;
        chain, rhs.chain := rhs.chain, chain;
        currentHeight, rhs.currentHeight := rhs.currentHeight, currentHeight;
        size, rhs.size := rhs.size, size;
      }
    }

    /** operator=(SkipList&&): moves rhs in through a temporary and a swap; the old nodes of this
        end up in the temporary, which is destroyed. Nothing happens on self-assignment. */
    method MoveAssign(rhs: SkipList<V>)
      modifies this, rhs
      ensures rhs == this ==> unchanged(this)
      ensures rhs != this ==>
                && keys == old(rhs.keys) && vals == old(rhs.vals) && next == old(rhs.next)
                && chain == old(rhs.chain) && currentHeight == old(rhs.currentHeight) && size == old(rhs.size)
                && rhs.MovedFrom()
    {
      if this != rhs {
        var tmp := new SkipList.MoveFrom(rhs);
        Swap(tmp);
      }
    }

    /** findLessThan: the top-down search. The node returned is the last one whose key is less
        than `key` (the head when there is none); `prev[h]` is the last node on level h with a
        key less than `key`. */
    method FindLessThan(key: int) returns (node: nat, prev: seq<int>)
      requires Valid()
      ensures node == NodeAt(chain, LowerBound(Keys(), key) - 1)
      ensures node == Head || keys[node] < key
      ensures 0 < |next[node]| && next[node][0] == Target(chain, LowerBound(Keys(), key))
      ensures |prev| == MaxLevel && forall h :: 0 <= h < MaxLevel ==> prev[h] == Predecessor(key, h)
      ensures forall h :: 0 <= h < MaxLevel ==>
                && 0 <= prev[h] < |next| && h < |next[prev[h]]|
                && (prev[h] == Head || keys[prev[h]] < key)
                && (next[prev[h]][h] == Null || (next[prev[h]][h] in chain && key <= keys[next[prev[h]][h]]))
    {
      ghost var hc, lb := HeightsOf(next, chain), LowerBound(Keys(), key);
      node, prev := Descend(keys, next, chain, key);
      LastBelowZero(hc, lb);
      LevelZeroLink(next, chain, (lb as int) - 1);
      if 0 < lb {
        assert Keys()[lb - 1] < key;
      }
      forall h | 0 <= h < MaxLevel
        ensures && 0 <= prev[h] < |next| && h < |next[prev[h]]|
                && (prev[h] == Head || keys[prev[h]] < key)
                && (next[prev[h]][h] == Null || (next[prev[h]][h] in chain && key <= keys[next[prev[h]][h]]))
      {
        PredecessorBrackets(keys, next, chain, key, h);
      }
    }

    /** The entry findLessThan leaves in prev[h]: the last node of level h whose key is less
        than `key`, the head when there is none. */
    ghost function Predecessor(key: int, h: nat): nat
      reads this
      requires Valid()
    {
      NodeAt(chain, LastBelow(HeightsOf(next, chain), LowerBound(Keys(), key), h))
    }

    /** emplace: inserts (key, value) unless the key is present. A new node gets a height drawn
        from `rolls`, is spliced in after its predecessor on every level it reaches, and the
        container's height grows to cover it. */
    method Emplace(key: int, value: V, rolls: nat -> nat) returns (it: Iterator, inserted: bool)
      requires Valid()
      modifies this
      ensures Valid()
      ensures inserted <==> key !in old(Contents())
      ensures !inserted ==> it == End() && unchanged(this)
      ensures inserted ==> Contents() == old(Contents())[key := value] && size == old(size) + 1
      ensures inserted ==> it.node in chain && keys[it.node] == key && vals[it.node] == value
      ensures inserted ==> DrawnHeight(rolls, |next[it.node]|)
      ensures inserted ==> currentHeight == Max(old(currentHeight), |next[it.node]|)
      ensures inserted ==> it.node == |old(next)| && chain == InsertAt(old(chain), LowerBound(old(Keys()), key), it.node)
      ensures inserted ==> keys == old(keys) + [key] && vals == old(vals) + [value]
      ensures inserted ==> SlotHeights(next) == SlotHeights(old(next)) + [|next[it.node]|]
    {
      ghost var c, i := chain, LowerBound(Keys(), key);
      var n := |next|;
      var linked, top, h;
      inserted, linked, top, h := EmplaceArena(keys, vals, next, chain, currentHeight, key, value, rolls);
      if !inserted {
        return End(), false;
      }
      InsertedContents(keys, vals, c, key, value);
      Install(keys + [key], vals + [value], linked, InsertAt(c, i, n), top, size + 1);
      assert chain[i] == n;
      it := Iterator(n);
    }

    /** Installs field values that form a live container. */
    method Install(k: seq<int>, v: seq<V>, n: seq<seq<int>>, ghost c: seq<nat>, h: nat, s: nat)
      requires Live(k, v, n, c, h, s)
      modifies this
      ensures keys == k && vals == v && next == n && chain == c && currentHeight == h && size == s
      ensures Valid()
    {
      keys, vals, next, chain, currentHeight, size := k, v, n, c, h, s;
    }

    /** insert: emplace of a key/value pair. */
    method Insert(kv: (int, V), rolls: nat -> nat) returns (it: Iterator, inserted: bool)
      requires Valid()
      modifies this
      ensures Valid()
      ensures inserted <==> kv.0 !in old(Contents())
      ensures !inserted ==> it == End() && unchanged(this)
      ensures inserted ==> Contents() == old(Contents())[kv.0 := kv.1] && size == old(size) + 1
      ensures inserted ==> it.node in chain && keys[it.node] == kv.0 && vals[it.node] == kv.1
      ensures inserted ==> DrawnHeight(rolls, |next[it.node]|)
      ensures inserted ==> currentHeight == Max(old(currentHeight), |next[it.node]|)
      ensures inserted ==> it.node == |old(next)| && chain == InsertAt(old(chain), LowerBound(old(Keys()), kv.0), it.node)
      ensures inserted ==> keys == old(keys) + [kv.0] && vals == old(vals) + [kv.1]
      ensures inserted ==> SlotHeights(next) == SlotHeights(old(next)) + [|next[it.node]|]
    {
      it, inserted := Emplace(kv.0, kv.1, rolls);
    }

    /** erase(key): unlinks the node holding `key` from every level it is on, then lowers the
        container's height while the top level is empty. An absent key changes nothing. */
    method Erase(key: int) returns (removed: bool)
      requires Valid()
      modifies this
      ensures Valid()
      ensures removed <==> key in old(Contents())
      ensures !removed ==> unchanged(this)
      ensures removed ==> Contents() == old(Contents()) - {key} && size == old(size) - 1
      ensures removed ==> chain == RemoveAt(old(chain), LowerBound(old(Keys()), key))
      ensures removed ==> keys == old(keys) && vals == old(vals) && |next| == |old(next)|
      ensures removed ==> SlotHeights(next) == SlotHeights(old(next))
      ensures removed ==> old(chain[LowerBound(Keys(), key)]) !in chain
      ensures removed ==> forall x :: x in old(chain) && x != old(chain[LowerBound(Keys(), key)]) ==> x in chain
    {
      ghost var c, i := chain, LowerBound(Keys(), key);
      var unlinked, top;
      removed, unlinked, top := EraseArena(keys, vals, next, chain, currentHeight, key);
      if removed {
        LowerBoundSplits(Along(keys, c), key);
        RemovedContents(keys, vals, c, i);
        Install(keys, vals, unlinked, RemoveAt(c, i), top, size - 1);
        IncreasingDistinct(keys, c);
        forall j | 0 <= j < |c| && j != i ensures c[j] != c[i] {
          DistinctAt(c, i, j);
        }
        RemovedMembers(c, i);
      }
    }

    /** erase(iter): erases the key the iterator is on. */
    method EraseAt(it: Iterator) returns (removed: bool)
      requires Valid() && it.node in chain
      modifies this
      ensures Valid()
      ensures removed
      ensures Contents() == old(Contents()) - {old(keys[it.node])} && size == old(size) - 1
      ensures keys == old(keys) && vals == old(vals) && SlotHeights(next) == SlotHeights(old(next))
      ensures chain == RemoveAt(old(chain), old(PositionOf(it.node)))
      ensures it.node !in chain && forall x :: x in old(chain) && x != it.node ==> x in chain
    {
      ghost var c, j := chain, PositionOf(it.node);
      KeyOfLive(it.node);
      removed := Erase(keys[it.node]);
      RemovedMembers(c, j);
    }

    /** The chain position of a live node: the lower bound of its key, and the only position
        holding it. */
    ghost function PositionOf(x: int): (j: nat)
      reads this
      requires Valid() && x in chain
      ensures j < |chain| && chain[j] == x && j == LowerBound(Keys(), keys[x])
      ensures forall j' :: 0 <= j' < |chain| && j' != j ==> chain[j'] != x
    {
      var j :| 0 <= j < |chain| && chain[j] == x;
      assert LowerBound(Keys(), keys[x]) == j by {
        LowerBoundSplits(Keys(), keys[x]);
        assert Keys()[j] == keys[x];
      }
      assert forall j' :: 0 <= j' < |chain| && j' != j ==> chain[j'] != x by {
        IncreasingDistinct(keys, chain);
        forall j' | 0 <= j' < |chain| && j' != j ensures chain[j'] != x {
          DistinctAt(chain, j, j');
        }
      }
      j
    }

    /** operator[]: the value slot of `key`, inserting `key` with Value{} first when absent. */
    method Index(key: int, rolls: nat -> nat) returns (slot: nat)
      requires Valid()
      modifies this
      ensures Valid()
      ensures slot in chain && keys[slot] == key && key in Contents() && Contents()[key] == vals[slot]
      ensures old(key in Contents()) ==> unchanged(this)
      ensures old(key !in Contents()) ==> Contents() == old(Contents())[key := blank] && size == old(size) + 1
      ensures old(key !in Contents()) ==>
                && slot == |old(next)| && chain == InsertAt(old(chain), LowerBound(old(Keys()), key), slot)
                && keys == old(keys) + [key] && vals == old(vals) + [blank]
                && SlotHeights(next) == SlotHeights(old(next)) + [|next[slot]|]
                && DrawnHeight(rolls, |next[slot]|) && currentHeight == Max(old(currentHeight), |next[slot]|)
    {
      var it := Find(key);
      if it == End() {
        var inserted;
        it, inserted := Emplace(key, blank, rolls);
      }
      slot := it.node;
      KeyOfLive(slot);
    }

    /** Assigning through the value reference of node x (SkipNode::value). */
    method SetValue(x: nat, v: V)
      requires Valid() && x in chain
      modifies this
      ensures Valid()
      ensures keys == old(keys) && next == old(next) && chain == old(chain)
      ensures vals == old(vals)[x := v]
      ensures Contents() == old(Contents())[keys[x] := v]
      ensures currentHeight == old(currentHeight) && size == old(size)
    {
      ghost var j :| 0 <= j < |chain| && chain[j] == x;
      ValueUpdated(keys, vals, next, chain, currentHeight, size, j, v);
      Install(keys, vals[x := v], next, chain, currentHeight, size);
    }

    /** find: an iterator on the node holding `key`, end() when there is none. */
    method Find(key: int) returns (it: Iterator)
      requires Valid()
      ensures it != End() <==> key in Contents()
      ensures it != End() ==> it.node in chain && keys[it.node] == key
    {
      var prevNode, _ := FindLessThan(key);
      LowerBoundSplits(Keys(), key);
      var node := next[prevNode][0];
      if node != Null && !(key < keys[node]) && !(keys[node] < key) {
        return Iterator(node);
      }
      return End();
    }

    method Contains(key: int) returns (b: bool)
      requires Valid()
      ensures b <==> key in Contents()
    {
      var it := Find(key);
      b := it != End();
    }

    method Counts(key: int) returns (n: nat)
      requires Valid()
      ensures n <= 1
      ensures n == 1 <==> key in Contents()
    {
      var b := Contains(key);
      n := if b then 1 else 0;
    }

    /** size: the number of keys held; 0 on a moved-from container, which reads only size_. */
    function Size(): (n: nat)
      reads this
      requires Valid() || MovedFrom()
      ensures Valid() ==> n == |Contents()|
      ensures MovedFrom() ==> n == 0
    {
      SizeCounts();
      size
    }

    /** empty: no keys held; true on a moved-from container. */
    function Empty(): (b: bool)
      reads this
      requires Valid() || MovedFrom()
      ensures Valid() ==> (b <==> Contents() == map[])
      ensures MovedFrom() ==> b
    {
      SizeCounts();
      size == 0
    }

    /** `size` is the number of entries of the map, and 0 once the nodes were moved away. */
    lemma SizeCounts()
      requires Valid() || MovedFrom()
      ensures Valid() ==> size == |Contents()|
      ensures MovedFrom() ==> size == 0
    {
      if Valid() {
        MapOfSize(Along(keys, chain), Along(vals, chain));
      }
    }

    /** begin: an iterator on the node with the smallest key, end() when there is none. */
    function Begin(): (it: Iterator)
      reads this
      requires Valid()
      ensures it == End() <==> Contents() == map[]
      ensures it != End() ==> it.node in chain && forall k :: k in Contents() ==> keys[it.node] <= k
    {
      LevelZeroLink(next, chain, -1);
      FirstIsLeast();
      Iterator(next[Head][0])
    }

    /** The first node of the chain holds the smallest key. */
    lemma FirstIsLeast()
      requires Valid()
      ensures |chain| == 0 <==> Contents() == map[]
      ensures 0 < |chain| ==> forall k :: k in Contents() ==> keys[chain[0]] <= k
    {
      MapOfSize(Along(keys, chain), Along(vals, chain));
      if 0 < |chain| {
        forall k | k in Contents() ensures Keys()[0] <= k {
          var j :| 0 <= j < |chain| && Keys()[j] == k;
          assert j == 0 || Keys()[0] < Keys()[j];
        }
      }
    }

    /** Iterator operator++: the node after it on level 0, end() after the last one. */
    function Advance(it: Iterator): (r: Iterator)
      reads this
      requires Valid() && it.node in chain
      ensures forall j :: 0 <= j < |chain| && chain[j] == it.node ==>
                r == if j + 1 < |chain| then Iterator(chain[j + 1]) else End()
      ensures r != End() ==> r.node in chain && keys[it.node] < keys[r.node]
    {
      AdvanceLive(it.node);
      Iterator(next[it.node][0])
    }

    lemma AdvanceLive(x: int)
      requires Valid() && x in chain
      ensures 0 < x < |next| && 0 < |next[x]|
      ensures forall j :: 0 <= j < |chain| && chain[j] == x ==> next[x][0] == Target(chain, j + 1)
      ensures next[x][0] != Null ==> next[x][0] in chain && keys[x] < keys[next[x][0]]
    {
      var j :| 0 <= j < |chain| && chain[j] == x;
      IncreasingDistinct(keys, chain);
      LevelZeroLink(next, chain, j);
      forall j' | 0 <= j' < |chain| && chain[j'] == x ensures next[x][0] == Target(chain, j' + 1) {
        if j' != j { DistinctAt(chain, j, j'); }
      }
      if j + 1 < |chain| {
        assert Keys()[j] < Keys()[j + 1];
      }
    }

    /** operator-> then key(): the key of a live node. */
    function KeyOf(it: Iterator): (k: int)
      reads this
      requires Valid() && it.node in chain
      ensures k in Contents() && Contents()[k] == vals[it.node]
    {
      KeyOfLive(it.node);
      keys[it.node]
    }

    /** operator-> then value(). */
    function ValueOf(it: Iterator): (v: V)
      reads this
      requires Valid() && it.node in chain
      ensures keys[it.node] in Contents() && Contents()[keys[it.node]] == v
    {
      KeyOfLive(it.node);
      vals[it.node]
    }

    lemma KeyOfLive(x: int)
      requires Valid() && x in chain
      ensures 0 < x < |next| && keys[x] in Contents() && Contents()[keys[x]] == vals[x]
    {
      var j :| 0 <= j < |chain| && chain[j] == x;
      assert Keys()[j] == keys[x] && Along(vals, chain)[j] == vals[x];
    }

    /** Iterator equality is node identity, and on live nodes that is key equality. */
    lemma IteratorIdentity(a: Iterator, b: Iterator)
      requires Valid() && a.node in chain && b.node in chain
      ensures a == b <==> keys[a.node] == keys[b.node]
    {
      var i :| 0 <= i < |chain| && chain[i] == a.node;
      var j :| 0 <= j < |chain| && chain[j] == b.node;
      if i < j {
        assert Keys()[i] < Keys()[j];
      } else if j < i {
        assert Keys()[j] < Keys()[i];
      }
    }

    /** Every level is strictly increasing: a live link from the head or a chain node x at
        level h leads to a chain node with a larger key. */
    lemma LevelIncreasing(x: int, h: nat)
      requires Valid() && (x == Head || x in chain) && 0 <= x < |next| && h < |next[x]|
      ensures next[x][h] == Null || (next[x][h] in chain && (x == Head || keys[x] < keys[next[x][h]]))
    {
      var p := if x == Head then -1 else PositionOf(x);
      LinksAscend(keys, next, chain, h, p);
    }

    /** The levels are nested: where x links to some node on level h + 1, it links on level h too,
        no further along, and the node reached on level h + 1 is tall enough to be on it. */
    lemma LevelsNested(x: int, h: nat)
      requires Valid() && (x == Head || x in chain) && 0 <= x < |next| && h + 1 < |next[x]|
      ensures next[x][h + 1] != Null ==>
                && next[x][h] != Null && next[x][h] in chain && next[x][h + 1] in chain
                && keys[next[x][h]] <= keys[next[x][h + 1]]
                && h + 1 < |next[next[x][h + 1]]|
    {
      var p := if x == Head then -1 else PositionOf(x);
      LinksNested(keys, next, chain, h, p);
    }

    /** No live node links to a slot outside the chain, at any level: an erased node is
        unreachable. */
    lemma OffChainUnlinked(x: int, p: int, h: nat)
      requires Valid() && x !in chain
      requires -1 <= p < |chain| && h < |next[NodeAt(chain, p)]|
      ensures next[NodeAt(chain, p)][h] != x || x == Null
    {
      LinksStayInChain(next, chain, h, p);
    }
  }

  /** The descent of findLessThan over the arena: from the head on the top level down to level 0,
      each level walked by SearchLevel; on the way `prev[h]` records where the walk on level h
      stopped. */
  method Descend(keys: seq<int>, next: seq<seq<int>>, ghost c: seq<nat>, key: int)
    returns (node: nat, prev: seq<int>)
    requires 0 < |next| && |keys| == |next| && |next[Head]| == MaxLevel
    requires InArena(next, c) && (forall j :: 0 <= j < |c| ==> |next[c[j]]| <= MaxLevel)
    requires Increasing(Along(keys, c)) && AllLinked(next, c)
    ensures node == NodeAt(c, LastBelow(HeightsOf(next, c), LowerBound(Along(keys, c), key), 0))
    ensures |prev| == MaxLevel && forall h :: 0 <= h < MaxLevel ==>
              prev[h] == NodeAt(c, LastBelow(HeightsOf(next, c), LowerBound(Along(keys, c), key), h))
  {
    ghost var hc, lb := HeightsOf(next, c), LowerBound(Along(keys, c), key);
    node := Head;
    prev := seq(MaxLevel, _ => Null);
    var height := MaxLevel;
    while height > 0
      invariant 0 <= height <= MaxLevel && |prev| == MaxLevel
      invariant node == NodeAt(c, LastBelow(hc, lb, height))
      invariant forall l :: height <= l < MaxLevel ==> prev[l] == NodeAt(c, LastBelow(hc, lb, l))
    {
      height := height - 1;
      node := SearchLevel(keys, next, c, key, height, node);
      prev := prev[height := node];
    }
  }

  /** One level of findLessThan: from the last node of level h + 1 in front of `key`, follow
      level h while the next key is less than `key`; the walk stops at the last node of level h
      in front of `key`. */
  method SearchLevel(keys: seq<int>, next: seq<seq<int>>, ghost c: seq<nat>, key: int, h: nat, start: nat)
    returns (node: nat)
    requires 0 < |next| && |keys| == |next| && |next[Head]| == MaxLevel && h < MaxLevel
    requires InArena(next, c) && Increasing(Along(keys, c)) && LevelLinked(next, c, h)
    requires start == NodeAt(c, LastBelow(HeightsOf(next, c), LowerBound(Along(keys, c), key), h + 1))
    ensures node == NodeAt(c, LastBelow(HeightsOf(next, c), LowerBound(Along(keys, c), key), h))
  {
    ghost var hc, lb := HeightsOf(next, c), LowerBound(Along(keys, c), key);
    ghost var p := LastBelow(hc, lb, h + 1);
    SearchStart(keys, next, c, key, h, p);
    node := start;
    while next[node][h] != Null && keys[next[node][h]] < key
      invariant -1 <= p <= LastBelow(hc, lb, h)
      invariant p == -1 || h < hc[p]
      invariant node == NodeAt(c, p)
      invariant next[node][h] == Target(c, FirstAbove(hc, p + 1, h))
      decreases |c| - p
    {
      p := SearchStep(keys, next, c, key, h, p);
      node := next[node][h];
    }
    ghost var q := FirstAbove(hc, p + 1, h);
    if q < |c| {
      assert Along(keys, c)[q] == keys[c[q]];
    }
    LastBelowFromGap(hc, lb, h, p);
  }

  /** The head's level-h link is null exactly when level h is empty. */
  lemma EmptyTop(next: seq<seq<int>>, c: seq<nat>, h: nat)
    requires 0 < |next| && |next[Head]| == MaxLevel && InArena(next, c) && AllLinked(next, c) && h < MaxLevel
    ensures next[Head][h] == Null <==> MaxOf(HeightsOf(next, c)) <= h
  {
    EmptyLevel(HeightsOf(next, c), h);
    LinkAt(next, c, h, -1);
  }

  /** SkipNode::setNext on arena slot x: its level-h link becomes `target`; no other link and no
      height changes. */
  function SetNext(next: seq<seq<int>>, x: nat, h: nat, target: int): (r: seq<seq<int>>)
    requires x < |next| && h < |next[x]|
    ensures SlotHeights(r) == SlotHeights(next)
    ensures r[x][h] == target
    ensures forall y, l :: 0 <= y < |next| && 0 <= l < |next[y]| && (y != x || l != h) ==> r[y][l] == next[y][l]
  {
    SlotHeightsSetLink(next, x, h, target);
    next[x := next[x][h := target]]
  }

  /** The node creation and the two relinking loops of emplace, on the arena `next1`: the new node
      of height h goes into slot |next1| with null links; on every level below both the
      container's height `top` and h it takes over its predecessor's link and the predecessor
      points at it; on the levels from `top` up to h, which are empty, the head points at it.
      prev[l] is the level-l predecessor of chain position i, where the node enters. */
  method LinkNewNode(next1: seq<seq<int>>, h: nat, prev: seq<int>, top: nat, ghost c: seq<nat>, ghost i: nat)
    returns (next: seq<seq<int>>)
    requires 0 < |next1| && |next1[Head]| == MaxLevel && InArena(next1, c) && Distinct(c) && i <= |c|
    requires AllLinked(next1, c) && top == MaxOf(HeightsOf(next1, c)) && top <= MaxLevel
    requires 1 <= h <= MaxLevel && |prev| == MaxLevel
    requires forall l :: 0 <= l < MaxLevel ==> prev[l] == NodeAt(c, LastBelow(HeightsOf(next1, c), i, l))
    ensures SlotHeights(next) == SlotHeights(next1) + [h]
    ensures InArena(next, InsertAt(c, i, |next1|)) && AllLinked(next, InsertAt(c, i, |next1|))
  {
    var n := |next1|;
    next := next1 + [seq(h, _ => Null)];
    ghost var next0 := next;
    AppendKeepsLinks(next1, seq(h, _ => Null), c);
    SlotHeightsAppend(next1, seq(h, _ => Null));
    AlongExtend(SlotHeights(next1), h, c);
    assert HeightsOf(next0, c) == HeightsOf(next1, c);
    LinkStart(next0, c, i, n);
    var height := 0;
    while height < if top < h then top else h
      invariant height <= top && height <= h
      invariant Linking(next0, next, c, i, n, height)
    {
      ghost var before := next;
      next := SetNext(next, n, height, next[prev[height]][height]);
      next := SetNext(next, prev[height], height, n);
      LinkStep(next0, before, next, c, i, n, height);
      height := height + 1;
    }
    if h > top {
      height := top;
      while height < h
        invariant top <= height <= h
        invariant Linking(next0, next, c, i, n, height)
      {
        ghost var before := next;
        EmptyAbove(next1, c, height);
        next := SetNext(next, prev[height], height, n);
        LinkStep(next0, before, next, c, i, n, height);
        height := height + 1;
      }
    }
    LinkDone(next0, next, c, i, n);
  }

  /** The relinking loop of erase, on the arena `next0`: from level 0 up, while the level-h
      predecessor still points at `curr`, the node at chain position i, it takes over curr's
      link; the first level where it does not is curr's height. */
  method UnlinkNode(next0: seq<seq<int>>, prev: seq<int>, curr: nat, ghost c: seq<nat>, ghost i: nat)
    returns (next: seq<seq<int>>)
    requires 0 < |next0| && |next0[Head]| == MaxLevel && InArena(next0, c) && Distinct(c)
    requires i < |c| && curr == c[i] && |next0[curr]| <= MaxLevel && AllLinked(next0, c)
    requires |prev| == MaxLevel
    requires forall l :: 0 <= l < MaxLevel ==> prev[l] == NodeAt(c, LastBelow(HeightsOf(next0, c), i, l))
    ensures SlotHeights(next) == SlotHeights(next0)
    ensures InArena(next, RemoveAt(c, i)) && AllLinked(next, RemoveAt(c, i))
  {
    next := next0;
    UnlinkStart(next0, c, i);
    var height := 0;
    while height < MaxLevel
      invariant height <= |next0[curr]|
      invariant Unlinking(next0, next, c, i, height)
    {
      PredLink(next0, c, i, height);
      if next[prev[height]][height] != curr {
        break;
      }
      ghost var before := next;
      next := SetNext(next, prev[height], height, next[curr][height]);
      UnlinkStep(next0, before, next, c, i, height);
      height := height + 1;
    }
    UnlinkDone(next0, next, c, i);
  }

  /** emplace on the arena: findLessThan records the predecessors on every level; a present key
      stops here; otherwise a height h is drawn, the node goes into the new slot |next1| at chain
      position i, the key's lower bound, and the container's height `top` grows to cover it. */
  method EmplaceArena<V>(keys: seq<int>, vals: seq<V>, next1: seq<seq<int>>, ghost c: seq<nat>, top: nat,
                         key: int, value: V, rolls: nat -> nat)
    returns (inserted: bool, next: seq<seq<int>>, top': nat, h: nat)
    requires Shape(keys, vals, next1, c) && top == MaxOf(HeightsOf(next1, c))
    ensures inserted <==> key !in Along(keys, c)
    ensures inserted ==> DrawnHeight(rolls, h) && |next| == |next1| + 1 && |next[|next1|]| == h
    ensures inserted ==> SlotHeights(next) == SlotHeights(next1) + [h]
    ensures inserted ==> Live(keys + [key], vals + [value], next, InsertAt(c, LowerBound(Along(keys, c), key), |next1|), top', |c| + 1)
    ensures inserted ==> top' == Max(top, h)
  {
    ghost var ks, hc := Along(keys, c), HeightsOf(next1, c);
    ghost var i := LowerBound(ks, key);
    var node, prev := Descend(keys, next1, c, key);
    LastBelowZero(hc, i);
    LevelZeroLink(next1, c, (i as int) - 1);
    LowerBoundSplits(ks, key);
    var succ := next1[node][0];
    if succ != Null && !(keys[succ] < key) && !(key < keys[succ]) {
      assert ks[i] == key;
      return false, next1, top, 0;
    }
    h := GetRandomHeight(rolls);
    next, top' := InsertNode(keys, vals, next1, c, top, prev, i, key, value, h);
    inserted := true;
  }

  /** The splice of emplace once the height h is drawn: the node goes into slot |next1| at chain
      position i and the container's height `top` grows to cover it. */
  method InsertNode<V>(keys: seq<int>, vals: seq<V>, next1: seq<seq<int>>, ghost c: seq<nat>, top: nat,
                       prev: seq<int>, ghost i: nat, key: int, value: V, h: nat)
    returns (next: seq<seq<int>>, top': nat)
    requires Shape(keys, vals, next1, c) && top == MaxOf(HeightsOf(next1, c))
    requires i == LowerBound(Along(keys, c), key) && key !in Along(keys, c)
    requires 1 <= h <= MaxLevel && |prev| == MaxLevel
    requires forall l :: 0 <= l < MaxLevel ==> prev[l] == NodeAt(c, LastBelow(HeightsOf(next1, c), i, l))
    ensures |next| == |next1| + 1 && |next[|next1|]| == h
    ensures SlotHeights(next) == SlotHeights(next1) + [h]
    ensures Shape(keys + [key], vals + [value], next, InsertAt(c, i, |next1|))
    ensures top' == MaxOf(HeightsOf(next, InsertAt(c, i, |next1|))) && top' == Max(top, h)
  {
    ghost var hc := HeightsOf(next1, c);
    IncreasingDistinct(keys, c);
    MaxOfBound(next1, c);
    next := LinkNewNode(next1, h, prev, top, c, i);
    InsertedShape(keys, vals, next1, next, c, i, key, value, h);
    MaxOfInsert(hc, i, h);
    top' := Max(top, h);
  }

  /** erase on the arena: findLessThan records the predecessors on every level; an absent key
      stops here; otherwise the node at chain position i, the key's lower bound, is unlinked and
      the container's height `top` drops while its top level is empty. */
  method EraseArena<V>(keys: seq<int>, vals: seq<V>, next0: seq<seq<int>>, ghost c: seq<nat>, top: nat, key: int)
    returns (removed: bool, next: seq<seq<int>>, top': nat)
    requires Shape(keys, vals, next0, c) && top == MaxOf(HeightsOf(next0, c))
    ensures removed <==> key in Along(keys, c)
    ensures removed ==> SlotHeights(next) == SlotHeights(next0)
    ensures removed ==> |next| == |next0| && Live(keys, vals, next, RemoveAt(c, LowerBound(Along(keys, c), key)), top', |c| - 1)
  {
    ghost var ks, hc := Along(keys, c), HeightsOf(next0, c);
    ghost var i := LowerBound(ks, key);
    var node, prev := Descend(keys, next0, c, key);
    LastBelowZero(hc, i);
    LevelZeroLink(next0, c, (i as int) - 1);
    LowerBoundSplits(ks, key);
    var curr := next0[node][0];
    if curr == Null || key < keys[curr] || keys[curr] < key {
      return false, next0, top;
    }
    assert curr == c[i] && ks[i] == key;
    IncreasingDistinct(keys, c);
    MaxOfBound(next0, c);
    next := UnlinkNode(next0, prev, curr, c, i);
    RemovedShape(keys, vals, next0, next, c, i);
    MaxOfRemove(hc, i);
    top' := LowerHeight(next, RemoveAt(c, i), top);
    removed := true;
  }

  /** The level-0 link of chain position p (the head for -1) leads to position p + 1. */
  lemma LevelZeroLink(next: seq<seq<int>>, c: seq<nat>, p: int)
    requires 0 < |next| && |next[Head]| == MaxLevel && InArena(next, c) && AllLinked(next, c)
    requires forall j :: 0 <= j < |c| ==> 1 <= |next[c[j]]|
    requires -1 <= p < |c|
    ensures 0 < |next[NodeAt(c, p)]| && next[NodeAt(c, p)][0] == Target(c, p + 1)
  {
    LevelZeroFirst(HeightsOf(next, c), p + 1);
    LinkAt(next, c, 0, p);
  }

  /** The shrinking loop of erase: from `top` down while the head's top link is null. */
  method LowerHeight(next: seq<seq<int>>, ghost c: seq<nat>, top: nat) returns (t: nat)
    requires 0 < |next| && |next[Head]| == MaxLevel && InArena(next, c) && AllLinked(next, c)
    requires MaxOf(HeightsOf(next, c)) <= top <= MaxLevel
    ensures t == MaxOf(HeightsOf(next, c))
  {
    t := top;
    while t > 0 && next[Head][t - 1] == Null
      invariant MaxOf(HeightsOf(next, c)) <= t <= top
    {
      EmptyTop(next, c, t - 1);
      t := t - 1;
    }
    if t > 0 {
      EmptyTop(next, c, t - 1);
    }
  }

  /** Every height in a shaped arena is at most MaxLevel, and so is the largest. */
  lemma MaxOfBound(next: seq<seq<int>>, c: seq<nat>)
    requires InArena(next, c) && forall j :: 0 <= j < |c| ==> 1 <= |next[c[j]]| <= MaxLevel
    ensures MaxOf(HeightsOf(next, c)) <= MaxLevel
  {
    var hc := HeightsOf(next, c);
    if |hc| > 0 {
      var j :| 0 <= j < |hc| && hc[j] == MaxOf(hc);
    }
  }

  /** The invariant after the arena grew by one slot: the old levels are still linked. */
  lemma AppendKeepsLinks(next: seq<seq<int>>, s: seq<int>, c: seq<nat>)
    requires 0 < |next| && InArena(next, c) && AllLinked(next, c)
    ensures InArena(next + [s], c) && AllLinked(next + [s], c)
  {
    forall l | 0 <= l < MaxLevel ensures LevelLinked(next + [s], c, l) {
      LevelExtend(next, s, c, l);
    }
  }

  /** The arena after emplace spliced node n = |next1| (height h) in at chain position i. */
  lemma InsertedShape<V>(keys: seq<int>, vals: seq<V>, next1: seq<seq<int>>, next: seq<seq<int>>,
                         c: seq<nat>, i: nat, key: int, value: V, h: nat)
    requires Shape(keys, vals, next1, c) && i == LowerBound(Along(keys, c), key) && key !in Along(keys, c)
    requires 1 <= h <= MaxLevel
    requires SlotHeights(next) == SlotHeights(next1) + [h]
    requires InArena(next, InsertAt(c, i, |next1|)) && AllLinked(next, InsertAt(c, i, |next1|))
    ensures Shape(keys + [key], vals + [value], next, InsertAt(c, i, |next1|))
    ensures HeightsOf(next, InsertAt(c, i, |next1|)) == InsertAt(HeightsOf(next1, c), i, h)
  {
    var c2 := InsertAt(c, i, |next1|);
    AlongAppendInsert(SlotHeights(next1), h, c, i);
    InsertedKeys(keys, c, key);
    forall j | 0 <= j < |c2| ensures 1 <= |next[c2[j]]| <= MaxLevel {
      if j < i { assert c2[j] == c[j]; } else if j > i { assert c2[j] == c[j - 1]; }
    }
  }

  /** The new key enters the key sequence at its lower bound, which keeps it increasing. */
  lemma InsertedKeys(keys: seq<int>, c: seq<nat>, key: int)
    requires forall j :: 0 <= j < |c| ==> c[j] < |keys|
    requires Increasing(Along(keys, c)) && key !in Along(keys, c)
    ensures Along(keys + [key], InsertAt(c, LowerBound(Along(keys, c), key), |keys|))
              == InsertAt(Along(keys, c), LowerBound(Along(keys, c), key), key)
    ensures Increasing(Along(keys + [key], InsertAt(c, LowerBound(Along(keys, c), key), |keys|)))
  {
    AlongAppendInsert(keys, key, c, LowerBound(Along(keys, c), key));
    InsertKeepsIncreasing(Along(keys, c), key);
  }

  /** The map after emplace: the old one with key bound to value. */
  lemma InsertedContents<V>(keys: seq<int>, vals: seq<V>, c: seq<nat>, key: int, value: V)
    requires |keys| == |vals| && forall j :: 0 <= j < |c| ==> c[j] < |keys|
    requires Increasing(Along(keys, c)) && key !in Along(keys, c)
    ensures Increasing(Along(keys + [key], InsertAt(c, LowerBound(Along(keys, c), key), |keys|)))
    ensures ContentsOf(keys + [key], vals + [value], InsertAt(c, LowerBound(Along(keys, c), key), |keys|))
              == ContentsOf(keys, vals, c)[key := value]
  {
    var i := LowerBound(Along(keys, c), key);
    InsertedKeys(keys, c, key);
    AlongAppendInsert(vals, value, c, i);
    MapOfInsert(Along(keys, c), Along(vals, c), i, key, value);
  }

  /** Assigning v to the value of chain position j keeps the container live and rebinds that
      position's key to v. */
  lemma ValueUpdated<V>(keys: seq<int>, vals: seq<V>, next: seq<seq<int>>, c: seq<nat>, height: nat, size: nat,
                        j: nat, v: V)
    requires Live(keys, vals, next, c, height, size) && j < |c|
    ensures Live(keys, vals[c[j] := v], next, c, height, size)
    ensures ContentsOf(keys, vals[c[j] := v], c) == ContentsOf(keys, vals, c)[keys[c[j]] := v]
  {
    IncreasingDistinct(keys, c);
    forall j' | 0 <= j' < |c| && j' != j ensures c[j'] != c[j] {
      DistinctAt(c, j, j');
    }
    AlongUpdate(vals, c, j, v);
    MapOfUpdate(Along(keys, c), Along(vals, c), j, v);
  }

  /** The arena after erase unlinked chain position i. */
  lemma RemovedShape<V>(keys: seq<int>, vals: seq<V>, next0: seq<seq<int>>, next: seq<seq<int>>, c: seq<nat>, i: nat)
    requires Shape(keys, vals, next0, c) && i < |c|
    requires SlotHeights(next) == SlotHeights(next0)
    requires InArena(next, RemoveAt(c, i)) && AllLinked(next, RemoveAt(c, i))
    ensures Shape(keys, vals, next, RemoveAt(c, i))
    ensures HeightsOf(next, RemoveAt(c, i)) == RemoveAt(HeightsOf(next0, c), i)
  {
    AlongRemove(SlotHeights(next), c, i);
    AlongRemove(keys, c, i);
    RemoveKeepsIncreasing(Along(keys, c), i);
  }

  /** The map after erase: the old one without the key at chain position i. */
  lemma RemovedContents<V>(keys: seq<int>, vals: seq<V>, c: seq<nat>, i: nat)
    requires |keys| == |vals| && (forall j :: 0 <= j < |c| ==> c[j] < |keys|) && i < |c|
    requires Increasing(Along(keys, c))
    ensures Increasing(Along(keys, RemoveAt(c, i)))
    ensures ContentsOf(keys, vals, RemoveAt(c, i)) == ContentsOf(keys, vals, c) - {Along(keys, c)[i]}
  {
    AlongRemove(keys, c, i);
    AlongRemove(vals, c, i);
    MapOfRemove(Along(keys, c), Along(vals, c), i);
  }
}
