/** `croc::Hash<K, V, Hasher, Node>` (src/croc/base/hash.hpp:71-399): a hash
    table whose nodes live in one array, with collision chains linked through
    the array itself. */
module HashTable {
  import opened Bits
  import opened HashNodes
  import opened HashChains
  import opened HashSteps
  import opened HashRemoval
  import opened HashIteration
  import opened HashWalk

  datatype Option<T> = None | Some(value: T)

  /** The slot `remove` reads first, as written: `hash & mHashMask`, with no
      test for a table without an array (`lookupNode` has that test). */
  function RemoveFirstSlotAsWritten(h: uint32, mask: nat): (r: nat)
    ensures r <= mask
  {
    BitAnd(h as nat, mask)
  }

  /** On a table with no array, the state the constructor and `clear` leave,
      that first slot is slot 0 of an array of length 0: `remove` reads past
      the end for every key. */
  lemma RemoveOnEmptyReadsPastEnd<K, V>(s: seq<Node<K, V>>, mask: nat, hasher: K -> uint32, cachesHash: bool,
                                       chains: seq<seq<nat>>, slotOf: map<K, nat>, cursor: nat, size: nat, key: K)
    requires Inv(s, mask, hasher, cachesHash, chains, slotOf, cursor, size) && |s| == 0
    ensures RemoveFirstSlotAsWritten(hasher(key), mask) == 0 && !(RemoveFirstSlotAsWritten(hasher(key), mask) < |s|)
  {
  }

  /** The table. `hasher` is the template's `Hasher::toHash`, and `cachesHash`
      says whether the node shape is `HashNodeWithHash`. The free-slot cursor
      `mColBucket` is an index, and the array length stands for NULL. */
  class Hash<K(==, 0), V(0)> {
    const hasher: K -> uint32
    const cachesHash: bool
    var nodes: array<Node<K, V>>
    var hashMask: uint32
    var colBucket: nat
    var size: nat
    /** The chain of each home slot, in link order. */
    ghost var chains: seq<seq<nat>>
    /** The slot of each present key. */
    ghost var slotOf: map<K, nat>

    ghost predicate Valid()
      reads this, nodes
    {
      Inv(nodes[..], hashMask as nat, hasher, cachesHash, chains, slotOf, colBucket, size)
    }

    /** The key-to-value map the table represents. */
    ghost function Contents(): map<K, V>
      reads this`nodes, this`slotOf, nodes
    {
      ValuesOf(nodes[..], slotOf)
    }

    /** The flag word of each present key. */
    ghost function FlagWords(): map<K, Flags>
      reads this`nodes, this`slotOf, nodes
    {
      FlagsOf(nodes[..], slotOf)
    }

    /** The zero-initialised table: no array, mask 0, cursor NULL, size 0. */
    constructor (hasher: K -> uint32, cachesHash: bool)
      ensures this.hasher == hasher && this.cachesHash == cachesHash
      ensures Valid() && fresh(nodes) && nodes.Length == 0 && size == 0 && Contents() == map[]
    {
      this.hasher := hasher;
      this.cachesHash := cachesHash;
      nodes := new Node<K, V>[0];
      hashMask := 0;
      colBucket := 0;
      size := 0;
      chains := [];
      slotOf := map[];
      new;
      EmptyInv(nodes[..], hasher, cachesHash);
    }

    /** `DArray::alloc`: a fresh array of unused nodes. */
    static method AllocNodes(n: nat) returns (a: array<Node<K, V>>)
      ensures fresh(a) && a.Length == n && forall i :: 0 <= i < n ==> !a[i].flags.used
    {
      a := new Node<K, V>[n];
      forall i | 0 <= i < n {
        a[i] := a[i].(flags := Flags(false, false, false));
      }
    }

    /** `length`: the number of entries. */
    method Length() returns (r: nat)
      requires Valid()
      ensures r == |Contents()|
    {
      EntriesKeys(nodes[..], slotOf);
      r := size;
    }

    /** `capacity`: the number of slots, which is 0 or a power of two of at
        least 4, and never below the number of entries. */
    method Capacity() returns (r: nat)
      requires Valid()
      ensures r == nodes.Length
      ensures r == 0 || (r >= 4 && IsPow2(r))
      ensures r >= |Contents()|
    {
      EntriesKeys(nodes[..], slotOf);
      r := nodes.Length;
    }

    /** `getColBucket`: advance the cursor to the first unused slot at or after
        it. It reaches the end (NULL) exactly when every slot is used. */
    method GetColBucket() returns (r: nat)
      requires Valid()
      modifies this`colBucket
      ensures Valid() && r == colBucket && old(colBucket) <= r <= nodes.Length
      ensures r < nodes.Length ==> !nodes[r].flags.used
      ensures r == nodes.Length <==> size == nodes.Length
    {
      ghost var s := nodes[..];
      r := ScanFree(nodes, colBucket);
      if r < nodes.Length {
        UnusedBelowCapacity(s, r);
      } else {
        UsedCountFull(s);
      }
      InvWithCursor(s, hashMask as nat, hasher, cachesHash, chains, slotOf, colBucket, r, size);
      colBucket := r;
    }

    /** The loop of `getColBucket`: from a cursor with only used slots below
        it, the first unused slot at or after it, or the end. */
    static method ScanFree(nodes: array<Node<K, V>>, start: nat) returns (r: nat)
      requires CursorOk(nodes[..], start)
      ensures start <= r <= nodes.Length && CursorOk(nodes[..], r)
      ensures r < nodes.Length ==> !nodes[r].flags.used
    {
      r := start;
      while r < nodes.Length && nodes[r].flags.used
        invariant start <= r <= nodes.Length && CursorOk(nodes[..], r)
        decreases nodes.Length - r
      {
        r := r + 1;
      }
    }

    /** `lookupNode(key, hash)`: walk the chain through the slot `hash` names.
        A slot is returned only if it holds `key`; with the key's own hash, a
        slot is returned exactly when the key is present, and it is the key's
        slot. The empty table has nothing to walk. */
    method LookupNode(key: K, h: uint32) returns (r: Option<nat>)
      requires Valid()
      ensures r.Some? ==> r.value < nodes.Length && nodes[r.value].flags.used && nodes[r.value].key == key
      ensures h == hasher(key) ==> (r.Some? <==> key in slotOf) && (r.Some? ==> r.value == slotOf[key])
      ensures nodes.Length == 0 ==> r == None
    {
      if nodes.Length == 0 {
        return None;
      }
      r := WalkChain(nodes, hashMask, hasher, cachesHash, chains, slotOf, colBucket, size, key, h);
    }

    /** The loop of `lookupNode` over a non-empty node array. */
    static method WalkChain(nodes: array<Node<K, V>>, hashMask: uint32, hasher: K -> uint32, cachesHash: bool,
                            ghost chains: seq<seq<nat>>, ghost slotOf: map<K, nat>, ghost cursor: nat, ghost size: nat,
                            key: K, h: uint32) returns (r: Option<nat>)
      requires Inv(nodes[..], hashMask as nat, hasher, cachesHash, chains, slotOf, cursor, size) && nodes.Length > 0
      ensures r.Some? ==> r.value < nodes.Length && nodes[r.value].flags.used && nodes[r.value].key == key
      ensures h == hasher(key) ==> (r.Some? <==> key in slotOf) && (r.Some? ==> r.value == slotOf[key])
    {
      ghost var s, mask := nodes[..], hashMask as nat;
      var i := BitAnd(h as nat, hashMask as nat);
      ghost var g, c, t := WalkStart(s, mask, hasher, cachesHash, chains, slotOf, cursor, size, key, h);
      while nodes[i].flags.used
        invariant WalkState(s, mask, hasher, chains, slotOf, key, h, i, g, c, t, t)
        decreases |c| - t
      {
        if Equals(nodes[i], key, h, cachesHash) {
          WalkFound(s, mask, hasher, cachesHash, chains, slotOf, cursor, size, key, h, i);
          return Some(i);
        }
        WalkNext(s, mask, hasher, cachesHash, chains, slotOf, cursor, size, key, h, i, g, c, t);
        if nodes[i].next == nodes.Length {
          break;
        }
        i := nodes[i].next;
        t := t + 1;
      }
      return None;
    }

    /** The first case of `insertNode`: the key's home slot is free and the
        new node goes there, alone on its chain. */
    static method PlaceAtHome(nodes: array<Node<K, V>>, hashMask: uint32, hasher: K -> uint32, cachesHash: bool,
                              ghost chains: seq<seq<nat>>, ghost slotOf: map<K, nat>, ghost cursor: nat, ghost size: nat,
                              key: K, h: uint32, mp: nat) returns (r: nat, ghost chains': seq<seq<nat>>, ghost slotOf': map<K, nat>)
      requires Inv(nodes[..], hashMask as nat, hasher, cachesHash, chains, slotOf, cursor, size)
      requires key !in slotOf && h == hasher(key) && nodes.Length > 0
      requires mp == BitAnd(h as nat, hashMask as nat) && mp < nodes.Length && !nodes[mp].flags.used
      modifies nodes
      ensures Placed(old(nodes[..]), slotOf, nodes[..], hashMask as nat, hasher, cachesHash, chains', slotOf', cursor, size, key, r)
    {
      ghost var s := nodes[..];
      ghost var n := InitHash(s[mp].(next := nodes.Length), h, cachesHash).(key := key, flags := UsedOnly);
      ghost var s' := s[mp := n];
      ghost var alone: seq<nat> := [mp];
      ghost var placed: map<K, nat> := slotOf[key := mp];
      chains', slotOf' := chains[mp := alone], placed;
      InsertAtFreeHome(s, hashMask as nat, hasher, cachesHash, chains, slotOf, cursor, size, key, mp, n, s', chains', slotOf');
      nodes[mp] := nodes[mp].(next := nodes.Length);
      nodes[mp] := InitHash(nodes[mp], h, cachesHash).(key := key, flags := UsedOnly);
      r := mp;
      assert nodes[..] == s';
    }

    /** The second case: the home slot holds the head of its own chain; the
        new node goes to the free slot `cb`, linked in right after the head. */
    static method PlaceAfterHead(nodes: array<Node<K, V>>, hashMask: uint32, hasher: K -> uint32, cachesHash: bool,
                                 ghost chains: seq<seq<nat>>, ghost slotOf: map<K, nat>, ghost cursor: nat, ghost size: nat,
                                 key: K, h: uint32, mp: nat, cb: nat) returns (r: nat, ghost chains': seq<seq<nat>>, ghost slotOf': map<K, nat>)
      requires Inv(nodes[..], hashMask as nat, hasher, cachesHash, chains, slotOf, cursor, size)
      requires key !in slotOf && h == hasher(key)
      requires mp == BitAnd(h as nat, hashMask as nat) && mp < nodes.Length && nodes[mp].flags.used
      requires BitAnd(hasher(nodes[mp].key) as nat, hashMask as nat) == mp
      requires cb < nodes.Length && !nodes[cb].flags.used
      modifies nodes
      ensures Placed(old(nodes[..]), slotOf, nodes[..], hashMask as nat, hasher, cachesHash, chains', slotOf', cursor, size, key, r)
    {
      ghost var s := nodes[..];
      ghost var n := InitHash(s[cb].(next := s[mp].next), h, cachesHash).(key := key, flags := UsedOnly);
      ghost var s' := s[mp := s[mp].(next := cb)][cb := n];
      ghost var c': seq<nat> := [mp, cb] + chains[mp][1..];
      ghost var placed: map<K, nat> := slotOf[key := cb];
      chains', slotOf' := chains[mp := c'], placed;
      InsertAfterHead(s, hashMask as nat, hasher, cachesHash, chains, slotOf, cursor, size, key, mp, cb, n, s', chains', slotOf');
      var head := nodes[mp];
      nodes[mp] := head.(next := cb);
      nodes[cb] := InitHash(nodes[cb].(next := head.next), h, cachesHash).(key := key, flags := UsedOnly);
      r := cb;
      assert nodes[..] == s';
    }

    /** The walk of the third case: from the head of the chain the node at `mp`
        belongs to, follow the links up to the node whose `next` is `mp`. */
    static method FindPredecessor(nodes: array<Node<K, V>>, hashMask: uint32, hasher: K -> uint32, cachesHash: bool,
                                  ghost chains: seq<seq<nat>>, ghost slotOf: map<K, nat>, ghost cursor: nat, ghost size: nat,
                                  mp: nat) returns (o: nat, ghost q: nat)
      requires Inv(nodes[..], hashMask as nat, hasher, cachesHash, chains, slotOf, cursor, size)
      requires mp < nodes.Length && nodes[mp].flags.used
      requires BitAnd(hasher(nodes[mp].key) as nat, hashMask as nat) != mp
      ensures var g := BitAnd(hasher(nodes[mp].key) as nat, hashMask as nat);
        && g < |chains| && 0 < q < |chains[g]| && chains[g][q] == mp && o == chains[g][q - 1]
        && o < nodes.Length && nodes[o].flags.used && nodes[o].next == mp
    {
      ghost var s, mask := nodes[..], hashMask as nat;
      o := BitAnd(hasher(nodes[mp].key) as nat, hashMask as nat);
      ghost var g := o;
      q := PredecessorWalkEnds(s, mask, hasher, cachesHash, chains, slotOf, cursor, size, mp, g);
      ChainMembersInRange(s, hasher, mask, chains, slotOf);
      ghost var t := 0;
      while nodes[o].next != mp
        invariant 0 <= t < q && o == chains[g][t]
        decreases q - t
      {
        assert t != q - 1;
        o := nodes[o].next;
        t := t + 1;
      }
      assert t == q - 1;
    }

    /** The third case: the home slot holds a node of another chain. That
        node moves to the free slot `cb`, its predecessor is found by walking
        its chain from the chain's head and relinked to `cb`, and the new node
        takes the home slot, alone on its chain. */
    static method PlaceDisplacing(nodes: array<Node<K, V>>, hashMask: uint32, hasher: K -> uint32, cachesHash: bool,
                                  ghost chains: seq<seq<nat>>, ghost slotOf: map<K, nat>, ghost cursor: nat, ghost size: nat,
                                  key: K, h: uint32, mp: nat, cb: nat) returns (r: nat, ghost chains': seq<seq<nat>>, ghost slotOf': map<K, nat>)
      requires Inv(nodes[..], hashMask as nat, hasher, cachesHash, chains, slotOf, cursor, size)
      requires key !in slotOf && h == hasher(key)
      requires mp == BitAnd(h as nat, hashMask as nat) && mp < nodes.Length && nodes[mp].flags.used
      requires BitAnd(hasher(nodes[mp].key) as nat, hashMask as nat) != mp
      requires cb < nodes.Length && !nodes[cb].flags.used
      modifies nodes
      ensures Placed(old(nodes[..]), slotOf, nodes[..], hashMask as nat, hasher, cachesHash, chains', slotOf', cursor, size, key, r)
    {
      ghost var s, mask := nodes[..], hashMask as nat;
      ghost var g := BitAnd(hasher(nodes[mp].key) as nat, hashMask as nat);
      var o;
      ghost var q;
      o, q := FindPredecessor(nodes, hashMask, hasher, cachesHash, chains, slotOf, cursor, size, mp);
      ghost var n := InitHash(s[mp].(next := nodes.Length), h, cachesHash).(key := key, flags := UsedOnly);
      InsertDisplacing(s, mask, hasher, cachesHash, chains, slotOf, cursor, size, key, mp, cb, g, q, n);
      chains', slotOf' := InsertDisplacingPlaced(s, mask, hasher, cachesHash, chains, slotOf, cursor, size, key, mp, cb, g, q, o, n);
      var displaced := nodes[mp];
      nodes[o] := nodes[o].(next := cb);
      nodes[cb] := displaced;
      nodes[mp] := InitHash(displaced.(next := nodes.Length), h, cachesHash).(key := key, flags := UsedOnly);
      r := mp;
    }

    /** The placement part of `insertNode` for an absent key, given the free
        slot `cb` the cursor found: it tells the three cases apart by the home
        slot `hash & mHashMask` and by the home of the key found there. */
    static method Place(nodes: array<Node<K, V>>, hashMask: uint32, hasher: K -> uint32, cachesHash: bool,
                        ghost chains: seq<seq<nat>>, ghost slotOf: map<K, nat>, ghost cursor: nat, ghost size: nat,
                        key: K, h: uint32, cb: nat) returns (r: nat, ghost chains': seq<seq<nat>>, ghost slotOf': map<K, nat>)
      requires Inv(nodes[..], hashMask as nat, hasher, cachesHash, chains, slotOf, cursor, size)
      requires key !in slotOf && h == hasher(key)
      requires cb < nodes.Length && !nodes[cb].flags.used
      modifies nodes
      ensures Added(old(nodes[..]), slotOf, nodes[..], hashMask as nat, hasher, cachesHash, chains', slotOf', cursor, size, key, r)
    {
      ghost var s := nodes[..];
      HomeInRange(hasher, nodes.Length, hashMask as nat, key);
      var mp := BitAnd(h as nat, hashMask as nat);
      if nodes[mp].flags.used {
        if BitAnd(hasher(nodes[mp].key) as nat, hashMask as nat) == mp {
          r, chains', slotOf' := PlaceAfterHead(nodes, hashMask, hasher, cachesHash, chains, slotOf, cursor, size, key, h, mp, cb);
        } else {
          r, chains', slotOf' := PlaceDisplacing(nodes, hashMask, hasher, cachesHash, chains, slotOf, cursor, size, key, h, mp, cb);
        }
      } else {
        r, chains', slotOf' := PlaceAtHome(nodes, hashMask, hasher, cachesHash, chains, slotOf, cursor, size, key, h, mp);
      }
      PlacedAdded(s, slotOf, nodes[..], hashMask as nat, hasher, cachesHash, chains', slotOf', cursor, size, key, r);
    }

    /** `insertNode(key)`: the slot holding `key`. A present key's slot is
        returned and nothing changes. An absent key gets a new node with flags
        exactly `NodeFlags_Used`, the size grows by one and every other entry
        keeps its value and flags; the table is rehashed first exactly when no
        slot is free, so a table with a free slot keeps its array. */
    method InsertNode(key: K) returns (r: nat)
      requires Valid()
      modifies this, nodes
      ensures Valid()
      ensures r < nodes.Length && nodes[r].flags.used && nodes[r].key == key && key in slotOf && slotOf[key] == r
      ensures key in Contents()
      ensures key in old(Contents()) ==> unchanged(this) && unchanged(nodes)
      ensures key !in old(Contents()) ==>
        && Contents() == old(Contents())[key := nodes[r].value]
        && FlagWords() == old(FlagWords())[key := UsedOnly]
        && size == old(size) + 1
      ensures old(size) < old(nodes.Length) ==> nodes == old(nodes)
      ensures nodes == old(nodes) || fresh(nodes)
      decreases if size < nodes.Length then 0 else 4, 2
    {
      EntriesKeys(nodes[..], slotOf);
      var h := hasher(key);
      var found := LookupNode(key, h);
      if found.Some? {
        return found.value;
      }
      r := InsertAbsent(key, h);
    }

    /** `insertNode` past a failed lookup: a free slot, then the new node. */
    method InsertAbsent(key: K, h: uint32) returns (r: nat)
      requires Valid() && key !in Contents() && h == hasher(key)
      modifies this, nodes
      ensures Valid()
      ensures r < nodes.Length && nodes[r].flags.used && nodes[r].key == key && key in slotOf && slotOf[key] == r
      ensures Contents() == old(Contents())[key := nodes[r].value]
      ensures FlagWords() == old(FlagWords())[key := UsedOnly]
      ensures size == old(size) + 1
      ensures old(size) < old(nodes.Length) ==> nodes == old(nodes)
      ensures nodes == old(nodes) || fresh(nodes)
      decreases if size < nodes.Length then 0 else 4, 1
    {
      EntriesKeys(nodes[..], slotOf);
      var cb := FreeSlot();
      EntriesKeys(nodes[..], slotOf);
      r := AddAbsent(key, h, cb);
    }

    /** The first half of `insertNode` for an absent key: the cursor's free
        slot, after a rehash when there is none. After the rehash the cursor
        always finds one. */
    method FreeSlot() returns (cb: nat)
      requires Valid()
      modifies this
      ensures Valid() && cb < nodes.Length && !nodes[cb].flags.used
      ensures Contents() == old(Contents()) && FlagWords() == old(FlagWords()) && size == old(size)
      ensures old(size) < old(nodes.Length) ==> nodes == old(nodes)
      ensures old(size) == old(nodes.Length) ==> fresh(nodes)
      decreases if size < nodes.Length then 0 else 3, 0
    {
      cb := GetColBucket();
      if cb == nodes.Length {
        cb := GrowForSlot();
      }
    }

    /** The rehash of `insertNode` when no slot is free, and the cursor's
        free slot in the larger array. */
    method GrowForSlot() returns (cb: nat)
      requires Valid() && size == nodes.Length
      modifies this
      ensures Valid() && fresh(nodes) && cb < nodes.Length && !nodes[cb].flags.used
      ensures Contents() == old(Contents()) && FlagWords() == old(FlagWords()) && size == old(size)
      decreases 2, 1
    {
      Rehash();
      cb := GetColBucket();
    }

    /** The second half of `insertNode` for an absent key: place its node and
        count it. */
    method AddAbsent(key: K, h: uint32, cb: nat) returns (r: nat)
      requires Valid() && key !in slotOf && h == hasher(key)
      requires cb < nodes.Length && !nodes[cb].flags.used
      modifies this, nodes
      ensures Valid() && nodes == old(nodes)
      ensures r < nodes.Length && nodes[r].flags.used && nodes[r].key == key && key in slotOf && slotOf[key] == r
      ensures Contents() == old(Contents())[key := nodes[r].value]
      ensures FlagWords() == old(FlagWords())[key := UsedOnly]
      ensures size == old(size) + 1
    {
      ghost var chains', slotOf';
      var a := nodes;
      r, chains', slotOf' := Place(a, hashMask, hasher, cachesHash, chains, slotOf, colBucket, size, key, h, cb);
      assert nodes == a;
      chains, slotOf, size := chains', slotOf', size + 1;
    }

    /** `rehash`: double the capacity, or make it 4 when it is 0, keeping
        every entry. */
    method Rehash()
      requires Valid()
      modifies this
      ensures Valid() && fresh(nodes)
      ensures nodes.Length == if old(nodes.Length) == 0 then 4 else 2 * old(nodes.Length)
      ensures Contents() == old(Contents()) && FlagWords() == old(FlagWords()) && size == old(size)
      decreases 2, 0
    {
      if nodes.Length != 0 {
        DoublePow2(nodes.Length);
        ResizeArray(nodes.Length * 2);
      } else {
        ResizeArray(4);
      }
    }

    /** `resizeArray(newSize)`: a fresh array of `newSize` unused slots, the
        mask set to `newSize - 1`, the cursor to the first slot and the size to
        0, then every used node of the old array inserted again by its key and
        given back its value, cached hash and whole flag word. Every one of
        these inserts finds a free slot, so none of them rehashes. */
    method ResizeArray(newSize: nat)
      requires Valid() && newSize >= 4 && IsPow2(newSize) && size <= newSize
      modifies this
      ensures Valid() && fresh(nodes) && nodes.Length == newSize
      ensures Contents() == old(Contents()) && FlagWords() == old(FlagWords()) && size == old(size)
      decreases 1, 3
    {
      var oldNodes := nodes;
      ghost var oldS, oldSlot := nodes[..], slotOf;
      EntriesKeys(oldS, oldSlot);
      assert SlotsOk(oldS, oldSlot) && HashesOk(oldS, hasher, cachesHash) && UsedCount(oldS) <= newSize;
      Reset(newSize);
      Refill(oldNodes, oldS, oldSlot);
    }

    /** The loop of `resizeArray`: every used node of the old array, in slot
        order, inserted again into the emptied table. */
    method Refill(oldNodes: array<Node<K, V>>, ghost oldS: seq<Node<K, V>>, ghost oldSlot: map<K, nat>)
      requires oldNodes[..] == oldS && oldNodes != nodes
      requires SlotsOk(oldS, oldSlot) && HashesOk(oldS, hasher, cachesHash) && UsedCount(oldS) <= nodes.Length
      requires Valid() && size == 0 && Contents() == map[] && FlagWords() == map[]
      modifies this, nodes
      ensures nodes == old(nodes) && Valid() && size == UsedCount(oldS)
      ensures Contents() == ValuesOf(oldS, oldSlot) && FlagWords() == FlagsOf(oldS, oldSlot)
      decreases 1, 2
    {
      assert Below(oldSlot, 0) == map[];
      var i := 0;
      while i < oldNodes.Length
        invariant 0 <= i <= oldNodes.Length && nodes == old(nodes)
        invariant Valid() && size == UsedCount(oldS[..i])
        invariant Contents() == ValuesOf(oldS, Below(oldSlot, i)) && FlagWords() == FlagsOf(oldS, Below(oldSlot, i))
        decreases oldNodes.Length - i
      {
        RefillStep(oldNodes, oldS, oldSlot, i);
        i := i + 1;
      }
      BelowAll(oldS, oldSlot);
      assert oldS[..|oldS|] == oldS;
    }

    /** One turn of the loop of `resizeArray`: the old node at `i`, when used,
        is inserted again, so the table holds the old entries below `i + 1`. */
    method RefillStep(oldNodes: array<Node<K, V>>, ghost oldS: seq<Node<K, V>>, ghost oldSlot: map<K, nat>, i: nat)
      requires i < oldNodes.Length && oldNodes[..] == oldS && oldNodes != nodes
      requires SlotsOk(oldS, oldSlot) && HashesOk(oldS, hasher, cachesHash) && UsedCount(oldS) <= nodes.Length
      requires Valid() && size == UsedCount(oldS[..i])
      requires Contents() == ValuesOf(oldS, Below(oldSlot, i)) && FlagWords() == FlagsOf(oldS, Below(oldSlot, i))
      modifies this, nodes
      ensures nodes == old(nodes) && Valid() && size == UsedCount(oldS[..i + 1])
      ensures Contents() == ValuesOf(oldS, Below(oldSlot, i + 1)) && FlagWords() == FlagsOf(oldS, Below(oldSlot, i + 1))
      decreases 1, 1
    {
      UsedCountPrefix(oldS, i);
      BelowStep(oldS, oldSlot, i);
      if oldNodes[i].flags.used {
        UsedCountPrefixLe(oldS, i + 1);
        EntriesAdd(oldS, Below(oldSlot, i), oldS[i].key, i);
        Reinsert(oldNodes[i]);
      }
    }

    /** The start of `resizeArray`: an empty table over `newSize` fresh slots. */
    method Reset(newSize: nat)
      requires newSize >= 4 && IsPow2(newSize)
      modifies this
      ensures Valid() && fresh(nodes) && nodes.Length == newSize
      ensures colBucket == 0 && size == 0 && Contents() == map[] && FlagWords() == map[]
    {
      nodes := AllocNodes(newSize);
      hashMask := MaskFor(newSize) as uint32;
      colBucket := 0;
      size := 0;
      chains := seq(newSize, i => []);
      slotOf := map[];
      EmptyInv(nodes[..], hasher, cachesHash);
    }

    /** One step of `resizeArray` for a used old node: `insertNode` by its key,
        which needs no rehash, then the copy of its payload. */
    method Reinsert(node: Node<K, V>)
      requires Valid() && node.flags.used && node.key !in Contents() && size < nodes.Length
      requires cachesHash ==> node.hash == hasher(node.key)
      modifies this, nodes
      ensures Valid() && nodes == old(nodes) && size == old(size) + 1
      ensures Contents() == old(Contents())[node.key := node.value]
      ensures FlagWords() == old(FlagWords())[node.key := node.flags]
      decreases 1, 0
    {
      ghost var values, flags := Contents(), FlagWords();
      var r := InsertNode(node.key);
      ghost var value := nodes[r].value;
      CopyInto(r, node);
      UpdateTwice(values, node.key, value, node.value);
      UpdateTwice(flags, node.key, UsedOnly, node.flags);
    }

    /** The copy that ends each step of `resizeArray`: `copyFrom` (the value,
        and on the caching shape the hash) and then the whole flag word of
        `src` go into the node at `r`, which holds the same key. */
    method CopyInto(r: nat, src: Node<K, V>)
      requires Valid() && r < nodes.Length && nodes[r].flags.used && nodes[r].key == src.key && src.flags.used
      requires cachesHash ==> src.hash == hasher(src.key)
      modifies nodes
      ensures Valid()
      ensures Contents() == old(Contents())[src.key := src.value]
      ensures FlagWords() == old(FlagWords())[src.key := src.flags]
    {
      ghost var s := nodes[..];
      var n := CopyFrom(nodes[r], src, cachesHash).(flags := src.flags);
      SetPayload(s, hashMask as nat, hasher, cachesHash, chains, slotOf, colBucket, size, r, n);
      nodes[r] := n;
      assert nodes[..] == s[r := n];
    }

    /** `remove(key)`: true exactly when `key` was present. Afterwards the key
        is absent, the size has dropped by one and every other entry keeps its
        value and flags; an absent key changes nothing. */
    method Remove(key: K) returns (r: bool)
      requires Valid()
      modifies this, nodes
      ensures Valid() && nodes == old(nodes)
      ensures r <==> key in old(Contents())
      ensures Contents() == old(Contents()) - {key} && FlagWords() == old(FlagWords()) - {key}
      ensures size == if r then old(size) - 1 else old(size)
      ensures !r ==> unchanged(this) && unchanged(nodes)
    {
      ghost var chains': seq<seq<nat>>, slotOf': map<K, nat>;
      var cursor', size';
      var a := nodes;
      r, cursor', size', chains', slotOf' := RemoveNode(a, hashMask, hasher, cachesHash, chains, slotOf, colBucket, size, key);
      assert nodes == a;
      colBucket, size, chains, slotOf := cursor', size', chains', slotOf';
    }

    /** The body of `remove` over the node array. The empty table has no slot
        to look at (see the findings on its missing guard); otherwise the walk
        starts at the slot the hash names, and the key is removed from the head
        of its chain or unlinked from further down. */
    static method RemoveNode(nodes: array<Node<K, V>>, hashMask: uint32, hasher: K -> uint32, cachesHash: bool,
                             ghost chains: seq<seq<nat>>, ghost slotOf: map<K, nat>, cursor: nat, size: nat, key: K)
      returns (r: bool, cursor': nat, size': nat, ghost chains': seq<seq<nat>>, ghost slotOf': map<K, nat>)
      requires Inv(nodes[..], hashMask as nat, hasher, cachesHash, chains, slotOf, cursor, size)
      modifies nodes
      ensures r <==> key in ValuesOf(old(nodes[..]), slotOf)
      ensures size' == if r then size - 1 else size
      ensures Dropped(old(nodes[..]), slotOf, nodes[..], hashMask as nat, hasher, cachesHash, chains', slotOf', cursor', size', key)
      ensures !r ==> unchanged(nodes) && cursor' == cursor && chains' == chains && slotOf' == slotOf
    {
      EntriesKeys(nodes[..], slotOf);
      var h := hasher(key);
      if nodes.Length == 0 {
        DroppedAbsent(nodes[..], hashMask as nat, hasher, cachesHash, chains, slotOf, cursor, size, key);
        return false, cursor, size, chains, slotOf;
      }
      ghost var s := nodes[..];
      var n := BitAnd(h as nat, hashMask as nat);
      ghost var g, c, t := WalkStart(s, hashMask as nat, hasher, cachesHash, chains, slotOf, cursor, size, key, h);
      if !nodes[n].flags.used {
        DroppedAbsent(s, hashMask as nat, hasher, cachesHash, chains, slotOf, cursor, size, key);
        return false, cursor, size, chains, slotOf;
      }
      if Equals(nodes[n], key, h, cachesHash) {
        WalkFound(s, hashMask as nat, hasher, cachesHash, chains, slotOf, cursor, size, key, h, n);
        if nodes[n].next == nodes.Length {
          cursor', size', chains', slotOf' := RemoveAlone(nodes, hashMask, hasher, cachesHash, chains, slotOf, cursor, size, key, n);
        } else {
          cursor', size', chains', slotOf' := RemovePromoting(nodes, hashMask, hasher, cachesHash, chains, slotOf, cursor, size, key, n);
        }
        return true, cursor', size', chains', slotOf';
      }
      var found, p, g', j := SeekInChain(nodes, hashMask, hasher, cachesHash, chains, slotOf, cursor, size, key, h);
      if !found {
        DroppedAbsent(s, hashMask as nat, hasher, cachesHash, chains, slotOf, cursor, size, key);
        return false, cursor, size, chains, slotOf;
      }
      cursor', size', chains', slotOf' := UnlinkAfter(nodes, hashMask, hasher, cachesHash, chains, slotOf, cursor, size, key, g', j, p);
      r := true;
    }

    /** `markUnused(n)`: clear the used bit of slot `i`, move the cursor back
        to `i` when `i` is below it, and count one entry fewer. */
    static method MarkUnused(nodes: array<Node<K, V>>, i: nat, cursor: nat, size: nat) returns (cursor': nat, size': nat)
      requires i < nodes.Length && size > 0
      modifies nodes
      ensures nodes[..] == old(nodes[..])[i := Cleared(old(nodes[i]))]
      ensures cursor' == CursorAfterFree(cursor, i) && size' == size - 1
    {
      nodes[i] := Cleared(nodes[i]);
      cursor' := if i < cursor then i else cursor;
      size' := size - 1;
    }

    /** The key alone on the chain of its home `n`: free its node. */
    static method RemoveAlone(nodes: array<Node<K, V>>, hashMask: uint32, hasher: K -> uint32, cachesHash: bool,
                              ghost chains: seq<seq<nat>>, ghost slotOf: map<K, nat>, cursor: nat, size: nat,
                              key: K, n: nat)
      returns (cursor': nat, size': nat, ghost chains': seq<seq<nat>>, ghost slotOf': map<K, nat>)
      requires Inv(nodes[..], hashMask as nat, hasher, cachesHash, chains, slotOf, cursor, size)
      requires key in slotOf && slotOf[key] == n && n == Home(hasher, hashMask as nat, key)
      requires n < nodes.Length && nodes[n].next == nodes.Length
      modifies nodes
      ensures size' == size - 1
      ensures Dropped(old(nodes[..]), slotOf, nodes[..], hashMask as nat, hasher, cachesHash, chains', slotOf', cursor', size', key)
    {
      ghost var s := nodes[..];
      RemoveOnly(s, hashMask as nat, hasher, cachesHash, chains, slotOf, cursor, size, key, n);
      cursor', size' := MarkUnused(nodes, n, cursor, size);
      chains', slotOf' := chains[n := []], slotOf - {key};
      assert slotOf'.Keys == slotOf.Keys - {key};
      SameEntriesShrink(s, slotOf, nodes[..], slotOf', key);
    }

    /** The key at its home `n` with more members on the chain: the second
        member's node is copied over the head, and its own slot freed. */
    static method RemovePromoting(nodes: array<Node<K, V>>, hashMask: uint32, hasher: K -> uint32, cachesHash: bool,
                                  ghost chains: seq<seq<nat>>, ghost slotOf: map<K, nat>, cursor: nat, size: nat,
                                  key: K, n: nat)
      returns (cursor': nat, size': nat, ghost chains': seq<seq<nat>>, ghost slotOf': map<K, nat>)
      requires Inv(nodes[..], hashMask as nat, hasher, cachesHash, chains, slotOf, cursor, size)
      requires key in slotOf && slotOf[key] == n && n == Home(hasher, hashMask as nat, key)
      requires n < nodes.Length && nodes[n].next != nodes.Length
      modifies nodes
      ensures size' == size - 1
      ensures Dropped(old(nodes[..]), slotOf, nodes[..], hashMask as nat, hasher, cachesHash, chains', slotOf', cursor', size', key)
    {
      ghost var s := nodes[..];
      RemovePromote(s, hashMask as nat, hasher, cachesHash, chains, slotOf, cursor, size, key, n);
      var x := nodes[n].next;
      assert s[x].key in slotOf && s[x].key != key;
      nodes[n] := nodes[x];
      cursor', size' := MarkUnused(nodes, x, cursor, size);
      chains', slotOf' := chains[n := chains[n][1..][0 := n]], (slotOf - {key})[s[x].key := n];
      assert slotOf'.Keys == slotOf.Keys - {key};
      SameEntriesShrink(s, slotOf, nodes[..], slotOf', key);
    }

    /** The key after slot `p` on its chain: free its node and link `p` past it. */
    static method UnlinkAfter(nodes: array<Node<K, V>>, hashMask: uint32, hasher: K -> uint32, cachesHash: bool,
                              ghost chains: seq<seq<nat>>, ghost slotOf: map<K, nat>, cursor: nat, size: nat,
                              key: K, ghost g: nat, ghost j: nat, p: nat)
      returns (cursor': nat, size': nat, ghost chains': seq<seq<nat>>, ghost slotOf': map<K, nat>)
      requires Inv(nodes[..], hashMask as nat, hasher, cachesHash, chains, slotOf, cursor, size)
      requires key in slotOf && g == Home(hasher, hashMask as nat, key) && g < nodes.Length
      requires j + 1 < |chains[g]| && chains[g][j] == p && chains[g][j + 1] == slotOf[key]
      requires p < nodes.Length && nodes[p].next == slotOf[key]
      modifies nodes
      ensures size' == size - 1
      ensures Dropped(old(nodes[..]), slotOf, nodes[..], hashMask as nat, hasher, cachesHash, chains', slotOf', cursor', size', key)
    {
      ghost var s := nodes[..];
      RemoveUnlink(s, hashMask as nat, hasher, cachesHash, chains, slotOf, cursor, size, key, g, j);
      var x := nodes[p].next;
      cursor', size' := MarkUnused(nodes, x, cursor, size);
      nodes[p] := nodes[p].(next := nodes[x].next);
      chains', slotOf' := chains[g := RemoveAt(chains[g], j + 1)], slotOf - {key};
      assert slotOf'.Keys == slotOf.Keys - {key};
      SameEntriesShrink(s, slotOf, nodes[..], slotOf', key);
    }

    /** The loop of `remove` past a head that does not hold the key: follow
        the links while the next slot is used. The key is found exactly when
        it is present, and then `p` is the member before it. */
    static method SeekInChain(nodes: array<Node<K, V>>, hashMask: uint32, hasher: K -> uint32, cachesHash: bool,
                              ghost chains: seq<seq<nat>>, ghost slotOf: map<K, nat>, ghost cursor: nat, ghost size: nat,
                              key: K, h: uint32) returns (found: bool, p: nat, ghost g: nat, ghost j: nat)
      requires Inv(nodes[..], hashMask as nat, hasher, cachesHash, chains, slotOf, cursor, size) && nodes.Length > 0
      requires h == hasher(key) && BitAnd(h as nat, hashMask as nat) < nodes.Length
      requires Used(nodes[..], BitAnd(h as nat, hashMask as nat))
      requires !Equals(nodes[BitAnd(h as nat, hashMask as nat)], key, h, cachesHash)
      ensures found <==> key in slotOf
      ensures found ==>
        && g == Home(hasher, hashMask as nat, key) && g < nodes.Length && j + 1 < |chains[g]|
        && chains[g][j] == p && chains[g][j + 1] == slotOf[key] && p < nodes.Length && nodes[p].next == slotOf[key]
    {
      ghost var s, mask := nodes[..], hashMask as nat;
      var i := BitAnd(h as nat, hashMask as nat);
      ghost var c, t;
      g, c, t := SeekStart(s, mask, hasher, cachesHash, chains, slotOf, cursor, size, key, h);
      while nodes[i].next != nodes.Length && nodes[nodes[i].next].flags.used
        invariant Seeking(s, mask, hasher, chains, slotOf, key, i, g, c, t)
        decreases |c| - t
      {
        var next := nodes[i].next;
        if Equals(nodes[next], key, h, cachesHash) {
          SeekFound(s, mask, hasher, cachesHash, chains, slotOf, cursor, size, key, h, i, next, g, c, t);
          return true, i, g, t;
        }
        ghost var t' := t + 1;
        SeekMissed(s, mask, hasher, cachesHash, chains, slotOf, cursor, size, key, h, i, next, g, c, t, t');
        i, t := next, t';
      }
      SeekEnd(s, mask, hasher, chains, slotOf, key, i, g, c, t);
      return false, 0, 0, 0;
    }

    /** `lookup(key)`: the value stored under `key`, if any. */
    method Lookup(key: K) returns (r: Option<V>)
      requires Valid()
      ensures r == if key in Contents() then Some(Contents()[key]) else None
    {
      var n := LookupNode(key, hasher(key));
      if n.Some? {
        r := Some(nodes[n.value].value);
      } else {
        r := None;
      }
    }

    /** `lookup(key, hash)`: the same with a hash the caller computed. */
    method LookupWithHash(key: K, h: uint32) returns (r: Option<V>)
      requires Valid()
      ensures r.Some? ==> key in Contents() && r.value == Contents()[key]
      ensures h == hasher(key) ==> r == if key in Contents() then Some(Contents()[key]) else None
    {
      var n := LookupNode(key, h);
      if n.Some? {
        r := Some(nodes[n.value].value);
      } else {
        r := None;
      }
    }

    /** A write through the value pointer `insert` hands back: the value of
        the node at `r` changes; its key, link and flags do not. */
    method SetValue(r: nat, v: V)
      requires Valid() && r < nodes.Length && nodes[r].flags.used
      modifies nodes
      ensures Valid() && nodes[r].key == old(nodes[r].key)
      ensures Contents() == old(Contents())[nodes[r].key := v]
      ensures FlagWords() == old(FlagWords())
    {
      ghost var s := nodes[..];
      var n := nodes[r].(value := v);
      SetPayload(s, hashMask as nat, hasher, cachesHash, chains, slotOf, colBucket, size, r, n);
      nodes[r] := n;
      assert nodes[..] == s[r := n];
      EntriesKeys(s, slotOf);
      UpdateSame(FlagsOf(s, slotOf), s[r].key, n.flags);
    }

    /** `prealloc(n)`: nothing when the table already has `n` slots; else a
        resize to `largerPow2(n)`, but to no fewer than 4 slots. */
    method Prealloc(n: nat)
      requires Valid()
      modifies this
      ensures Valid() && nodes.Length >= n
      ensures Contents() == old(Contents()) && FlagWords() == old(FlagWords()) && size == old(size)
      ensures n <= old(nodes.Length) ==> unchanged(this)
      ensures n > old(nodes.Length) ==> fresh(nodes) && nodes.Length == AtLeastFour(LargerPow2(n))
    {
      if n <= nodes.Length {
        return;
      }
      var newSize := LargerPow2(n);
      ResizeArray(AtLeastFour(newSize));
    }

    /** `minimize`: an empty table is cleared; any other is resized to
        `largerPow2(size)` slots, but to no fewer than 4. */
    method Minimize()
      requires Valid()
      modifies this
      ensures Valid() && size == old(size)
      ensures Contents() == old(Contents()) && FlagWords() == old(FlagWords())
      ensures old(size) == 0 ==> nodes.Length == 0
      ensures old(size) > 0 ==> fresh(nodes) && nodes.Length == AtLeastFour(LargerPow2(old(size)))
    {
      if size == 0 {
        EntriesKeys(nodes[..], slotOf);
        Clear();
      } else {
        var newSize := LargerPow2(size);
        ResizeArray(AtLeastFour(newSize));
      }
    }

    /** `clear`: the array is given up; mask, cursor and size go back to 0. */
    method Clear()
      modifies this
      ensures Valid() && fresh(nodes) && nodes.Length == 0
      ensures hashMask == 0 && colBucket == 0 && size == 0
      ensures Contents() == map[] && FlagWords() == map[]
    {
      nodes := new Node<K, V>[0];
      hashMask := 0;
      colBucket := 0;
      size := 0;
      chains := [];
      slotOf := map[];
      EmptyInv(nodes[..], hasher, cachesHash);
    }

    /** `dupInto(other)`: the nodes are copied into `other`'s array, which
        has the same length, and the mask, cursor and size alongside, so
        `other` represents the same entries. */
    method DupInto(other: Hash<K, V>)
      requires Valid() && other != this && other.nodes != nodes && other.nodes.Length == nodes.Length
      requires other.hasher == hasher && other.cachesHash == cachesHash
      modifies other, other.nodes
      ensures Valid() && other.Valid() && other.nodes == old(other.nodes) && other.nodes[..] == nodes[..]
      ensures other.hashMask == hashMask && other.colBucket == colBucket && other.size == size
      ensures other.Contents() == Contents() && other.FlagWords() == FlagWords()
    {
      var a := other.nodes;
      CopyNodes(nodes, a);
      other.hashMask, other.colBucket, other.size := hashMask, colBucket, size;
      other.chains, other.slotOf := chains, slotOf;
    }

    /** `dupInto(other, otherNodes)`: the same, into the array `otherNodes`,
        which then becomes `other`'s. */
    method DupIntoNodes(other: Hash<K, V>, otherNodes: array<Node<K, V>>)
      requires Valid() && other != this && otherNodes != nodes && otherNodes.Length == nodes.Length
      requires other.hasher == hasher && other.cachesHash == cachesHash
      modifies other, otherNodes
      ensures Valid() && other.Valid() && other.nodes == otherNodes && other.nodes[..] == nodes[..]
      ensures other.hashMask == hashMask && other.colBucket == colBucket && other.size == size
      ensures other.Contents() == Contents() && other.FlagWords() == FlagWords()
    {
      CopyNodes(nodes, otherNodes);
      other.nodes := otherNodes;
      other.hashMask, other.colBucket, other.size := hashMask, colBucket, size;
      other.chains, other.slotOf := chains, slotOf;
    }

    /** `DArray::slicea`: every element of `src` into `dst`, of equal length. */
    static method CopyNodes(src: array<Node<K, V>>, dst: array<Node<K, V>>)
      requires src != dst && src.Length == dst.Length
      modifies dst
      ensures dst[..] == src[..]
    {
      forall i | 0 <= i < dst.Length {
        dst[i] := src[i];
      }
    }

    /** The loop of `next`, `nextNode` and `nextModified`: from `idx`, the
        first slot that is used (or, for `nextModified`, has a modified bit),
        or the end. */
    static method Scan(nodes: array<Node<K, V>>, idx: nat, modifiedOnly: bool) returns (r: nat)
      ensures r == FirstFrom(nodes[..], idx, modifiedOnly)
    {
      r := idx;
      while r < nodes.Length && !Selected(nodes[r], modifiedOnly)
        invariant idx <= r && FirstFrom(nodes[..], r, modifiedOnly) == FirstFrom(nodes[..], idx, modifiedOnly)
        decreases nodes.Length - r
      {
        r := r + 1;
      }
    }

    /** `next(idx, key, val)`: the entry in the first used slot at or after
        `idx`, with `idx` moved one past that slot; none, with `idx` moved to
        the end, once no used slot is left. */
    method Next(idx: nat) returns (r: Option<(K, V)>, idx': nat)
      requires Valid()
      ensures r.Some? <==> FirstFrom(nodes[..], idx, false) < nodes.Length
      ensures r.Some? ==> idx' == FirstFrom(nodes[..], idx, false) + 1 && Used(nodes[..], idx' - 1)
      ensures r.Some? ==> r.value == (nodes[idx' - 1].key, nodes[idx' - 1].value)
      ensures r.Some? ==> r.value.0 in Contents() && Contents()[r.value.0] == r.value.1
      ensures r.None? ==> idx' == FirstFrom(nodes[..], idx, false) && idx' >= nodes.Length
    {
      var i := Scan(nodes, idx, false);
      if i < nodes.Length {
        r, idx' := Some((nodes[i].key, nodes[i].value)), i + 1;
      } else {
        r, idx' := None, i;
      }
    }

    /** `nextNode(idx, n)`: the same, handing back the slot itself. */
    method NextNode(idx: nat) returns (found: bool, idx': nat, n: nat)
      ensures found <==> FirstFrom(nodes[..], idx, false) < nodes.Length
      ensures found ==> n == FirstFrom(nodes[..], idx, false) && idx' == n + 1 && nodes[n].flags.used
      ensures !found ==> idx' == FirstFrom(nodes[..], idx, false) && idx' >= nodes.Length
    {
      var i := Scan(nodes, idx, false);
      if i < nodes.Length {
        found, idx', n := true, i + 1, i;
      } else {
        found, idx', n := false, i, 0;
      }
    }

    /** `nextModified(idx, n)`: the same for the first slot with a modified
        bit set. */
    method NextModified(idx: nat) returns (found: bool, idx': nat, n: nat)
      ensures found <==> FirstFrom(nodes[..], idx, true) < nodes.Length
      ensures found ==> n == FirstFrom(nodes[..], idx, true) && idx' == n + 1 && IsModified(nodes[n].flags)
      ensures !found ==> idx' == FirstFrom(nodes[..], idx, true) && idx' >= nodes.Length
    {
      var i := Scan(nodes, idx, true);
      if i < nodes.Length {
        found, idx', n := true, i + 1, i;
      } else {
        found, idx', n := false, i, 0;
      }
    }
  }
}
