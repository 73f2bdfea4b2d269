/** The effect of each restructuring step of `insertNode` and `remove` on the
    layout invariant (src/croc/base/hash.hpp:136-216, 347-357). Each lemma
    takes the node array before the step as a sequence, describes the array
    after it, and gives the new ghost layout under which the invariant holds
    again and every other entry keeps its value and flags. */
module HashSteps {
  import opened Bits
  import opened HashNodes
  import opened HashChains

  /** `s'` agrees with `s` on every member of chain `c`. */
  ghost predicate AgreeOn<K, V>(s: seq<Node<K, V>>, s': seq<Node<K, V>>, c: seq<nat>)
  {
    |s'| == |s| && forall j :: 0 <= j < |c| && c[j] < |s| ==> s'[c[j]] == s[c[j]]
  }

  /** A chain none of whose nodes changed is still a chain. */
  lemma ChainFrame<K, V>(s: seq<Node<K, V>>, s': seq<Node<K, V>>, hasher: K -> uint32, mask: nat, c: seq<nat>, h: nat)
    requires ChainOk(s, hasher, mask, c, h) && AgreeOn(s, s', c)
    ensures ChainOk(s', hasher, mask, c, h)
  {
    forall j | 0 <= j < |c|
      ensures Used(s', c[j]) && Home(hasher, mask, s'[c[j]].key) == h && s'[c[j]].next == Succ(c, j, |s'|)
    {
      assert Used(s, c[j]);
    }
  }

  /** What inserting an absent `key` into the layout `s` leaves behind: the
      new layout `s'` keeps the invariant with one more entry, the key sits
      at `r` with a fresh flag word, and every other entry is kept. */
  ghost predicate Placed<K, V>(s: seq<Node<K, V>>, slotOf: map<K, nat>, s': seq<Node<K, V>>, mask: nat,
                               hasher: K -> uint32, cachesHash: bool, chains': seq<seq<nat>>, slotOf': map<K, nat>,
                               cursor: nat, size: nat, key: K, r: nat)
  {
    && |s'| == |s|
    && Inv(s', mask, hasher, cachesHash, chains', slotOf', cursor, size + 1)
    && r < |s'| && slotOf'.Keys == slotOf.Keys + {key} && slotOf'[key] == r
    && s'[r].key == key && s'[r].flags == UsedOnly
    && SameEntries(s, slotOf, s', slotOf')
  }

  /** The facts that make up `Placed`, gathered into it. */
  lemma PlacedIntro<K, V>(s: seq<Node<K, V>>, slotOf: map<K, nat>, s': seq<Node<K, V>>, mask: nat,
                          hasher: K -> uint32, cachesHash: bool, chains': seq<seq<nat>>, slotOf': map<K, nat>,
                          cursor: nat, size: nat, key: K, r: nat)
    requires |s'| == |s| && r < |s'| && slotOf'.Keys == slotOf.Keys + {key} && key in slotOf' && slotOf'[key] == r
    requires s'[r].key == key && s'[r].flags == UsedOnly
    requires Inv(s', mask, hasher, cachesHash, chains', slotOf', cursor, size + 1)
    requires SameEntries(s, slotOf, s', slotOf')
    ensures Placed(s, slotOf, s', mask, hasher, cachesHash, chains', slotOf', cursor, size, key, r)
  {
  }

  /** `Placed`, read off as the two maps the table represents: each gains
      the new key, with the new node's value and a fresh flag word. */
  ghost predicate Added<K, V>(s: seq<Node<K, V>>, slotOf: map<K, nat>, s': seq<Node<K, V>>, mask: nat,
                              hasher: K -> uint32, cachesHash: bool, chains': seq<seq<nat>>, slotOf': map<K, nat>,
                              cursor: nat, size: nat, key: K, r: nat)
  {
    && Inv(s', mask, hasher, cachesHash, chains', slotOf', cursor, size + 1)
    && r < |s'| && key in slotOf' && slotOf'[key] == r && s'[r].key == key && s'[r].flags.used
    && ValuesOf(s', slotOf') == ValuesOf(s, slotOf)[key := s'[r].value]
    && FlagsOf(s', slotOf') == FlagsOf(s, slotOf)[key := UsedOnly]
  }

  /** A placement of an absent key adds exactly its entry. */
  lemma PlacedAdded<K, V>(s: seq<Node<K, V>>, slotOf: map<K, nat>, s': seq<Node<K, V>>, mask: nat,
                          hasher: K -> uint32, cachesHash: bool, chains': seq<seq<nat>>, slotOf': map<K, nat>,
                          cursor: nat, size: nat, key: K, r: nat)
    requires Placed(s, slotOf, s', mask, hasher, cachesHash, chains', slotOf', cursor, size, key, r)
    requires key !in slotOf
    ensures Added(s, slotOf, s', mask, hasher, cachesHash, chains', slotOf', cursor, size, key, r)
  {
    SameEntriesGrow(s, slotOf, s', slotOf', key);
  }

  /** Insertion, first case: the new key's home slot `mp` is free, so the new
      node `n` goes there as a chain of one (hash.hpp:161-167). */
  lemma InsertAtFreeHome<K, V>(s: seq<Node<K, V>>, mask: nat, hasher: K -> uint32, cachesHash: bool,
                               chains: seq<seq<nat>>, slotOf: map<K, nat>, cursor: nat, size: nat,
                               key: K, mp: nat, n: Node<K, V>,
                               s': seq<Node<K, V>>, chains': seq<seq<nat>>, slotOf': map<K, nat>)
    requires Inv(s, mask, hasher, cachesHash, chains, slotOf, cursor, size)
    requires key !in slotOf && mp < |s| && mp == Home(hasher, mask, key) && !Used(s, mp)
    requires n.key == key && n.flags == UsedOnly && n.next == |s| && (cachesHash ==> n.hash == hasher(key))
    requires s' == s[mp := n] && chains' == chains[mp := [mp]] && slotOf' == slotOf[key := mp]
    ensures Placed(s, slotOf, s', mask, hasher, cachesHash, chains', slotOf', cursor, size, key, mp)
  {
    FreeHomeChains(s, hasher, mask, chains, slotOf, key, mp, n, s', chains', slotOf');
    FreeHomeRest(s, hasher, cachesHash, slotOf, cursor, size, key, mp, n, s', slotOf');
    assert slotOf'.Keys == slotOf.Keys + {key};
  }

  /** Everything but the chains after the first insertion case. */
  lemma FreeHomeRest<K, V>(s: seq<Node<K, V>>, hasher: K -> uint32, cachesHash: bool,
                           slotOf: map<K, nat>, cursor: nat, size: nat,
                           key: K, mp: nat, n: Node<K, V>, s': seq<Node<K, V>>, slotOf': map<K, nat>)
    requires CursorOk(s, cursor) && size == UsedCount(s) && SlotsOk(s, slotOf) && HashesOk(s, hasher, cachesHash)
    requires key !in slotOf && mp < |s| && !Used(s, mp)
    requires n.key == key && n.flags == UsedOnly && (cachesHash ==> n.hash == hasher(key))
    requires s' == s[mp := n] && slotOf' == slotOf[key := mp]
    ensures && CursorOk(s', cursor) && UsedCount(s') == size + 1 && SlotsOk(s', slotOf')
            && HashesOk(s', hasher, cachesHash) && SameEntries(s, slotOf, s', slotOf')
  {
    UsedCountUpdate(s, mp, n);
    PlaceSlots(s, slotOf, key, mp, n);
    assert DiffersOnlyAt(s, s', {mp});
    KeepCursor(s, s', cursor, {mp});
    KeepHashes(s, s', {mp}, hasher, cachesHash);
  }

  /** Writing a new key's node into an unused slot extends `slotOf` by that
      slot and leaves the other entries alone. */
  lemma PlaceSlots<K, V>(s: seq<Node<K, V>>, slotOf: map<K, nat>, key: K, i: nat, n: Node<K, V>)
    requires SlotsOk(s, slotOf) && key !in slotOf && i < |s| && !Used(s, i)
    requires n.key == key && n.flags.used
    ensures SlotsOk(s[i := n], slotOf[key := i])
    ensures SameEntries(s, slotOf, s[i := n], slotOf[key := i])
  {
  }

  lemma FreeHomeChains<K, V>(s: seq<Node<K, V>>, hasher: K -> uint32, mask: nat,
                             chains: seq<seq<nat>>, slotOf: map<K, nat>, key: K, mp: nat, n: Node<K, V>,
                             s': seq<Node<K, V>>, chains': seq<seq<nat>>, slotOf': map<K, nat>)
    requires ChainsOk(s, hasher, mask, chains, slotOf)
    requires mp < |s| && mp == Home(hasher, mask, key) && !Used(s, mp)
    requires n.key == key && n.flags == UsedOnly && n.next == |s|
    requires s' == s[mp := n] && chains' == chains[mp := [mp]] && slotOf' == slotOf[key := mp]
    ensures ChainsOk(s', hasher, mask, chains', slotOf')
  {
    EmptyChainAtUnused(s, hasher, mask, chains[mp], mp);
    forall h | 0 <= h < |chains'|
      ensures ChainOk(s', hasher, mask, chains'[h], h)
    {
      if h != mp {
        var c := chains[h];
        assert ChainOk(s, hasher, mask, c, h);
        forall j | 0 <= j < |c| && c[j] < |s|
          ensures s'[c[j]] == s[c[j]]
        {
          assert Used(s, c[j]);
        }
        ChainFrame(s, s', hasher, mask, c, h);
      } else {
        assert Succ([mp], 0, |s'|) == |s'|;
      }
    }
    forall k | k in slotOf'
      ensures Home(hasher, mask, k) < |s'| && slotOf'[k] in chains'[Home(hasher, mask, k)]
    {
      if k != key {
        var g := Home(hasher, mask, k);
        assert slotOf[k] in chains[g];
        assert g != mp;
      }
    }
  }

  // ---------------------------------------------------------------------------
  // Bookkeeping of `slotOf`

  /** SameEntries composes. */
  lemma SameEntriesTrans<K, V>(s1: seq<Node<K, V>>, m1: map<K, nat>, s2: seq<Node<K, V>>, m2: map<K, nat>,
                               s3: seq<Node<K, V>>, m3: map<K, nat>)
    requires SameEntries(s1, m1, s2, m2) && SameEntries(s2, m2, s3, m3)
    ensures SameEntries(s1, m1, s3, m3)
  {
  }

  /** Changing only a node's link keeps `slotOf` exact and every entry. */
  lemma RelinkSlots<K, V>(s: seq<Node<K, V>>, slotOf: map<K, nat>, i: nat, nxt: nat)
    requires SlotsOk(s, slotOf) && i < |s|
    ensures SlotsOk(s[i := s[i].(next := nxt)], slotOf)
    ensures SameEntries(s, slotOf, s[i := s[i].(next := nxt)], slotOf)
  {
  }

  /** Moving the node at `mp` out to the free slot `cb` and writing a new
      key's node at `mp`. */
  lemma DisplaceSlots<K, V>(s: seq<Node<K, V>>, slotOf: map<K, nat>, key: K, mp: nat, cb: nat, n: Node<K, V>)
    requires SlotsOk(s, slotOf) && key !in slotOf && Used(s, mp) && cb < |s| && !Used(s, cb)
    requires n.key == key && n.flags.used
    ensures SlotsOk(s[cb := s[mp]][mp := n], slotOf[s[mp].key := cb][key := mp])
    ensures SameEntries(s, slotOf, s[cb := s[mp]][mp := n], slotOf[s[mp].key := cb][key := mp])
  {
    var s', slotOf' := s[cb := s[mp]][mp := n], slotOf[s[mp].key := cb][key := mp];
    forall i | Used(s', i)
      ensures s'[i].key in slotOf' && slotOf'[s'[i].key] == i
    {
      if i != mp && i != cb {
        assert Used(s, i);
      }
    }
  }

  /** Clearing the used bit of the slot holding `key` removes it from `slotOf`. */
  lemma UnmarkSlots<K, V>(s: seq<Node<K, V>>, slotOf: map<K, nat>, key: K, i: nat)
    requires SlotsOk(s, slotOf) && key in slotOf && slotOf[key] == i
    ensures i < |s|
    ensures SlotsOk(s[i := s[i].(flags := s[i].flags.(used := false))], slotOf - {key})
    ensures SameEntries(s, slotOf - {key}, s[i := s[i].(flags := s[i].flags.(used := false))], slotOf - {key})
  {
  }

  /** Copying the successor `x` over the head `n` (which holds `key`) and
      clearing `x`. */
  lemma PromoteSlots<K, V>(s: seq<Node<K, V>>, slotOf: map<K, nat>, key: K, n: nat, x: nat)
    requires SlotsOk(s, slotOf) && key in slotOf && slotOf[key] == n && Used(s, x) && x != n
    ensures n < |s| && s[x].key != key
    ensures SlotsOk(s[n := s[x]][x := s[x].(flags := s[x].flags.(used := false))],
                    (slotOf - {key})[s[x].key := n])
    ensures SameEntries(s, slotOf - {key}, s[n := s[x]][x := s[x].(flags := s[x].flags.(used := false))],
                        (slotOf - {key})[s[x].key := n])
  {
    var s' := s[n := s[x]][x := s[x].(flags := s[x].flags.(used := false))];
    var slotOf' := (slotOf - {key})[s[x].key := n];
    forall i | Used(s', i)
      ensures s'[i].key in slotOf' && slotOf'[s'[i].key] == i
    {
      if i != n {
        assert Used(s, i);
      }
    }
  }

  // ---------------------------------------------------------------------------
  // Chains

  /** `s'` differs from `s` at most at the slots in `d`. */
  ghost predicate DiffersOnlyAt<K, V>(s: seq<Node<K, V>>, s': seq<Node<K, V>>, d: set<nat>)
  {
    |s'| == |s| && forall i :: 0 <= i < |s| && i !in d ==> s'[i] == s[i]
  }

  /** A chain is untouched by changes at slots that are unused or belong to
      another home. */
  lemma FrameByDiff<K, V>(s: seq<Node<K, V>>, s': seq<Node<K, V>>, hasher: K -> uint32, mask: nat,
                          d: set<nat>, c: seq<nat>, h: nat)
    requires ChainOk(s, hasher, mask, c, h) && DiffersOnlyAt(s, s', d)
    requires forall i :: i in d ==> !Used(s, i) || Home(hasher, mask, s[i].key) != h
    ensures ChainOk(s', hasher, mask, c, h)
  {
    forall j | 0 <= j < |c| && c[j] < |s|
      ensures s'[c[j]] == s[c[j]]
    {
      assert Used(s, c[j]);
    }
    ChainFrame(s, s', hasher, mask, c, h);
  }

  /** Changes that leave every changed slot used keep the cursor invariant. */
  lemma KeepCursor<K, V>(s: seq<Node<K, V>>, s': seq<Node<K, V>>, cursor: nat, d: set<nat>)
    requires CursorOk(s, cursor) && DiffersOnlyAt(s, s', d)
    requires forall i :: i in d && i < cursor ==> Used(s', i)
    ensures CursorOk(s', cursor)
  {
    forall i | 0 <= i < cursor
      ensures Used(s', i)
    {
      if i !in d {
        assert Used(s, i);
      }
    }
  }

  /** Changes whose used slots carry their key's hash keep the cached hashes right. */
  lemma KeepHashes<K, V>(s: seq<Node<K, V>>, s': seq<Node<K, V>>, d: set<nat>, hasher: K -> uint32, cachesHash: bool)
    requires HashesOk(s, hasher, cachesHash) && DiffersOnlyAt(s, s', d)
    requires forall i :: i in d && Used(s', i) && cachesHash ==> s'[i].hash == hasher(s'[i].key)
    ensures HashesOk(s', hasher, cachesHash)
  {
    if cachesHash {
      forall i | Used(s', i)
        ensures s'[i].hash == hasher(s'[i].key)
      {
        if i !in d {
          assert Used(s, i);
        }
      }
    }
  }

  /** Insertion, second case: the home slot holds the head of its own chain,
      so the new node at the free slot `cb` becomes the chain's second member
      (hash.hpp:143-149). */
  lemma HeadSpliceChains<K, V>(s: seq<Node<K, V>>, hasher: K -> uint32, mask: nat,
                               chains: seq<seq<nat>>, slotOf: map<K, nat>,
                               key: K, mp: nat, cb: nat, n: Node<K, V>,
                               s': seq<Node<K, V>>, chains': seq<seq<nat>>, slotOf': map<K, nat>)
    requires ChainsOk(s, hasher, mask, chains, slotOf)
    requires mp < |s| && cb < |s| && mp == Home(hasher, mask, key) && !Used(s, cb)
    requires |chains[mp]| > 0 && chains[mp][0] == mp
    requires n.key == key && n.flags.used && n.next == s[mp].next
    requires s' == s[mp := s[mp].(next := cb)][cb := n]
    requires chains' == chains[mp := [mp, cb] + chains[mp][1..]] && slotOf' == slotOf[key := cb]
    ensures ChainsOk(s', hasher, mask, chains', slotOf')
  {
    var c := chains[mp];
    var c' := [mp, cb] + c[1..];
    assert ChainOk(s, hasher, mask, c, mp);
    assert Used(s, c[0]);
    assert DiffersOnlyAt(s, s', {mp, cb});
    forall h | 0 <= h < |chains'| && h != mp
      ensures ChainOk(s', hasher, mask, chains'[h], h)
    {
      FrameByDiff(s, s', hasher, mask, {mp, cb}, chains[h], h);
    }
    HeadSpliceChain(s, hasher, mask, c, key, mp, cb, n);
    forall k | k in slotOf'
      ensures Home(hasher, mask, k) < |s'| && slotOf'[k] in chains'[Home(hasher, mask, k)]
    {
      if k != key {
        var g := Home(hasher, mask, k);
        assert slotOf[k] in chains[g];
        if g == mp {
          assert c == [c[0]] + c[1..];
        }
      }
    }
  }

  lemma HeadSpliceChain<K, V>(s: seq<Node<K, V>>, hasher: K -> uint32, mask: nat, c: seq<nat>,
                              key: K, mp: nat, cb: nat, n: Node<K, V>)
    requires ChainOk(s, hasher, mask, c, mp)
    requires mp < |s| && cb < |s| && mp == Home(hasher, mask, key) && !Used(s, cb)
    requires |c| > 0
    requires n.key == key && n.flags.used && n.next == s[mp].next
    ensures ChainOk(s[mp := s[mp].(next := cb)][cb := n], hasher, mask, [mp, cb] + c[1..], mp)
  {
    var s' := s[mp := s[mp].(next := cb)][cb := n];
    var c' := [mp, cb] + c[1..];
    assert Used(s, c[0]);
    forall j | 0 <= j < |c'|
      ensures Used(s', c'[j]) && Home(hasher, mask, s'[c'[j]].key) == mp && s'[c'[j]].next == Succ(c', j, |s'|)
    {
      if j == 0 {
      } else if j == 1 {
        assert s[c[0]].next == Succ(c, 0, |s|);
      } else {
        assert c'[j] == c[j - 1];
        assert Used(s, c[j - 1]);
        assert c[j - 1] != c[0];
        assert s[c[j - 1]].next == Succ(c, j - 1, |s|);
      }
    }
    forall j1, j2 | 0 <= j1 < j2 < |c'|
      ensures c'[j1] != c'[j2]
    {
      if j2 >= 2 {
        assert Used(s, c[j2 - 1]);
        if j1 >= 2 {
          assert c'[j1] == c[j1 - 1];
        } else if j1 == 0 {
          assert c[j2 - 1] != c[0];
        }
      }
    }
  }

  /** The whole invariant after the second insertion case. */
  lemma InsertAfterHead<K, V>(s: seq<Node<K, V>>, mask: nat, hasher: K -> uint32, cachesHash: bool,
                              chains: seq<seq<nat>>, slotOf: map<K, nat>, cursor: nat, size: nat,
                              key: K, mp: nat, cb: nat, n: Node<K, V>,
                              s': seq<Node<K, V>>, chains': seq<seq<nat>>, slotOf': map<K, nat>)
    requires Inv(s, mask, hasher, cachesHash, chains, slotOf, cursor, size)
    requires key !in slotOf && mp < |s| && mp == Home(hasher, mask, key)
    requires Used(s, mp) && Home(hasher, mask, s[mp].key) == mp
    requires cb < |s| && !Used(s, cb)
    requires n.key == key && n.flags == UsedOnly && n.next == s[mp].next && (cachesHash ==> n.hash == hasher(key))
    requires s' == s[mp := s[mp].(next := cb)][cb := n]
    requires mp < |chains| && |chains[mp]| > 0 && chains' == chains[mp := [mp, cb] + chains[mp][1..]]
    requires slotOf' == slotOf[key := cb]
    ensures Placed(s, slotOf, s', mask, hasher, cachesHash, chains', slotOf', cursor, size, key, cb)
  {
    HeadIsChainStart(s, mask, hasher, cachesHash, chains, slotOf, cursor, size, mp);
    HeadSpliceChains(s, hasher, mask, chains, slotOf, key, mp, cb, n, s', chains', slotOf');
    HeadSpliceRest(s, hasher, cachesHash, slotOf, cursor, size, key, mp, cb, n, s', slotOf');
    assert slotOf'.Keys == slotOf.Keys + {key};
  }

  /** Everything but the chains after the second insertion case. */
  lemma HeadSpliceRest<K, V>(s: seq<Node<K, V>>, hasher: K -> uint32, cachesHash: bool,
                             slotOf: map<K, nat>, cursor: nat, size: nat,
                             key: K, mp: nat, cb: nat, n: Node<K, V>, s': seq<Node<K, V>>, slotOf': map<K, nat>)
    requires CursorOk(s, cursor) && size == UsedCount(s) && SlotsOk(s, slotOf) && HashesOk(s, hasher, cachesHash)
    requires key !in slotOf && Used(s, mp) && cb < |s| && !Used(s, cb)
    requires n.key == key && n.flags == UsedOnly && (cachesHash ==> n.hash == hasher(key))
    requires s' == s[mp := s[mp].(next := cb)][cb := n] && slotOf' == slotOf[key := cb]
    ensures && CursorOk(s', cursor) && UsedCount(s') == size + 1 && SlotsOk(s', slotOf')
            && HashesOk(s', hasher, cachesHash) && SameEntries(s, slotOf, s', slotOf')
  {
    var s1 := s[mp := s[mp].(next := cb)];
    UsedCountUpdate(s, mp, s1[mp]);
    UsedCountUpdate(s1, cb, n);
    HeadSpliceEntries(s, slotOf, key, mp, cb, n);
    HeadSpliceFrame(s, hasher, cachesHash, cursor, mp, cb, n);
  }

  lemma HeadSpliceEntries<K, V>(s: seq<Node<K, V>>, slotOf: map<K, nat>, key: K, mp: nat, cb: nat, n: Node<K, V>)
    requires SlotsOk(s, slotOf) && key !in slotOf && Used(s, mp) && cb < |s| && !Used(s, cb) && n.key == key && n.flags.used
    ensures var s' := s[mp := s[mp].(next := cb)][cb := n];
      SlotsOk(s', slotOf[key := cb]) && SameEntries(s, slotOf, s', slotOf[key := cb])
  {
    var s1 := s[mp := s[mp].(next := cb)];
    RelinkSlots(s, slotOf, mp, cb);
    PlaceSlots(s1, slotOf, key, cb, n);
    SameEntriesTrans(s, slotOf, s1, slotOf, s1[cb := n], slotOf[key := cb]);
  }

  lemma HeadSpliceFrame<K, V>(s: seq<Node<K, V>>, hasher: K -> uint32, cachesHash: bool, cursor: nat,
                              mp: nat, cb: nat, n: Node<K, V>)
    requires CursorOk(s, cursor) && HashesOk(s, hasher, cachesHash)
    requires Used(s, mp) && cb < |s| && n.flags.used && (cachesHash ==> n.hash == hasher(n.key))
    ensures var s' := s[mp := s[mp].(next := cb)][cb := n];
      CursorOk(s', cursor) && HashesOk(s', hasher, cachesHash)
  {
    var s' := s[mp := s[mp].(next := cb)][cb := n];
    assert DiffersOnlyAt(s, s', {mp, cb});
    KeepCursor(s, s', cursor, {mp, cb});
    KeepHashes(s, s', {mp, cb}, hasher, cachesHash);
  }

  /** A slot used by a key of another home starts no chain. */
  lemma EmptyChainAtDisplaced<K, V>(s: seq<Node<K, V>>, hasher: K -> uint32, mask: nat, c: seq<nat>, h: nat)
    requires ChainOk(s, hasher, mask, c, h) && Used(s, h) && Home(hasher, mask, s[h].key) != h
    ensures c == []
  {
  }

  /** Insertion, third case, on the chain `c` of the displaced node's home
      `g`: the predecessor `p` of the displaced slot `mp` now links to the free
      slot `cb`, which holds the displaced node (hash.hpp:150-159). */
  lemma DisplacedChain<K, V>(s: seq<Node<K, V>>, hasher: K -> uint32, mask: nat, c: seq<nat>, g: nat,
                             q: nat, mp: nat, cb: nat, n: Node<K, V>)
    requires ChainOk(s, hasher, mask, c, g) && 0 < q < |c| && c[q] == mp
    requires cb < |s| && !Used(s, cb)
    ensures Used(s, c[q - 1]) && Used(s, mp)
    ensures ChainOk(s[c[q - 1] := s[c[q - 1]].(next := cb)][cb := s[mp]][mp := n], hasher, mask, c[q := cb], g)
  {
    var p := c[q - 1];
    assert Used(s, p) && Used(s, mp);
    var s' := s[p := s[p].(next := cb)][cb := s[mp]][mp := n];
    var c' := c[q := cb];
    forall j | 0 <= j < |c'|
      ensures Used(s', c'[j]) && Home(hasher, mask, s'[c'[j]].key) == g && s'[c'[j]].next == Succ(c', j, |s'|)
    {
      assert Used(s, c[j]);
      if j == q {
        assert s[c[q]].next == Succ(c, q, |s|);
      } else if j == q - 1 {
        assert c[j] != c[q];
      } else {
        assert c[j] != c[q] && c[j] != c[q - 1];
        assert s[c[j]].next == Succ(c, j, |s|);
      }
    }
    forall j1, j2 | 0 <= j1 < j2 < |c'|
      ensures c'[j1] != c'[j2]
    {
      assert Used(s, c[j1]) && Used(s, c[j2]);
    }
  }

  /** Every chain whose home is not in `skip` survives changes at slots that
      are unused or whose keys have a home in `skip`. */
  lemma OtherChainsKept<K, V>(s: seq<Node<K, V>>, s': seq<Node<K, V>>, hasher: K -> uint32, mask: nat,
                              chains: seq<seq<nat>>, d: set<nat>, skip: set<nat>)
    requires forall h :: 0 <= h < |chains| ==> ChainOk(s, hasher, mask, chains[h], h)
    requires DiffersOnlyAt(s, s', d)
    requires forall i :: i in d ==> !Used(s, i) || Home(hasher, mask, s[i].key) in skip
    ensures forall h :: 0 <= h < |chains| && h !in skip ==> ChainOk(s', hasher, mask, chains[h], h)
  {
    forall h | 0 <= h < |chains| && h !in skip
      ensures ChainOk(s', hasher, mask, chains[h], h)
    {
      FrameByDiff(s, s', hasher, mask, d, chains[h], h);
    }
  }

  /** The chains after the third insertion case. */
  lemma DisplaceChains<K, V>(s: seq<Node<K, V>>, hasher: K -> uint32, mask: nat,
                             chains: seq<seq<nat>>, slotOf: map<K, nat>,
                             key: K, mp: nat, cb: nat, g: nat, q: nat, n: Node<K, V>)
    requires ChainsOk(s, hasher, mask, chains, slotOf) && SlotsOk(s, slotOf)
    requires mp < |s| && mp == Home(hasher, mask, key) && Used(s, mp)
    requires g == Home(hasher, mask, s[mp].key) && g != mp && g < |s|
    requires 0 < q < |chains[g]| && chains[g][q] == mp
    requires cb < |s| && !Used(s, cb)
    requires n.key == key && n.flags.used && n.next == |s|
    ensures Used(s, chains[g][q - 1]) && chains[g][q - 1] != mp
    ensures var c': seq<nat> := chains[g][q := cb];
      ChainsOk(s[chains[g][q - 1] := s[chains[g][q - 1]].(next := cb)][cb := s[mp]][mp := n], hasher, mask,
               chains[g := c'][mp := [mp]], slotOf[s[mp].key := cb][key := mp])
  {
    EmptyChainAtDisplaced(s, hasher, mask, chains[mp], mp);
    DisplaceEachChain(s, hasher, mask, chains, key, mp, cb, g, q, n);
    DisplaceMembership(s, hasher, mask, chains, slotOf, key, mp, cb, g, q);
  }

  /** Each chain is well formed after the third insertion case. */
  lemma DisplaceEachChain<K, V>(s: seq<Node<K, V>>, hasher: K -> uint32, mask: nat, chains: seq<seq<nat>>,
                                key: K, mp: nat, cb: nat, g: nat, q: nat, n: Node<K, V>)
    requires |chains| == |s| && forall h :: 0 <= h < |chains| ==> ChainOk(s, hasher, mask, chains[h], h)
    requires mp < |s| && mp == Home(hasher, mask, key) && Used(s, mp)
    requires g == Home(hasher, mask, s[mp].key) && g != mp && g < |s|
    requires 0 < q < |chains[g]| && chains[g][q] == mp
    requires cb < |s| && !Used(s, cb)
    requires n.key == key && n.flags.used && n.next == |s|
    ensures Used(s, chains[g][q - 1]) && chains[g][q - 1] != mp
    ensures var c': seq<nat> := chains[g][q := cb];
      var s' := s[chains[g][q - 1] := s[chains[g][q - 1]].(next := cb)][cb := s[mp]][mp := n];
      var chains' := chains[g := c'][mp := [mp]];
      forall h :: 0 <= h < |chains'| ==> ChainOk(s', hasher, mask, chains'[h], h)
  {
    var c := chains[g];
    assert ChainOk(s, hasher, mask, c, g);
    var p := c[q - 1];
    assert Used(s, p) && Home(hasher, mask, s[p].key) == g;
    var s' := s[p := s[p].(next := cb)][cb := s[mp]][mp := n];
    var c': seq<nat> := c[q := cb];
    var chains' := chains[g := c'][mp := [mp]];
    assert DiffersOnlyAt(s, s', {p, cb, mp});
    OtherChainsKept(s, s', hasher, mask, chains, {p, cb, mp}, {g});
    DisplacedChain(s, hasher, mask, c, g, q, mp, cb, n);
    assert ChainOk(s', hasher, mask, [mp], mp) by {
      assert Succ([mp], 0, |s'|) == |s'|;
    }
    forall h | 0 <= h < |chains'|
      ensures ChainOk(s', hasher, mask, chains'[h], h)
    {
      if h != g && h != mp {
        assert chains'[h] == chains[h];
      }
    }
  }

  /** Every present key stays on its home's chain after the third insertion case. */
  lemma DisplaceMembership<K, V>(s: seq<Node<K, V>>, hasher: K -> uint32, mask: nat,
                                 chains: seq<seq<nat>>, slotOf: map<K, nat>,
                                 key: K, mp: nat, cb: nat, g: nat, q: nat)
    requires ChainsOk(s, hasher, mask, chains, slotOf) && SlotsOk(s, slotOf)
    requires mp < |s| && mp == Home(hasher, mask, key) && Used(s, mp)
    requires g == Home(hasher, mask, s[mp].key) && g != mp && g < |s|
    requires 0 < q < |chains[g]| && chains[g][q] == mp
    requires chains[mp] == []
    ensures var c': seq<nat> := chains[g][q := cb];
      var chains' := chains[g := c'][mp := [mp]];
      var slotOf' := slotOf[s[mp].key := cb][key := mp];
      forall k :: k in slotOf' ==> Home(hasher, mask, k) < |s| && slotOf'[k] in chains'[Home(hasher, mask, k)]
  {
    var c := chains[g];
    var c': seq<nat> := c[q := cb];
    var chains' := chains[g := c'][mp := [mp]];
    var slotOf' := slotOf[s[mp].key := cb][key := mp];
    forall k | k in slotOf'
      ensures Home(hasher, mask, k) < |s| && slotOf'[k] in chains'[Home(hasher, mask, k)]
    {
      if k != key && k != s[mp].key {
        var hk := Home(hasher, mask, k);
        assert slotOf[k] in chains[hk];
        assert slotOf[k] != mp;
        if hk == g {
          var j :| 0 <= j < |c| && c[j] == slotOf[k];
          assert c'[j] == slotOf[k];
        }
      } else if k != key {
        assert c'[q] == cb;
      }
    }
  }

  /** Everything but the chains after the third insertion case. */
  lemma DisplaceRest<K, V>(s: seq<Node<K, V>>, hasher: K -> uint32, cachesHash: bool,
                           slotOf: map<K, nat>, cursor: nat, size: nat,
                           key: K, p: nat, mp: nat, cb: nat, n: Node<K, V>)
    requires CursorOk(s, cursor) && size == UsedCount(s) && SlotsOk(s, slotOf) && HashesOk(s, hasher, cachesHash)
    requires key !in slotOf && Used(s, p) && Used(s, mp) && p != mp && cb < |s| && !Used(s, cb)
    requires n.key == key && n.flags == UsedOnly && (cachesHash ==> n.hash == hasher(key))
    ensures var s' := s[p := s[p].(next := cb)][cb := s[mp]][mp := n];
      var slotOf' := slotOf[s[mp].key := cb][key := mp];
      && CursorOk(s', cursor) && UsedCount(s') == size + 1 && SlotsOk(s', slotOf')
      && HashesOk(s', hasher, cachesHash) && SameEntries(s, slotOf, s', slotOf')
  {
    DisplaceCount(s, size, p, mp, cb, n);
    DisplaceFrame(s, hasher, cachesHash, cursor, p, mp, cb, n);
    DisplaceEntries(s, slotOf, key, p, mp, cb, n);
  }

  lemma DisplaceCount<K, V>(s: seq<Node<K, V>>, size: nat, p: nat, mp: nat, cb: nat, n: Node<K, V>)
    requires size == UsedCount(s) && Used(s, p) && Used(s, mp) && cb < |s| && !Used(s, cb) && n.flags.used
    ensures UsedCount(s[p := s[p].(next := cb)][cb := s[mp]][mp := n]) == size + 1
  {
    var s1 := s[p := s[p].(next := cb)];
    var s2 := s1[cb := s[mp]];
    UsedCountUpdate(s, p, s1[p]);
    UsedCountUpdate(s1, cb, s[mp]);
    UsedCountUpdate(s2, mp, n);
  }

  lemma DisplaceFrame<K, V>(s: seq<Node<K, V>>, hasher: K -> uint32, cachesHash: bool, cursor: nat,
                            p: nat, mp: nat, cb: nat, n: Node<K, V>)
    requires CursorOk(s, cursor) && HashesOk(s, hasher, cachesHash)
    requires Used(s, p) && Used(s, mp) && cb < |s| && n.flags.used && (cachesHash ==> n.hash == hasher(n.key))
    ensures var s' := s[p := s[p].(next := cb)][cb := s[mp]][mp := n];
      CursorOk(s', cursor) && HashesOk(s', hasher, cachesHash)
  {
    var s' := s[p := s[p].(next := cb)][cb := s[mp]][mp := n];
    assert DiffersOnlyAt(s, s', {p, cb, mp});
    KeepCursor(s, s', cursor, {p, cb, mp});
    KeepHashes(s, s', {p, cb, mp}, hasher, cachesHash);
  }

  lemma DisplaceEntries<K, V>(s: seq<Node<K, V>>, slotOf: map<K, nat>, key: K, p: nat, mp: nat, cb: nat, n: Node<K, V>)
    requires SlotsOk(s, slotOf) && key !in slotOf && Used(s, p) && Used(s, mp) && p != mp && cb < |s| && !Used(s, cb)
    requires n.key == key && n.flags.used
    ensures var s' := s[p := s[p].(next := cb)][cb := s[mp]][mp := n];
      var slotOf' := slotOf[s[mp].key := cb][key := mp];
      SlotsOk(s', slotOf') && SameEntries(s, slotOf, s', slotOf')
  {
    var s1 := s[p := s[p].(next := cb)];
    RelinkSlots(s, slotOf, p, cb);
    DisplaceSlots(s1, slotOf, key, mp, cb, n);
    SameEntriesTrans(s, slotOf, s1, slotOf, s1[cb := s[mp]][mp := n], slotOf[s[mp].key := cb][key := mp]);
  }

  /** The whole invariant after the third insertion case: `q` is the position
      of the displaced slot `mp` on the chain of its own home `g`. */
  lemma InsertDisplacing<K, V>(s: seq<Node<K, V>>, mask: nat, hasher: K -> uint32, cachesHash: bool,
                               chains: seq<seq<nat>>, slotOf: map<K, nat>, cursor: nat, size: nat,
                               key: K, mp: nat, cb: nat, g: nat, q: nat, n: Node<K, V>)
    requires Inv(s, mask, hasher, cachesHash, chains, slotOf, cursor, size)
    requires key !in slotOf && mp < |s| && mp == Home(hasher, mask, key) && Used(s, mp)
    requires g == Home(hasher, mask, s[mp].key) && g != mp && g < |s|
    requires 0 < q < |chains[g]| && chains[g][q] == mp
    requires cb < |s| && !Used(s, cb)
    requires n.key == key && n.flags == UsedOnly && n.next == |s| && (cachesHash ==> n.hash == hasher(key))
    ensures Used(s, chains[g][q - 1]) && chains[g][q - 1] != mp
    ensures var c': seq<nat> := chains[g][q := cb];
      var s' := s[chains[g][q - 1] := s[chains[g][q - 1]].(next := cb)][cb := s[mp]][mp := n];
      var slotOf' := slotOf[s[mp].key := cb][key := mp];
      && Inv(s', mask, hasher, cachesHash, chains[g := c'][mp := [mp]], slotOf', cursor, size + 1)
      && SameEntries(s, slotOf, s', slotOf')
  {
    DisplaceChains(s, hasher, mask, chains, slotOf, key, mp, cb, g, q, n);
    assert chains[g][q - 1] != mp;
    DisplaceRest(s, hasher, cachesHash, slotOf, cursor, size, key, chains[g][q - 1], mp, cb, n);
  }

  // ---------------------------------------------------------------------------
  // The three insertion cases in the form the table uses

  /** The third case, stated as `Placed`; `p` is the predecessor of `mp` on
      the chain of `g`, and `d` the key displaced from `mp`. */
  lemma InsertDisplacingPlaced<K, V>(s: seq<Node<K, V>>, mask: nat, hasher: K -> uint32, cachesHash: bool,
                                     chains: seq<seq<nat>>, slotOf: map<K, nat>, cursor: nat, size: nat,
                                     key: K, mp: nat, cb: nat, g: nat, q: nat, p: nat, n: Node<K, V>)
    returns (chains': seq<seq<nat>>, slotOf': map<K, nat>)
    requires key !in slotOf && mp < |s| && cb < |s| && p < |s| && s[mp].key in slotOf && n.key == key && n.flags == UsedOnly
    requires g < |chains| && q < |chains[g]| && mp < |chains|
    requires var c': seq<nat> := chains[g][q := cb];
      Inv(s[p := s[p].(next := cb)][cb := s[mp]][mp := n], mask, hasher, cachesHash,
          chains[g := c'][mp := [mp]], slotOf[s[mp].key := cb][key := mp], cursor, size + 1)
    requires SameEntries(s, slotOf, s[p := s[p].(next := cb)][cb := s[mp]][mp := n], slotOf[s[mp].key := cb][key := mp])
    ensures Placed(s, slotOf, s[p := s[p].(next := cb)][cb := s[mp]][mp := n],
                   mask, hasher, cachesHash, chains', slotOf', cursor, size, key, mp)
  {
    var c': seq<nat> := chains[g][q := cb];
    var moved: map<K, nat> := slotOf[s[mp].key := cb];
    chains', slotOf' := chains[g := c'][mp := [mp]], moved[key := mp];
    assert slotOf'.Keys == slotOf.Keys + {key};
    PlacedIntro(s, slotOf, s[p := s[p].(next := cb)][cb := s[mp]][mp := n], mask, hasher, cachesHash, chains', slotOf', cursor, size, key, mp);
  }

  // ---------------------------------------------------------------------------
  // Writing a present entry's payload

  /** Overwriting the value, flags and cached hash of a used node, keeping its
      key, its link and its used bit, keeps the layout; only that key's entry
      changes (the copy that ends each step of `resizeArray`, hash.hpp:382-384,
      and a store through the pointer `insert` returns, hash.hpp:109-112). */
  lemma SetPayload<K, V>(s: seq<Node<K, V>>, mask: nat, hasher: K -> uint32, cachesHash: bool,
                         chains: seq<seq<nat>>, slotOf: map<K, nat>, cursor: nat, size: nat,
                         i: nat, n: Node<K, V>)
    requires Inv(s, mask, hasher, cachesHash, chains, slotOf, cursor, size)
    requires Used(s, i) && n.key == s[i].key && n.next == s[i].next && n.flags.used
    requires cachesHash ==> n.hash == hasher(n.key)
    ensures Inv(s[i := n], mask, hasher, cachesHash, chains, slotOf, cursor, size)
    ensures ValuesOf(s[i := n], slotOf) == ValuesOf(s, slotOf)[s[i].key := n.value]
    ensures FlagsOf(s[i := n], slotOf) == FlagsOf(s, slotOf)[s[i].key := n.flags]
  {
    PayloadChains(s, hasher, mask, chains, slotOf, i, n);
    PayloadRest(s, hasher, cachesHash, slotOf, cursor, size, i, n);
  }

  lemma PayloadChains<K, V>(s: seq<Node<K, V>>, hasher: K -> uint32, mask: nat,
                            chains: seq<seq<nat>>, slotOf: map<K, nat>, i: nat, n: Node<K, V>)
    requires ChainsOk(s, hasher, mask, chains, slotOf)
    requires Used(s, i) && n.key == s[i].key && n.next == s[i].next && n.flags.used
    ensures ChainsOk(s[i := n], hasher, mask, chains, slotOf)
  {
    var s' := s[i := n];
    forall h | 0 <= h < |chains|
      ensures ChainOk(s', hasher, mask, chains[h], h)
    {
      var c := chains[h];
      assert ChainOk(s, hasher, mask, c, h);
      forall j | 0 <= j < |c|
        ensures Used(s', c[j]) && Home(hasher, mask, s'[c[j]].key) == h && s'[c[j]].next == Succ(c, j, |s'|)
      {
        assert Used(s, c[j]);
      }
    }
  }

  lemma PayloadRest<K, V>(s: seq<Node<K, V>>, hasher: K -> uint32, cachesHash: bool,
                          slotOf: map<K, nat>, cursor: nat, size: nat, i: nat, n: Node<K, V>)
    requires CursorOk(s, cursor) && size == UsedCount(s) && SlotsOk(s, slotOf) && HashesOk(s, hasher, cachesHash)
    requires Used(s, i) && n.key == s[i].key && n.flags.used
    requires cachesHash ==> n.hash == hasher(n.key)
    ensures var s' := s[i := n];
      && CursorOk(s', cursor) && UsedCount(s') == size && SlotsOk(s', slotOf) && HashesOk(s', hasher, cachesHash)
      && ValuesOf(s', slotOf) == ValuesOf(s, slotOf)[s[i].key := n.value]
      && FlagsOf(s', slotOf) == FlagsOf(s, slotOf)[s[i].key := n.flags]
  {
    UsedCountUpdate(s, i, n);
    PayloadFrame(s, hasher, cachesHash, cursor, i, n);
  }

  lemma PayloadFrame<K, V>(s: seq<Node<K, V>>, hasher: K -> uint32, cachesHash: bool, cursor: nat, i: nat, n: Node<K, V>)
    requires CursorOk(s, cursor) && HashesOk(s, hasher, cachesHash)
    requires i < |s| && n.flags.used && (cachesHash ==> n.hash == hasher(n.key))
    ensures CursorOk(s[i := n], cursor) && HashesOk(s[i := n], hasher, cachesHash)
  {
    var s' := s[i := n];
    assert DiffersOnlyAt(s, s', {i});
    KeepCursor(s, s', cursor, {i});
    KeepHashes(s, s', {i}, hasher, cachesHash);
  }
}
