/** The layout invariant of `croc::Hash` stated over the node array as a
    sequence, and the facts about single steps of insertion and removal that
    the table class uses (src/croc/base/hash.hpp:114-216, 347-357).

    The ghost layout has two parts: `chains[h]` lists, in link order, the slots
    of the keys whose home slot is `h`, and `slotOf[k]` is the slot holding the
    present key `k`. */
module HashChains {
  import opened Bits
  import opened HashNodes

  /** `hash & mHashMask`: the home slot of a key. */
  function Home<K>(hasher: K -> uint32, mask: nat, k: K): nat
  {
    BitAnd(hasher(k) as nat, mask)
  }

  /** Slot `i` exists and its `NodeFlags_Used` bit is set. */
  predicate Used<K, V>(s: seq<Node<K, V>>, i: int)
  {
    0 <= i < |s| && s[i].flags.used
  }

  /** The number of used slots. */
  function UsedCount<K, V>(s: seq<Node<K, V>>): (r: nat)
    ensures r <= |s|
  {
    if |s| == 0 then 0
    else UsedCount(s[..|s| - 1]) + (if s[|s| - 1].flags.used then 1 else 0)
  }

  /** The mask the table keeps for a given capacity: `mNodes.length - 1`
      stored in a `uint32` (0 for the empty table). */
  function MaskFor(cap: nat): (r: nat)
    ensures r < 0x1_0000_0000
    ensures cap > 0 ==> r < cap
  {
    if cap == 0 then 0 else (cap - 1) % 0x1_0000_0000
  }

  /** Capacity 0, or a power of two of at least 4, with the matching mask. */
  ghost predicate CapOk(cap: nat, mask: nat)
  {
    (cap == 0 || (cap >= 4 && IsPow2(cap))) && mask == MaskFor(cap)
  }

  /** Under the capacity and mask invariant the home slot is inside the
      array; while the capacity fits the 32-bit mask, `hash & mHashMask` is
      the hash reduced modulo the capacity. */
  lemma HomeInRange<K>(hasher: K -> uint32, cap: nat, mask: nat, k: K)
    requires CapOk(cap, mask) && cap > 0
    ensures Home(hasher, mask, k) < cap
    ensures cap <= 0x1_0000_0000 ==> Home(hasher, mask, k) == hasher(k) as nat % cap
  {
    if cap <= 0x1_0000_0000 {
      MaskIsMod(hasher(k) as nat, cap);
    }
  }

  /** The member after position `j` of chain `c`, or `cap` at the end. */
  function Succ(c: seq<nat>, j: nat, cap: nat): nat
  {
    if j + 1 < |c| then c[j + 1] else cap
  }

  /** `c` is the chain of home slot `h`: it starts at `h`, every member is a
      used slot whose key has home `h`, each member's `next` is the following
      member (the end is marked by the array length), and no slot repeats. */
  ghost predicate ChainOk<K, V>(s: seq<Node<K, V>>, hasher: K -> uint32, mask: nat, c: seq<nat>, h: nat)
  {
    && (|c| > 0 ==> c[0] == h)
    && (forall j {:trigger Used(s, c[j])} {:trigger s[c[j]]} :: 0 <= j < |c| ==>
          && Used(s, c[j])
          && Home(hasher, mask, s[c[j]].key) == h
          && s[c[j]].next == Succ(c, j, |s|))
    && (forall j1, j2 :: 0 <= j1 < j2 < |c| ==> c[j1] != c[j2])
  }

  /** One chain per slot, and every present key sits on the chain of its home. */
  ghost predicate ChainsOk<K, V>(s: seq<Node<K, V>>, hasher: K -> uint32, mask: nat,
                                 chains: seq<seq<nat>>, slotOf: map<K, nat>)
  {
    && |chains| == |s|
    && (forall h :: 0 <= h < |chains| ==> ChainOk(s, hasher, mask, chains[h], h))
    && (forall k :: k in slotOf ==> Home(hasher, mask, k) < |s| && slotOf[k] in chains[Home(hasher, mask, k)])
  }

  /** `slotOf` is exactly the set of used slots, keyed by their keys. */
  ghost predicate SlotsOk<K, V>(s: seq<Node<K, V>>, slotOf: map<K, nat>)
  {
    && (forall k :: k in slotOf ==> Used(s, slotOf[k]) && s[slotOf[k]].key == k)
    && (forall i :: Used(s, i) ==> s[i].key in slotOf && slotOf[s[i].key] == i)
  }

  /** On the caching node shape, every used node holds its key's hash. */
  ghost predicate HashesOk<K, V>(s: seq<Node<K, V>>, hasher: K -> uint32, cachesHash: bool)
  {
    cachesHash ==> forall i :: Used(s, i) ==> s[i].hash == hasher(s[i].key)
  }

  /** Every slot left of the free-slot cursor is used. */
  ghost predicate CursorOk<K, V>(s: seq<Node<K, V>>, cursor: nat)
  {
    cursor <= |s| && forall i :: 0 <= i < cursor ==> Used(s, i)
  }

  /** The whole table invariant. */
  ghost predicate Inv<K, V>(s: seq<Node<K, V>>, mask: nat, hasher: K -> uint32, cachesHash: bool,
                            chains: seq<seq<nat>>, slotOf: map<K, nat>, cursor: nat, size: nat)
  {
    && CapOk(|s|, mask)
    && CursorOk(s, cursor)
    && size == UsedCount(s)
    && size == |slotOf|
    && SlotsOk(s, slotOf)
    && HashesOk(s, hasher, cachesHash)
    && ChainsOk(s, hasher, mask, chains, slotOf)
  }

  /** Every entry of the old layout is in the new one with the same value and flags. */
  ghost predicate SameEntries<K, V>(s: seq<Node<K, V>>, slotOf: map<K, nat>,
                                    s': seq<Node<K, V>>, slotOf': map<K, nat>)
  {
    forall k :: k in slotOf ==>
      && k in slotOf' && slotOf[k] < |s| && slotOf'[k] < |s'|
      && s'[slotOf'[k]].value == s[slotOf[k]].value
      && s'[slotOf'[k]].flags == s[slotOf[k]].flags
  }

  /** The key-to-value map the table represents. */
  ghost function ValuesOf<K, V>(s: seq<Node<K, V>>, slotOf: map<K, nat>): map<K, V>
  {
    map k | k in slotOf && slotOf[k] < |s| :: s[slotOf[k]].value
  }

  /** The flag word of each present key. */
  ghost function FlagsOf<K, V>(s: seq<Node<K, V>>, slotOf: map<K, nat>): map<K, Flags>
  {
    map k | k in slotOf && slotOf[k] < |s| :: s[slotOf[k]].flags
  }

  /** The entries of a layout are exactly its present keys. */
  lemma EntriesKeys<K, V>(s: seq<Node<K, V>>, slotOf: map<K, nat>)
    requires SlotsOk(s, slotOf)
    ensures ValuesOf(s, slotOf).Keys == slotOf.Keys && FlagsOf(s, slotOf).Keys == slotOf.Keys
  {
  }

  /** Same keys, same entries: the represented maps agree. */
  lemma SameEntriesSameMaps<K, V>(s: seq<Node<K, V>>, slotOf: map<K, nat>, s': seq<Node<K, V>>, slotOf': map<K, nat>)
    requires SameEntries(s, slotOf, s', slotOf') && slotOf'.Keys == slotOf.Keys
    ensures ValuesOf(s', slotOf') == ValuesOf(s, slotOf) && FlagsOf(s', slotOf') == FlagsOf(s, slotOf)
  {
  }

  /** One more key, all others kept: the represented maps gain one entry. */
  lemma SameEntriesGrow<K, V>(s: seq<Node<K, V>>, slotOf: map<K, nat>, s': seq<Node<K, V>>, slotOf': map<K, nat>, key: K)
    requires SameEntries(s, slotOf, s', slotOf') && slotOf'.Keys == slotOf.Keys + {key}
    requires key !in slotOf && slotOf'[key] < |s'|
    ensures ValuesOf(s', slotOf') == ValuesOf(s, slotOf)[key := s'[slotOf'[key]].value]
    ensures FlagsOf(s', slotOf') == FlagsOf(s, slotOf)[key := s'[slotOf'[key]].flags]
  {
  }

  /** One key fewer, all others kept: the represented maps lose that entry. */
  lemma SameEntriesShrink<K, V>(s: seq<Node<K, V>>, slotOf: map<K, nat>, s': seq<Node<K, V>>, slotOf': map<K, nat>, key: K)
    requires SameEntries(s, slotOf - {key}, s', slotOf') && slotOf'.Keys == slotOf.Keys - {key}
    requires forall k :: k in slotOf ==> slotOf[k] < |s|
    ensures ValuesOf(s', slotOf') == ValuesOf(s, slotOf) - {key}
    ensures FlagsOf(s', slotOf') == FlagsOf(s, slotOf) - {key}
  {
  }

  /** The present keys whose slot lies below `i`: what the reinsertion loop
      of `resizeArray` has copied after its first `i` steps. */
  ghost function Below<K>(slotOf: map<K, nat>, i: nat): map<K, nat>
  {
    map k | k in slotOf && slotOf[k] < i :: slotOf[k]
  }

  /** One more step of the reinsertion loop adds the key of slot `i` when that
      slot is used, and nothing otherwise. */
  lemma BelowStep<K, V>(s: seq<Node<K, V>>, slotOf: map<K, nat>, i: nat)
    requires SlotsOk(s, slotOf) && i < |s|
    ensures Used(s, i) ==> s[i].key !in Below(slotOf, i) && Below(slotOf, i + 1) == Below(slotOf, i)[s[i].key := i]
    ensures !Used(s, i) ==> Below(slotOf, i + 1) == Below(slotOf, i)
  {
    if Used(s, i) {
      assert Below(slotOf, i + 1).Keys == Below(slotOf, i).Keys + {s[i].key};
    } else {
      assert Below(slotOf, i + 1).Keys == Below(slotOf, i).Keys;
    }
  }

  /** Below the array length lie all the present keys. */
  lemma BelowAll<K, V>(s: seq<Node<K, V>>, slotOf: map<K, nat>)
    requires SlotsOk(s, slotOf)
    ensures Below(slotOf, |s|) == slotOf
  {
    assert Below(slotOf, |s|).Keys == slotOf.Keys;
  }

  /** Giving key `k` the slot `i` gives it that slot's value and flags. */
  lemma EntriesAdd<K, V>(s: seq<Node<K, V>>, slotOf: map<K, nat>, k: K, i: nat)
    requires i < |s|
    ensures ValuesOf(s, slotOf[k := i]) == ValuesOf(s, slotOf)[k := s[i].value]
    ensures FlagsOf(s, slotOf[k := i]) == FlagsOf(s, slotOf)[k := s[i].flags]
  {
    assert ValuesOf(s, slotOf[k := i]).Keys == ValuesOf(s, slotOf).Keys + {k};
    assert FlagsOf(s, slotOf[k := i]).Keys == FlagsOf(s, slotOf).Keys + {k};
  }

  /** A second update of the same key replaces the first. */
  lemma UpdateTwice<K, W>(m: map<K, W>, k: K, a: W, b: W)
    ensures m[k := a][k := b] == m[k := b]
  {
    assert m[k := a][k := b].Keys == m[k := b].Keys;
  }

  lemma UpdateSame<K, W>(m: map<K, W>, k: K, a: W)
    requires k in m && m[k] == a
    ensures m[k := a] == m
  {
    assert m[k := a].Keys == m.Keys;
  }

  // ---------------------------------------------------------------------------
  // Counting used slots

  /** Changing one node changes the count by the change of its used bit. */
  lemma {:induction false} UsedCountUpdate<K, V>(s: seq<Node<K, V>>, i: nat, n: Node<K, V>)
    requires i < |s|
    ensures UsedCount(s[i := n]) ==
            UsedCount(s) - (if s[i].flags.used then 1 else 0) + (if n.flags.used then 1 else 0)
    decreases |s|
  {
    var s' := s[i := n];
    var m := |s| - 1;
    assert s'[..m] == if i < m then s[..m][i := n] else s[..m];
    if i < m {
      UsedCountUpdate(s[..m], i, n);
    }
  }

  /** The count equals the length exactly when every slot is used. */
  lemma {:induction false} UsedCountFull<K, V>(s: seq<Node<K, V>>)
    ensures UsedCount(s) == |s| <==> forall i :: 0 <= i < |s| ==> s[i].flags.used
    decreases |s|
  {
    if |s| > 0 {
      var m := |s| - 1;
      UsedCountFull(s[..m]);
      assert forall i :: 0 <= i < m ==> s[..m][i] == s[i];
    }
  }

  /** Counting a prefix one slot longer adds that slot's used bit. */
  lemma UsedCountPrefix<K, V>(s: seq<Node<K, V>>, i: nat)
    requires i < |s|
    ensures UsedCount(s[..i + 1]) == UsedCount(s[..i]) + (if s[i].flags.used then 1 else 0)
  {
    assert s[..i + 1][..i] == s[..i];
  }

  /** A prefix has no more used slots than the whole. */
  lemma {:induction false} UsedCountPrefixLe<K, V>(s: seq<Node<K, V>>, i: nat)
    requires i <= |s|
    ensures UsedCount(s[..i]) <= UsedCount(s)
    decreases |s| - i
  {
    if i < |s| {
      UsedCountPrefix(s, i);
      UsedCountPrefixLe(s, i + 1);
      assert s[..|s|] == s;
    } else {
      assert s[..i] == s;
    }
  }

  lemma MapRemoveCard<K, W>(m: map<K, W>, k: K)
    requires k in m
    ensures |m - {k}| == |m| - 1
  {
    assert (m - {k}).Keys == m.Keys - {k};
  }

  // ---------------------------------------------------------------------------
  // Consequences of the invariant

  /** A used slot lies on the chain of its key's home. */
  lemma UsedOnItsChain<K, V>(s: seq<Node<K, V>>, mask: nat, hasher: K -> uint32, cachesHash: bool,
                             chains: seq<seq<nat>>, slotOf: map<K, nat>, cursor: nat, size: nat, i: nat)
    requires Inv(s, mask, hasher, cachesHash, chains, slotOf, cursor, size)
    requires Used(s, i)
    ensures Home(hasher, mask, s[i].key) < |s|
    ensures i in chains[Home(hasher, mask, s[i].key)]
  {
  }

  /** If a key is present, its home slot is used by the head of its own chain. */
  lemma PresentKeyHead<K, V>(s: seq<Node<K, V>>, mask: nat, hasher: K -> uint32, cachesHash: bool,
                             chains: seq<seq<nat>>, slotOf: map<K, nat>, cursor: nat, size: nat, k: K)
    requires Inv(s, mask, hasher, cachesHash, chains, slotOf, cursor, size)
    requires k in slotOf
    ensures var h := Home(hasher, mask, k);
      h < |s| && |chains[h]| > 0 && chains[h][0] == h && Used(s, h) && Home(hasher, mask, s[h].key) == h
  {
    var h := Home(hasher, mask, k);
    assert slotOf[k] in chains[h];
    assert ChainOk(s, hasher, mask, chains[h], h);
  }

  /** The head of a chain whose successor exists sees it as `chains[h][1]`,
      and a chain whose head ends the chain has just one member. */
  lemma ChainHeadNext<K, V>(s: seq<Node<K, V>>, hasher: K -> uint32, mask: nat, c: seq<nat>, h: nat)
    requires ChainOk(s, hasher, mask, c, h) && |c| > 0
    ensures Used(s, h) && (s[h].next == |s| <==> |c| == 1)
    ensures |c| > 1 ==> s[h].next == c[1]
  {
    assert Used(s, c[0]);
    assert s[c[0]].next == Succ(c, 0, |s|);
    if |c| > 1 {
      assert Used(s, c[1]);
    }
  }

  /** The chain of a slot whose node is the head of its own chain starts there. */
  lemma HeadIsChainStart<K, V>(s: seq<Node<K, V>>, mask: nat, hasher: K -> uint32, cachesHash: bool,
                               chains: seq<seq<nat>>, slotOf: map<K, nat>, cursor: nat, size: nat, h: nat)
    requires Inv(s, mask, hasher, cachesHash, chains, slotOf, cursor, size)
    requires Used(s, h) && Home(hasher, mask, s[h].key) == h
    ensures |chains[h]| > 0 && chains[h][0] == h
  {
    UsedOnItsChain(s, mask, hasher, cachesHash, chains, slotOf, cursor, size, h);
  }

  /** No chain meets an unused slot. */
  lemma UnusedOnNoChain<K, V>(s: seq<Node<K, V>>, hasher: K -> uint32, mask: nat, c: seq<nat>, h: nat, i: nat)
    requires ChainOk(s, hasher, mask, c, h) && !Used(s, i)
    ensures i !in c
  {
  }

  /** The chain of an unused home slot is empty. */
  lemma EmptyChainAtUnused<K, V>(s: seq<Node<K, V>>, hasher: K -> uint32, mask: nat, c: seq<nat>, h: nat)
    requires ChainOk(s, hasher, mask, c, h) && !Used(s, h)
    ensures c == []
  {
  }

  /** Every chain member is a slot of the array, and so is every link. */
  lemma ChainMembersInRange<K, V>(s: seq<Node<K, V>>, hasher: K -> uint32, mask: nat,
                                  chains: seq<seq<nat>>, slotOf: map<K, nat>)
    requires ChainsOk(s, hasher, mask, chains, slotOf)
    ensures forall h, j :: 0 <= h < |chains| && 0 <= j < |chains[h]| ==>
      chains[h][j] < |s| && s[chains[h][j]].next == Succ(chains[h], j, |s|)
  {
    forall h, j | 0 <= h < |chains| && 0 <= j < |chains[h]|
      ensures chains[h][j] < |s| && s[chains[h][j]].next == Succ(chains[h], j, |s|)
    {
      assert ChainOk(s, hasher, mask, chains[h], h);
      assert Used(s, chains[h][j]);
    }
  }

  /** Walking the successor links `t` times from slot `i`. */
  function Walk<K, V>(s: seq<Node<K, V>>, i: nat, t: nat): nat
    decreases t
  {
    if t == 0 || i >= |s| then i else Walk(s, s[i].next, t - 1)
  }

  /** Walking from member `m` of a chain reaches the later members in order. */
  lemma {:induction false} WalkAlongChain<K, V>(s: seq<Node<K, V>>, hasher: K -> uint32, mask: nat,
                                                c: seq<nat>, h: nat, m: nat, j: nat)
    requires ChainOk(s, hasher, mask, c, h) && m <= j < |c|
    ensures Walk(s, c[m], j - m) == c[j]
    decreases j - m
  {
    if m < j {
      assert Used(s, c[m]);
      assert s[c[m]].next == Succ(c, m, |s|) == c[m + 1];
      WalkAlongChain(s, hasher, mask, c, h, m + 1, j);
      assert Walk(s, c[m], j - m) == Walk(s, c[m + 1], j - (m + 1));
    }
  }

  /** Home-slot invariant: when a key is present, its home slot is used by a
      key of the same home, and the key is reached from the home slot by
      following `next` links. */
  lemma HomeSlotInvariant<K, V>(s: seq<Node<K, V>>, mask: nat, hasher: K -> uint32, cachesHash: bool,
                                chains: seq<seq<nat>>, slotOf: map<K, nat>, cursor: nat, size: nat, k: K)
    requires Inv(s, mask, hasher, cachesHash, chains, slotOf, cursor, size)
    requires k in slotOf
    ensures var h := Home(hasher, mask, k);
      && Used(s, h) && Home(hasher, mask, s[h].key) == h
      && exists t :: 0 <= t < |chains[h]| && Walk(s, h, t) == slotOf[k]
  {
    var h := Home(hasher, mask, k);
    PresentKeyHead(s, mask, hasher, cachesHash, chains, slotOf, cursor, size, k);
    var c := chains[h];
    var j :| 0 <= j < |c| && c[j] == slotOf[k];
    WalkAlongChain(s, hasher, mask, c, h, 0, j);
  }

  /** Member `q` of chain `c` is slot `d`, and walking `c` from its head, the
      member just before it is the first whose `next` is `d`. */
  ghost predicate PredecessorAt<K, V>(s: seq<Node<K, V>>, c: seq<nat>, q: nat, d: nat)
  {
    && 0 < q < |c| && c[q] == d
    && (forall u :: 0 <= u < q ==> c[u] < |s|)
    && s[c[q - 1]].next == d
    && (forall u :: 0 <= u < q - 1 ==> s[c[u]].next != d)
  }

  /** The predecessor walk of an insertion that displaces a node terminates:
      the displaced node at `mp` is a later member `q` of the chain of its own
      home `g`, and walking from the head `g`, the first node whose `next` is
      `mp` is the member just before it. */
  lemma PredecessorWalkEnds<K, V>(s: seq<Node<K, V>>, mask: nat, hasher: K -> uint32, cachesHash: bool,
                                  chains: seq<seq<nat>>, slotOf: map<K, nat>, cursor: nat, size: nat,
                                  mp: nat, g: nat) returns (q: nat)
    requires Inv(s, mask, hasher, cachesHash, chains, slotOf, cursor, size)
    requires Used(s, mp) && g == Home(hasher, mask, s[mp].key) && g != mp
    ensures g < |s| && |chains[g]| > 0 && chains[g][0] == g
    ensures PredecessorAt(s, chains[g], q, mp)
  {
    UsedOnItsChain(s, mask, hasher, cachesHash, chains, slotOf, cursor, size, mp);
    var c := chains[g];
    assert ChainOk(s, hasher, mask, c, g);
    q :| 0 <= q < |c| && c[q] == mp;
    assert q > 0;
    assert Used(s, c[q - 1]);
    assert s[c[q - 1]].next == c[q];
    forall u | 0 <= u < q - 1
      ensures Used(s, c[u]) && s[c[u]].next != mp
    {
      assert Used(s, c[u]);
      assert s[c[u]].next == c[u + 1];
    }
  }

  /** The cursor may move to any position that keeps the cursor invariant. */
  lemma InvWithCursor<K, V>(s: seq<Node<K, V>>, mask: nat, hasher: K -> uint32, cachesHash: bool,
                            chains: seq<seq<nat>>, slotOf: map<K, nat>, cursor: nat, cursor': nat, size: nat)
    requires Inv(s, mask, hasher, cachesHash, chains, slotOf, cursor, size) && CursorOk(s, cursor')
    ensures Inv(s, mask, hasher, cachesHash, chains, slotOf, cursor', size)
  {
  }

  /** An unused slot means the table is not full. */
  lemma UnusedBelowCapacity<K, V>(s: seq<Node<K, V>>, i: nat)
    requires i < |s| && !s[i].flags.used
    ensures UsedCount(s) < |s|
  {
    UsedCountUpdate(s, i, s[i].(flags := UsedOnly));
  }

  // ---------------------------------------------------------------------------
  // The empty layout

  /** A freshly allocated array of unused nodes, with an empty layout and the
      cursor at 0, satisfies the invariant. */
  lemma EmptyInv<K, V>(s: seq<Node<K, V>>, hasher: K -> uint32, cachesHash: bool)
    requires |s| == 0 || (|s| >= 4 && IsPow2(|s|))
    requires forall i :: 0 <= i < |s| ==> !s[i].flags.used
    ensures Inv(s, MaskFor(|s|), hasher, cachesHash, seq(|s|, i => []), map[], 0, 0)
  {
    UsedCountFull(s);
    if |s| > 0 {
      assert !s[0].flags.used;
    }
    assert UsedCount(s) == 0 by {
      UsedZero(s);
    }
  }

  lemma {:induction false} UsedZero<K, V>(s: seq<Node<K, V>>)
    requires forall i :: 0 <= i < |s| ==> !s[i].flags.used
    ensures UsedCount(s) == 0
    decreases |s|
  {
    if |s| > 0 {
      UsedZero(s[..|s| - 1]);
    }
  }
}
