/** The effect of each restructuring step of `remove` on the layout invariant
    (src/croc/base/hash.hpp:171-216, 347-357). As for insertion, each lemma
    describes the node array after the step and the ghost layout under which
    the invariant holds again. */
module HashRemoval {
  import opened HashNodes
  import opened HashChains
  import opened HashSteps

  /** `markUnused` on a node: its used bit cleared, everything else kept. */
  function Cleared<K, V>(n: Node<K, V>): (r: Node<K, V>)
    ensures !r.flags.used && r.flags.keyModified == n.flags.keyModified && r.flags.valModified == n.flags.valModified
    ensures r.key == n.key && r.value == n.value && r.next == n.next && r.hash == n.hash
  {
    n.(flags := n.flags.(used := false))
  }

  /** The cursor after `markUnused` of slot `i`: moved back to `i` when `i` is below it. */
  function CursorAfterFree(cursor: nat, i: nat): (r: nat)
    ensures r <= cursor && r <= i && (r == cursor || r == i)
  {
    if i < cursor then i else cursor
  }

  /** Freeing slot `i` while every other changed slot stays used keeps the
      cursor invariant once the cursor is moved back. */
  lemma KeepCursorFreeing<K, V>(s: seq<Node<K, V>>, s': seq<Node<K, V>>, cursor: nat, d: set<nat>, i: nat)
    requires CursorOk(s, cursor) && DiffersOnlyAt(s, s', d) && i < |s|
    requires forall j :: j in d && j != i && j < cursor ==> Used(s', j)
    ensures CursorOk(s', CursorAfterFree(cursor, i))
  {
    var c' := CursorAfterFree(cursor, i);
    forall j | 0 <= j < c'
      ensures Used(s', j)
    {
      if j !in d {
        assert Used(s, j);
      }
    }
  }

  /** Freeing the only node of a chain whose head holds `key` (hash.hpp:183-185). */
  lemma OnlyNodeChains<K, V>(s: seq<Node<K, V>>, hasher: K -> uint32, mask: nat,
                             chains: seq<seq<nat>>, slotOf: map<K, nat>, key: K, n: nat)
    requires ChainsOk(s, hasher, mask, chains, slotOf) && SlotsOk(s, slotOf)
    requires key in slotOf && slotOf[key] == n && n == Home(hasher, mask, key) && s[n].next == |s|
    ensures n < |s| && chains[n] == [n]
    ensures ChainsOk(s[n := Cleared(s[n])], hasher, mask, chains[n := []], slotOf - {key})
  {
    var s' := s[n := Cleared(s[n])];
    var chains' := chains[n := []];
    var c := chains[n];
    assert n in c;
    assert ChainOk(s, hasher, mask, c, n);
    ChainHeadNext(s, hasher, mask, c, n);
    assert c == [n];
    assert DiffersOnlyAt(s, s', {n});
    OtherChainsKept(s, s', hasher, mask, chains, {n}, {n});
    forall h | 0 <= h < |chains'|
      ensures ChainOk(s', hasher, mask, chains'[h], h)
    {
      if h != n {
        assert chains'[h] == chains[h];
      }
    }
    forall k | k in slotOf - {key}
      ensures Home(hasher, mask, k) < |s'| && (slotOf - {key})[k] in chains'[Home(hasher, mask, k)]
    {
      assert slotOf[k] in chains[Home(hasher, mask, k)];
      assert slotOf[k] != n;
    }
  }

  /** Clearing a slot lowers the count and keeps the cached hashes right. */
  lemma FreeRest<K, V>(s: seq<Node<K, V>>, hasher: K -> uint32, cachesHash: bool,
                       slotOf: map<K, nat>, cursor: nat, size: nat, key: K, n: nat)
    requires CursorOk(s, cursor) && size == UsedCount(s) && SlotsOk(s, slotOf) && HashesOk(s, hasher, cachesHash)
    requires size == |slotOf| && key in slotOf && slotOf[key] == n
    ensures n < |s| && size > 0
    ensures var s' := s[n := Cleared(s[n])];
      && CursorOk(s', CursorAfterFree(cursor, n)) && UsedCount(s') == size - 1 && |slotOf - {key}| == size - 1
      && SlotsOk(s', slotOf - {key}) && HashesOk(s', hasher, cachesHash) && SameEntries(s, slotOf - {key}, s', slotOf - {key})
  {
    var s' := s[n := Cleared(s[n])];
    UsedCountUpdate(s, n, Cleared(s[n]));
    MapRemoveCard(slotOf, key);
    UnmarkSlots(s, slotOf, key, n);
    assert DiffersOnlyAt(s, s', {n});
    KeepCursorFreeing(s, s', cursor, {n}, n);
    KeepHashes(s, s', {n}, hasher, cachesHash);
  }

  /** The whole invariant after removing the only node of a chain. */
  lemma RemoveOnly<K, V>(s: seq<Node<K, V>>, mask: nat, hasher: K -> uint32, cachesHash: bool,
                         chains: seq<seq<nat>>, slotOf: map<K, nat>, cursor: nat, size: nat, key: K, n: nat)
    requires Inv(s, mask, hasher, cachesHash, chains, slotOf, cursor, size)
    requires key in slotOf && slotOf[key] == n && n == Home(hasher, mask, key) && s[n].next == |s|
    ensures n < |s| && size > 0
    ensures Inv(s[n := Cleared(s[n])], mask, hasher, cachesHash, chains[n := []], slotOf - {key},
                CursorAfterFree(cursor, n), size - 1)
    ensures SameEntries(s, slotOf - {key}, s[n := Cleared(s[n])], slotOf - {key})
  {
    OnlyNodeChains(s, hasher, mask, chains, slotOf, key, n);
    FreeRest(s, hasher, cachesHash, slotOf, cursor, size, key, n);
  }

  /** Removing the head `n` of a longer chain: the second member `x` is copied
      over the head and its own slot is freed (hash.hpp:186-192). */
  lemma PromoteChain<K, V>(s: seq<Node<K, V>>, hasher: K -> uint32, mask: nat, c: seq<nat>, n: nat)
    requires ChainOk(s, hasher, mask, c, n) && |c| >= 2
    ensures Used(s, c[0]) && Used(s, c[1]) && c[0] == n && c[1] != n
    ensures ChainOk(s[n := s[c[1]]][c[1] := Cleared(s[c[1]])], hasher, mask, c[1..][0 := n], n)
  {
    var x := c[1];
    assert Used(s, c[0]) && Used(s, c[1]);
    var s' := s[n := s[x]][x := Cleared(s[x])];
    var c' := c[1..][0 := n];
    forall j | 0 <= j < |c'|
      ensures Used(s', c'[j]) && Home(hasher, mask, s'[c'[j]].key) == n && s'[c'[j]].next == Succ(c', j, |s'|)
    {
      if j == 0 {
        assert s[c[1]].next == Succ(c, 1, |s|);
      } else {
        assert c'[j] == c[j + 1];
        assert Used(s, c[j + 1]);
        assert c[j + 1] != c[0] && c[j + 1] != c[1];
        assert s[c[j + 1]].next == Succ(c, j + 1, |s|);
      }
    }
    forall j1, j2 | 0 <= j1 < j2 < |c'|
      ensures c'[j1] != c'[j2]
    {
      assert c'[j2] == c[j2 + 1];
      if j1 > 0 {
        assert c'[j1] == c[j1 + 1];
      }
    }
  }

  /** The chains after removing the head of a longer chain. */
  lemma PromoteChains<K, V>(s: seq<Node<K, V>>, hasher: K -> uint32, mask: nat,
                            chains: seq<seq<nat>>, slotOf: map<K, nat>, key: K, n: nat)
    requires ChainsOk(s, hasher, mask, chains, slotOf) && SlotsOk(s, slotOf)
    requires key in slotOf && slotOf[key] == n && n == Home(hasher, mask, key) && s[n].next != |s|
    ensures n < |s| && |chains[n]| >= 2 && s[n].next == chains[n][1] && Used(s, s[n].next) && s[n].next != n
    ensures var x := s[n].next;
      ChainsOk(s[n := s[x]][x := Cleared(s[x])], hasher, mask,
               chains[n := chains[n][1..][0 := n]], (slotOf - {key})[s[x].key := n])
  {
    var c := chains[n];
    assert n in c;
    assert ChainOk(s, hasher, mask, c, n);
    ChainHeadNext(s, hasher, mask, c, n);
    var x := c[1];
    PromoteChain(s, hasher, mask, c, n);
    var s' := s[n := s[x]][x := Cleared(s[x])];
    var c' := c[1..][0 := n];
    var chains' := chains[n := c'];
    var slotOf' := (slotOf - {key})[s[x].key := n];
    assert DiffersOnlyAt(s, s', {n, x});
    assert Home(hasher, mask, s[x].key) == n;
    OtherChainsKept(s, s', hasher, mask, chains, {n, x}, {n});
    PromoteMembership(s, hasher, mask, chains, slotOf, key, n);
    AssembleChains(s', hasher, mask, chains, c', slotOf', n);
  }

  /** Every key stays on its home's chain when the head of chain `n` is
      removed and its successor's key moves into slot `n`. */
  lemma PromoteMembership<K, V>(s: seq<Node<K, V>>, hasher: K -> uint32, mask: nat,
                                chains: seq<seq<nat>>, slotOf: map<K, nat>, key: K, n: nat)
    requires ChainsOk(s, hasher, mask, chains, slotOf) && SlotsOk(s, slotOf)
    requires key in slotOf && slotOf[key] == n && n == Home(hasher, mask, key) && n < |s|
    requires |chains[n]| >= 2 && s[n].next == chains[n][1]
    ensures var x := s[n].next; var c := chains[n];
      x < |s| && forall k :: k in (slotOf - {key})[s[x].key := n] ==>
        && Home(hasher, mask, k) < |s|
        && (slotOf - {key})[s[x].key := n][k] in chains[n := c[1..][0 := n]][Home(hasher, mask, k)]
  {
    var c := chains[n];
    assert ChainOk(s, hasher, mask, c, n);
    var x := c[1];
    assert Used(s, x) && Home(hasher, mask, s[x].key) == n;
    var c' := c[1..][0 := n];
    var chains' := chains[n := c'];
    var slotOf' := (slotOf - {key})[s[x].key := n];
    forall k | k in slotOf'
      ensures Home(hasher, mask, k) < |s| && slotOf'[k] in chains'[Home(hasher, mask, k)]
    {
      if k != s[x].key {
        var hk := Home(hasher, mask, k);
        assert slotOf[k] in chains[hk];
        if hk == n {
          assert slotOf[k] != n && slotOf[k] != x;
          var j :| 0 <= j < |c| && c[j] == slotOf[k];
          assert j >= 2;
          assert c'[j - 1] == slotOf[k];
        }
      } else {
        assert c'[0] == n;
      }
    }
  }

  /** Counts, slots, cursor and hashes after removing the head of a longer chain. */
  lemma PromoteRest<K, V>(s: seq<Node<K, V>>, hasher: K -> uint32, cachesHash: bool,
                          slotOf: map<K, nat>, cursor: nat, size: nat, key: K, n: nat, x: nat)
    requires CursorOk(s, cursor) && size == UsedCount(s) && SlotsOk(s, slotOf) && HashesOk(s, hasher, cachesHash)
    requires size == |slotOf| && key in slotOf && slotOf[key] == n && Used(s, x) && x != n
    ensures n < |s| && size > 0
    ensures var s' := s[n := s[x]][x := Cleared(s[x])];
      var slotOf' := (slotOf - {key})[s[x].key := n];
      && CursorOk(s', CursorAfterFree(cursor, x)) && UsedCount(s') == size - 1 && |slotOf'| == size - 1
      && SlotsOk(s', slotOf') && HashesOk(s', hasher, cachesHash) && SameEntries(s, slotOf - {key}, s', slotOf')
  {
    PromoteSlots(s, slotOf, key, n, x);
    PromoteCount(s, slotOf, size, key, n, x);
    PromoteFrame(s, hasher, cachesHash, cursor, n, x);
  }

  lemma PromoteCount<K, V>(s: seq<Node<K, V>>, slotOf: map<K, nat>, size: nat, key: K, n: nat, x: nat)
    requires size == UsedCount(s) && size == |slotOf| && key in slotOf && n < |s| && Used(s, n) && Used(s, x)
    requires s[x].key != key && s[x].key in slotOf && x != n
    ensures UsedCount(s[n := s[x]][x := Cleared(s[x])]) == size - 1 && |(slotOf - {key})[s[x].key := n]| == size - 1
  {
    var s1 := s[n := s[x]];
    UsedCountUpdate(s, n, s[x]);
    UsedCountUpdate(s1, x, Cleared(s[x]));
    MapRemoveCard(slotOf, key);
    assert s[x].key in slotOf - {key};
  }

  lemma PromoteFrame<K, V>(s: seq<Node<K, V>>, hasher: K -> uint32, cachesHash: bool, cursor: nat, n: nat, x: nat)
    requires CursorOk(s, cursor) && HashesOk(s, hasher, cachesHash) && n < |s| && Used(s, x)
    ensures var s' := s[n := s[x]][x := Cleared(s[x])];
      CursorOk(s', CursorAfterFree(cursor, x)) && HashesOk(s', hasher, cachesHash)
  {
    var s' := s[n := s[x]][x := Cleared(s[x])];
    assert DiffersOnlyAt(s, s', {n, x});
    KeepCursorFreeing(s, s', cursor, {n, x}, x);
    KeepHashes(s, s', {n, x}, hasher, cachesHash);
  }

  /** The whole invariant after removing the head of a longer chain. */
  lemma RemovePromote<K, V>(s: seq<Node<K, V>>, mask: nat, hasher: K -> uint32, cachesHash: bool,
                            chains: seq<seq<nat>>, slotOf: map<K, nat>, cursor: nat, size: nat, key: K, n: nat)
    requires Inv(s, mask, hasher, cachesHash, chains, slotOf, cursor, size)
    requires key in slotOf && slotOf[key] == n && n == Home(hasher, mask, key) && s[n].next != |s|
    ensures n < |s| && size > 0 && |chains[n]| >= 2 && Used(s, s[n].next) && s[n].next != n
    ensures var x := s[n].next;
      var s' := s[n := s[x]][x := Cleared(s[x])];
      var slotOf' := (slotOf - {key})[s[x].key := n];
      && Inv(s', mask, hasher, cachesHash, chains[n := chains[n][1..][0 := n]], slotOf', CursorAfterFree(cursor, x), size - 1)
      && SameEntries(s, slotOf - {key}, s', slotOf')
  {
    PromoteChains(s, hasher, mask, chains, slotOf, key, n);
    PromoteRest(s, hasher, cachesHash, slotOf, cursor, size, key, n, s[n].next);
  }

  /** `c` without its member at position `i`. */
  function RemoveAt(c: seq<nat>, i: nat): (r: seq<nat>)
    requires i < |c|
    ensures |r| == |c| - 1
    ensures forall k :: 0 <= k < |r| ==> r[k] == if k < i then c[k] else c[k + 1]
  {
    c[..i] + c[i + 1..]
  }

  /** Unlinking the member after position `j` of chain `c`: it is freed and
      its predecessor takes over its link (hash.hpp:198-208). */
  lemma UnlinkChain<K, V>(s: seq<Node<K, V>>, hasher: K -> uint32, mask: nat, c: seq<nat>, g: nat, j: nat)
    requires ChainOk(s, hasher, mask, c, g) && j + 1 < |c|
    ensures Used(s, c[j]) && Used(s, c[j + 1]) && c[j] != c[j + 1]
    ensures ChainOk(s[c[j + 1] := Cleared(s[c[j + 1]])][c[j] := s[c[j]].(next := s[c[j + 1]].next)],
                    hasher, mask, RemoveAt(c, j + 1), g)
  {
    var x, nd := c[j + 1], c[j];
    assert Used(s, nd) && Used(s, x);
    var s' := s[x := Cleared(s[x])][nd := s[nd].(next := s[x].next)];
    var c' := RemoveAt(c, j + 1);
    forall i | 0 <= i < |c'|
      ensures Used(s', c'[i]) && Home(hasher, mask, s'[c'[i]].key) == g && s'[c'[i]].next == Succ(c', i, |s'|)
    {
      UnlinkMember(s, hasher, mask, c, g, j, i);
    }
    RemoveAtDistinct(c, j + 1);
  }

  /** Member `i` of the chain after the unlink is used, on the right home,
      and linked to the member after it. */
  lemma UnlinkMember<K, V>(s: seq<Node<K, V>>, hasher: K -> uint32, mask: nat, c: seq<nat>, g: nat, j: nat, i: nat)
    requires ChainOk(s, hasher, mask, c, g) && j + 1 < |c| && i < |c| - 1
    ensures Used(s, c[j]) && Used(s, c[j + 1])
    ensures var s' := s[c[j + 1] := Cleared(s[c[j + 1]])][c[j] := s[c[j]].(next := s[c[j + 1]].next)];
      var c' := RemoveAt(c, j + 1);
      Used(s', c'[i]) && Home(hasher, mask, s'[c'[i]].key) == g && s'[c'[i]].next == Succ(c', i, |s'|)
  {
    var x, nd := c[j + 1], c[j];
    assert Used(s, nd) && Used(s, x);
    var c' := RemoveAt(c, j + 1);
    if i < j {
      assert Used(s, c[i]) && c[i] != x && c[i] != nd;
      assert s[c[i]].next == Succ(c, i, |s|);
    } else if i == j {
      assert s[x].next == Succ(c, j + 1, |s|);
    } else {
      assert Used(s, c[i + 1]) && c[i + 1] != x && c[i + 1] != nd;
      assert s[c[i + 1]].next == Succ(c, i + 1, |s|);
    }
  }

  /** Dropping a member keeps the members of a chain distinct. */
  lemma RemoveAtDistinct(c: seq<nat>, i: nat)
    requires i < |c| && forall j1, j2 :: 0 <= j1 < j2 < |c| ==> c[j1] != c[j2]
    ensures var r := RemoveAt(c, i); forall j1, j2 :: 0 <= j1 < j2 < |r| ==> r[j1] != r[j2]
  {
    var r := RemoveAt(c, i);
    forall j1, j2 | 0 <= j1 < j2 < |r|
      ensures r[j1] != r[j2]
    {
      var k1 := if j1 < i then j1 else j1 + 1;
      var k2 := if j2 < i then j2 else j2 + 1;
      assert r[j1] == c[k1] && r[j2] == c[k2] && k1 < k2;
    }
  }

  /** The chains after unlinking the node that holds `key` from the middle or
      the end of its chain. */
  lemma UnlinkChains<K, V>(s: seq<Node<K, V>>, hasher: K -> uint32, mask: nat,
                           chains: seq<seq<nat>>, slotOf: map<K, nat>, key: K, g: nat, j: nat)
    requires ChainsOk(s, hasher, mask, chains, slotOf) && SlotsOk(s, slotOf)
    requires key in slotOf && g == Home(hasher, mask, key) && g < |s|
    requires j + 1 < |chains[g]| && chains[g][j + 1] == slotOf[key]
    ensures Used(s, chains[g][j]) && Used(s, chains[g][j + 1])
    ensures var c := chains[g];
      ChainsOk(s[c[j + 1] := Cleared(s[c[j + 1]])][c[j] := s[c[j]].(next := s[c[j + 1]].next)], hasher, mask,
               chains[g := RemoveAt(c, j + 1)], slotOf - {key})
  {
    var c := chains[g];
    assert ChainOk(s, hasher, mask, c, g);
    UnlinkChain(s, hasher, mask, c, g, j);
    var x, nd := c[j + 1], c[j];
    var s' := s[x := Cleared(s[x])][nd := s[nd].(next := s[x].next)];
    assert DiffersOnlyAt(s, s', {x, nd});
    OtherChainsKept(s, s', hasher, mask, chains, {x, nd}, {g});
    UnlinkMembership(s, hasher, mask, chains, slotOf, key, g, j);
    AssembleChains(s', hasher, mask, chains, RemoveAt(c, j + 1), slotOf - {key}, g);
  }

  /** The chain of home `g` replaced by `c'`: the chains are sound again when
      `c'` is, the other chains are, and every key is on its home's chain. */
  lemma AssembleChains<K, V>(s': seq<Node<K, V>>, hasher: K -> uint32, mask: nat,
                             chains: seq<seq<nat>>, c': seq<nat>, slotOf': map<K, nat>, g: nat)
    requires |chains| == |s'| && g < |chains| && ChainOk(s', hasher, mask, c', g)
    requires forall h :: 0 <= h < |chains| && h !in {g} ==> ChainOk(s', hasher, mask, chains[h], h)
    requires forall k :: k in slotOf' ==> Home(hasher, mask, k) < |s'| && slotOf'[k] in chains[g := c'][Home(hasher, mask, k)]
    ensures ChainsOk(s', hasher, mask, chains[g := c'], slotOf')
  {
    var chains' := chains[g := c'];
    forall h | 0 <= h < |chains'|
      ensures ChainOk(s', hasher, mask, chains'[h], h)
    {
      if h != g {
        assert chains'[h] == chains[h];
      }
    }
  }

  /** Every other present key stays on its home's chain after unlinking. */
  lemma UnlinkMembership<K, V>(s: seq<Node<K, V>>, hasher: K -> uint32, mask: nat,
                               chains: seq<seq<nat>>, slotOf: map<K, nat>, key: K, g: nat, j: nat)
    requires ChainsOk(s, hasher, mask, chains, slotOf) && SlotsOk(s, slotOf)
    requires key in slotOf && g == Home(hasher, mask, key) && g < |s|
    requires j + 1 < |chains[g]| && chains[g][j + 1] == slotOf[key]
    ensures var chains' := chains[g := RemoveAt(chains[g], j + 1)];
      forall k :: k in slotOf - {key} ==>
        Home(hasher, mask, k) < |s| && (slotOf - {key})[k] in chains'[Home(hasher, mask, k)]
  {
    var c := chains[g];
    var c' := RemoveAt(c, j + 1);
    var chains' := chains[g := c'];
    forall k | k in slotOf - {key}
      ensures Home(hasher, mask, k) < |s| && (slotOf - {key})[k] in chains'[Home(hasher, mask, k)]
    {
      var hk := Home(hasher, mask, k);
      assert slotOf[k] in chains[hk];
      if hk == g {
        assert slotOf[k] != slotOf[key];
        var i :| 0 <= i < |c| && c[i] == slotOf[k];
        if i < j + 1 {
          assert c'[i] == slotOf[k];
        } else {
          assert c'[i - 1] == slotOf[k];
        }
      }
    }
  }

  /** Counts, slots, cursor and hashes after unlinking. */
  lemma UnlinkRest<K, V>(s: seq<Node<K, V>>, hasher: K -> uint32, cachesHash: bool,
                         slotOf: map<K, nat>, cursor: nat, size: nat, key: K, x: nat, nd: nat)
    requires CursorOk(s, cursor) && size == UsedCount(s) && SlotsOk(s, slotOf) && HashesOk(s, hasher, cachesHash)
    requires size == |slotOf| && key in slotOf && slotOf[key] == x && Used(s, nd) && x != nd
    ensures x < |s| && size > 0
    ensures var s' := s[x := Cleared(s[x])][nd := s[nd].(next := s[x].next)];
      && CursorOk(s', CursorAfterFree(cursor, x)) && UsedCount(s') == size - 1 && |slotOf - {key}| == size - 1
      && SlotsOk(s', slotOf - {key}) && HashesOk(s', hasher, cachesHash) && SameEntries(s, slotOf - {key}, s', slotOf - {key})
  {
    UnlinkEntries(s, slotOf, key, x, nd);
    var s1 := s[x := Cleared(s[x])];
    UsedCountUpdate(s, x, Cleared(s[x]));
    UsedCountUpdate(s1, nd, s1[nd].(next := s[x].next));
    MapRemoveCard(slotOf, key);
    UnlinkFrame(s, hasher, cachesHash, cursor, x, nd);
  }

  lemma UnlinkEntries<K, V>(s: seq<Node<K, V>>, slotOf: map<K, nat>, key: K, x: nat, nd: nat)
    requires SlotsOk(s, slotOf) && key in slotOf && slotOf[key] == x && Used(s, nd) && x != nd
    ensures x < |s|
    ensures var s' := s[x := Cleared(s[x])][nd := s[nd].(next := s[x].next)];
      SlotsOk(s', slotOf - {key}) && SameEntries(s, slotOf - {key}, s', slotOf - {key})
  {
    var s1 := s[x := Cleared(s[x])];
    UnmarkSlots(s, slotOf, key, x);
    RelinkSlots(s1, slotOf - {key}, nd, s[x].next);
    SameEntriesTrans(s, slotOf - {key}, s1, slotOf - {key}, s1[nd := s[nd].(next := s[x].next)], slotOf - {key});
  }

  lemma UnlinkFrame<K, V>(s: seq<Node<K, V>>, hasher: K -> uint32, cachesHash: bool, cursor: nat, x: nat, nd: nat)
    requires CursorOk(s, cursor) && HashesOk(s, hasher, cachesHash) && x < |s| && Used(s, nd) && x != nd
    ensures var s' := s[x := Cleared(s[x])][nd := s[nd].(next := s[x].next)];
      CursorOk(s', CursorAfterFree(cursor, x)) && HashesOk(s', hasher, cachesHash)
  {
    var s' := s[x := Cleared(s[x])][nd := s[nd].(next := s[x].next)];
    assert DiffersOnlyAt(s, s', {x, nd});
    KeepCursorFreeing(s, s', cursor, {x, nd}, x);
    KeepHashes(s, s', {x, nd}, hasher, cachesHash);
  }

  /** The whole invariant after unlinking the node that holds `key`, found
      after position `j` of the chain of its home `g`. */
  lemma RemoveUnlink<K, V>(s: seq<Node<K, V>>, mask: nat, hasher: K -> uint32, cachesHash: bool,
                           chains: seq<seq<nat>>, slotOf: map<K, nat>, cursor: nat, size: nat,
                           key: K, g: nat, j: nat)
    requires Inv(s, mask, hasher, cachesHash, chains, slotOf, cursor, size)
    requires key in slotOf && g == Home(hasher, mask, key) && g < |s|
    requires j + 1 < |chains[g]| && chains[g][j + 1] == slotOf[key]
    ensures Used(s, chains[g][j]) && Used(s, chains[g][j + 1]) && size > 0
    ensures var c := chains[g];
      var s' := s[c[j + 1] := Cleared(s[c[j + 1]])][c[j] := s[c[j]].(next := s[c[j + 1]].next)];
      && Inv(s', mask, hasher, cachesHash, chains[g := RemoveAt(c, j + 1)], slotOf - {key},
             CursorAfterFree(cursor, c[j + 1]), size - 1)
      && SameEntries(s, slotOf - {key}, s', slotOf - {key})
  {
    UnlinkChains(s, hasher, mask, chains, slotOf, key, g, j);
    assert ChainOk(s, hasher, mask, chains[g], g);
    UnlinkRest(s, hasher, cachesHash, slotOf, cursor, size, key, chains[g][j + 1], chains[g][j]);
  }

  /** What removing the present `key` from the layout `s` leaves behind: the
      new layout `s'` keeps the invariant with one entry fewer, the key is
      gone and every other entry is kept. */
  ghost predicate Dropped<K, V>(s: seq<Node<K, V>>, slotOf: map<K, nat>, s': seq<Node<K, V>>, mask: nat,
                                hasher: K -> uint32, cachesHash: bool, chains': seq<seq<nat>>, slotOf': map<K, nat>,
                                cursor': nat, size': nat, key: K)
  {
    && |s'| == |s|
    && Inv(s', mask, hasher, cachesHash, chains', slotOf', cursor', size')
    && ValuesOf(s', slotOf') == ValuesOf(s, slotOf) - {key}
    && FlagsOf(s', slotOf') == FlagsOf(s, slotOf) - {key}
  }

  /** Removing an absent key leaves the layout as it is. */
  lemma DroppedAbsent<K, V>(s: seq<Node<K, V>>, mask: nat, hasher: K -> uint32, cachesHash: bool,
                            chains: seq<seq<nat>>, slotOf: map<K, nat>, cursor: nat, size: nat, key: K)
    requires Inv(s, mask, hasher, cachesHash, chains, slotOf, cursor, size) && key !in slotOf
    ensures Dropped(s, slotOf, s, mask, hasher, cachesHash, chains, slotOf, cursor, size, key)
  {
    EntriesKeys(s, slotOf);
    MinusAbsent(ValuesOf(s, slotOf), key);
    MinusAbsent(FlagsOf(s, slotOf), key);
  }

  /** Taking away a key a map does not have leaves the map as it is. */
  lemma MinusAbsent<T, W>(m: map<T, W>, k: T)
    requires k !in m
    ensures m - {k} == m
  {
    assert (m - {k}).Keys == m.Keys;
  }
}
