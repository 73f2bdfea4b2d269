/** The chain walks of `lookupNode` and `remove` (src/croc/base/hash.hpp:171-216,
    243-260), stated over the node array as a sequence: the walk state, how a
    walk starts, and what one step and each way out of the loop tell. */
module HashWalk {
  import opened Bits
  import opened HashNodes
  import opened HashChains

  /** Walk state of a search for `key` with hash `h` that stands at slot `i`
      after `t` steps: when `i` is used it is member `t` of the chain `c` of
      home `g`; and when the hash is the key's own and the key is present, the
      walk is on the key's chain and has not passed the key's slot (`done`
      counts the members already compared). */
  ghost predicate WalkState<K, V>(s: seq<Node<K, V>>, mask: nat, hasher: K -> uint32,
                                  chains: seq<seq<nat>>, slotOf: map<K, nat>,
                                  key: K, h: uint32, i: nat, g: nat, c: seq<nat>, t: nat, done: nat)
  {
    && i < |s| && t <= |c| && done <= t + 1
    && (s[i].flags.used ==> g < |chains| && c == chains[g] && t < |c| && c[t] == i)
    && (h == hasher(key) && key in slotOf ==>
          && s[i].flags.used && g == Home(hasher, mask, key)
          && forall u :: 0 <= u < done ==> c[u] != slotOf[key])
  }

  /** The walk starts at slot `hash & mask`, with nothing compared yet. */
  lemma WalkStart<K, V>(s: seq<Node<K, V>>, mask: nat, hasher: K -> uint32, cachesHash: bool,
                        chains: seq<seq<nat>>, slotOf: map<K, nat>, cursor: nat, size: nat,
                        key: K, h: uint32) returns (g: nat, c: seq<nat>, t: nat)
    requires Inv(s, mask, hasher, cachesHash, chains, slotOf, cursor, size) && |s| > 0
    ensures BitAnd(h as nat, mask) < |s|
    ensures WalkState(s, mask, hasher, chains, slotOf, key, h, BitAnd(h as nat, mask), g, c, t, 0)
    ensures h == hasher(key) && key in slotOf ==> t == 0
  {
    var i := BitAnd(h as nat, mask);
    assert i <= mask < |s|;
    g, c, t := 0, [], 0;
    if s[i].flags.used {
      g := Home(hasher, mask, s[i].key);
      UsedOnItsChain(s, mask, hasher, cachesHash, chains, slotOf, cursor, size, i);
      c := chains[g];
      t :| 0 <= t < |c| && c[t] == i;
    }
    if h == hasher(key) && key in slotOf {
      PresentKeyHead(s, mask, hasher, cachesHash, chains, slotOf, cursor, size, key);
      assert c[0] == i;
    }
  }

  /** A node that `equals` the key holds the key; with the key's own hash it
      is the key's slot. */
  lemma WalkFound<K, V>(s: seq<Node<K, V>>, mask: nat, hasher: K -> uint32, cachesHash: bool,
                        chains: seq<seq<nat>>, slotOf: map<K, nat>, cursor: nat, size: nat,
                        key: K, h: uint32, i: nat)
    requires Inv(s, mask, hasher, cachesHash, chains, slotOf, cursor, size)
    requires Used(s, i) && Equals(s[i], key, h, cachesHash)
    ensures s[i].key == key && key in slotOf && slotOf[key] == i
  {
  }

  /** A used node that does not `equals` the key, looked at with the key's own
      hash, is not the key's slot. */
  lemma WalkMiss<K, V>(s: seq<Node<K, V>>, mask: nat, hasher: K -> uint32, cachesHash: bool,
                       chains: seq<seq<nat>>, slotOf: map<K, nat>, cursor: nat, size: nat,
                       key: K, h: uint32, i: nat)
    requires Inv(s, mask, hasher, cachesHash, chains, slotOf, cursor, size)
    requires Used(s, i) && !Equals(s[i], key, h, cachesHash) && h == hasher(key) && key in slotOf
    ensures slotOf[key] != i
  {
    EqualsIsKeyEquality(s[i], key, hasher, cachesHash);
  }

  /** Following the link of a used node that is not the end of its chain
      moves to the next member, and the comparison just made is kept. */
  lemma WalkStep<K, V>(s: seq<Node<K, V>>, mask: nat, hasher: K -> uint32, cachesHash: bool,
                       chains: seq<seq<nat>>, slotOf: map<K, nat>, cursor: nat, size: nat,
                       key: K, h: uint32, i: nat, g: nat, c: seq<nat>, t: nat, done: nat)
    requires Inv(s, mask, hasher, cachesHash, chains, slotOf, cursor, size)
    requires WalkState(s, mask, hasher, chains, slotOf, key, h, i, g, c, t, done)
    requires Used(s, i) && s[i].next != |s|
    requires h == hasher(key) && key in slotOf ==> slotOf[key] != i || done == t + 1
    ensures t + 1 < |c| && s[i].next == c[t + 1] && Used(s, s[i].next)
    ensures WalkState(s, mask, hasher, chains, slotOf, key, h, s[i].next, g, c, t + 1, if done == t + 1 then t + 1 else done)
  {
    assert ChainOk(s, hasher, mask, c, g);
    assert Used(s, c[t]) && s[c[t]].next == Succ(c, t, |s|);
    assert Used(s, c[t + 1]);
  }

  /** Comparing the node the walk stands at, and finding it is not the key,
      extends what has been compared. */
  lemma WalkCompared<K, V>(s: seq<Node<K, V>>, mask: nat, hasher: K -> uint32,
                           chains: seq<seq<nat>>, slotOf: map<K, nat>,
                           key: K, h: uint32, i: nat, g: nat, c: seq<nat>, t: nat)
    requires WalkState(s, mask, hasher, chains, slotOf, key, h, i, g, c, t, t)
    requires h == hasher(key) && key in slotOf ==> slotOf[key] != i
    ensures WalkState(s, mask, hasher, chains, slotOf, key, h, i, g, c, t, t + 1)
  {
  }

  /** A walk that has compared its whole chain, or stands at an unused slot,
      proves the key absent. */
  lemma WalkEnd<K, V>(s: seq<Node<K, V>>, mask: nat, hasher: K -> uint32, cachesHash: bool,
                      chains: seq<seq<nat>>, slotOf: map<K, nat>, cursor: nat, size: nat,
                      key: K, h: uint32, i: nat, g: nat, c: seq<nat>, t: nat)
    requires Inv(s, mask, hasher, cachesHash, chains, slotOf, cursor, size)
    requires WalkState(s, mask, hasher, chains, slotOf, key, h, i, g, c, t, t + 1)
    requires !s[i].flags.used || s[i].next == |s|
    requires h == hasher(key)
    ensures key !in slotOf
  {
    ChainMembersInRange(s, hasher, mask, chains, slotOf);
  }

  /** One step of `lookupNode` past a used node that is not the key: either
      the chain ends there and, with the key's own hash, the key is absent;
      or the walk moves on to the next member with everything so far compared. */
  lemma WalkNext<K, V>(s: seq<Node<K, V>>, mask: nat, hasher: K -> uint32, cachesHash: bool,
                       chains: seq<seq<nat>>, slotOf: map<K, nat>, cursor: nat, size: nat,
                       key: K, h: uint32, i: nat, g: nat, c: seq<nat>, t: nat)
    requires Inv(s, mask, hasher, cachesHash, chains, slotOf, cursor, size)
    requires WalkState(s, mask, hasher, chains, slotOf, key, h, i, g, c, t, t)
    requires Used(s, i) && !Equals(s[i], key, h, cachesHash)
    ensures s[i].next == |s| && h == hasher(key) ==> key !in slotOf
    ensures s[i].next != |s| ==>
      && t + 1 < |c| && s[i].next < |s|
      && WalkState(s, mask, hasher, chains, slotOf, key, h, s[i].next, g, c, t + 1, t + 1)
  {
    if h == hasher(key) && key in slotOf {
      WalkMiss(s, mask, hasher, cachesHash, chains, slotOf, cursor, size, key, h, i);
    }
    WalkCompared(s, mask, hasher, chains, slotOf, key, h, i, g, c, t);
    if s[i].next == |s| {
      if h == hasher(key) {
        WalkEnd(s, mask, hasher, cachesHash, chains, slotOf, cursor, size, key, h, i, g, c, t);
      }
    } else {
      WalkStep(s, mask, hasher, cachesHash, chains, slotOf, cursor, size, key, h, i, g, c, t, t + 1);
    }
  }

  /** State of the loop of `remove` for `key`, standing at the compared slot
      `i`, member `t` of the chain `c` of home `g`: when the key is present,
      this is the key's chain and the key lies further down it. */
  ghost predicate Seeking<K, V>(s: seq<Node<K, V>>, mask: nat, hasher: K -> uint32,
                                chains: seq<seq<nat>>, slotOf: map<K, nat>,
                                key: K, i: nat, g: nat, c: seq<nat>, t: nat)
  {
    && i < |s| && Used(s, i) && s[i].next <= |s|
    && g < |chains| && c == chains[g] && t < |c| && c[t] == i
    && (key in slotOf ==> g == Home(hasher, mask, key) && slotOf[key] in c[t + 1..])
  }

  /** The loop of `remove` starts past the head, which is used and has been
      compared and found not to hold the key. */
  lemma SeekStart<K, V>(s: seq<Node<K, V>>, mask: nat, hasher: K -> uint32, cachesHash: bool,
                        chains: seq<seq<nat>>, slotOf: map<K, nat>, cursor: nat, size: nat,
                        key: K, h: uint32) returns (g: nat, c: seq<nat>, t: nat)
    requires Inv(s, mask, hasher, cachesHash, chains, slotOf, cursor, size) && |s| > 0 && h == hasher(key)
    requires BitAnd(h as nat, mask) < |s| && Used(s, BitAnd(h as nat, mask))
    requires !Equals(s[BitAnd(h as nat, mask)], key, h, cachesHash)
    ensures Seeking(s, mask, hasher, chains, slotOf, key, BitAnd(h as nat, mask), g, c, t)
  {
    var i := BitAnd(h as nat, mask);
    g, c, t := WalkStart(s, mask, hasher, cachesHash, chains, slotOf, cursor, size, key, h);
    assert ChainOk(s, hasher, mask, c, g);
    assert s[c[t]].next == Succ(c, t, |s|);
    if t + 1 < |c| {
      assert Used(s, c[t + 1]);
    }
    if key in slotOf {
      WalkMiss(s, mask, hasher, cachesHash, chains, slotOf, cursor, size, key, h, i);
      var q :| 0 <= q < |c| && c[q] == slotOf[key];
      assert q != 0;
      assert c[1..][q - 1] == slotOf[key];
    }
  }

  /** In the loop of `remove`, the link `x` of slot `i` leads to the node that
      holds the key: `i` is its predecessor on the key's chain. */
  lemma SeekFound<K, V>(s: seq<Node<K, V>>, mask: nat, hasher: K -> uint32, cachesHash: bool,
                        chains: seq<seq<nat>>, slotOf: map<K, nat>, cursor: nat, size: nat,
                        key: K, h: uint32, i: nat, x: nat, g: nat, c: seq<nat>, t: nat)
    requires Inv(s, mask, hasher, cachesHash, chains, slotOf, cursor, size) && h == hasher(key)
    requires Seeking(s, mask, hasher, chains, slotOf, key, i, g, c, t)
    requires x == s[i].next && x < |s| && Equals(s[x], key, h, cachesHash)
    ensures key in slotOf && slotOf[key] == x && g == Home(hasher, mask, key) && g < |s|
    ensures t + 1 < |chains[g]| && chains[g][t] == i && chains[g][t + 1] == x
  {
    assert ChainOk(s, hasher, mask, c, g);
    assert s[c[t]].next == Succ(c, t, |s|);
    assert Used(s, c[t + 1]);
    WalkFound(s, mask, hasher, cachesHash, chains, slotOf, cursor, size, key, h, x);
  }

  /** In the loop of `remove`, the link `x` of slot `i` leads to a node that
      does not hold the key: the walk moves on to it. */
  lemma SeekMissed<K, V>(s: seq<Node<K, V>>, mask: nat, hasher: K -> uint32, cachesHash: bool,
                         chains: seq<seq<nat>>, slotOf: map<K, nat>, cursor: nat, size: nat,
                         key: K, h: uint32, i: nat, x: nat, g: nat, c: seq<nat>, t: nat, t': nat)
    requires Inv(s, mask, hasher, cachesHash, chains, slotOf, cursor, size) && h == hasher(key)
    requires Seeking(s, mask, hasher, chains, slotOf, key, i, g, c, t)
    requires x == s[i].next && x < |s| && !Equals(s[x], key, h, cachesHash) && t' == t + 1
    ensures Seeking(s, mask, hasher, chains, slotOf, key, x, g, c, t')
  {
    assert ChainOk(s, hasher, mask, c, g);
    assert s[c[t]].next == Succ(c, t, |s|);
    assert Used(s, c[t + 1]);
    assert s[c[t + 1]].next == Succ(c, t + 1, |s|);
    if t + 2 < |c| {
      assert Used(s, c[t + 2]);
    }
    if key in slotOf {
      WalkMiss(s, mask, hasher, cachesHash, chains, slotOf, cursor, size, key, h, x);
      InLaterSuffix(c, t + 1, slotOf[key]);
    }
  }

  /** A member of the suffix from `u` other than its first element is in the
      suffix from `u + 1`. */
  lemma InLaterSuffix(c: seq<nat>, u: nat, v: nat)
    requires u < |c| && v in c[u..] && v != c[u]
    ensures v in c[u + 1..]
  {
    assert c[u..] == [c[u]] + c[u + 1..];
  }

  /** The loop of `remove` stops at a slot whose link ends the chain: the key
      is absent. (The link never leads to an unused slot.) */
  lemma SeekEnd<K, V>(s: seq<Node<K, V>>, mask: nat, hasher: K -> uint32,
                      chains: seq<seq<nat>>, slotOf: map<K, nat>, key: K, i: nat, g: nat, c: seq<nat>, t: nat)
    requires ChainsOk(s, hasher, mask, chains, slotOf)
    requires Seeking(s, mask, hasher, chains, slotOf, key, i, g, c, t)
    requires !(s[i].next != |s| && s[s[i].next].flags.used)
    ensures key !in slotOf
  {
    assert ChainOk(s, hasher, mask, c, g);
    assert s[c[t]].next == Succ(c, t, |s|);
    if t + 1 < |c| {
      assert Used(s, c[t + 1]);
    }
  }
}
