/** The storage cell of the hash table, its flag word, and the two hashing
    strategies (src/croc/base/hash.hpp:9-69). */
module HashNodes {

  newtype uint32 = x: int | 0 <= x < 0x1_0000_0000

  /** The three independent bits of a node's `flags` word: `NodeFlags_Used`,
      `NodeFlags_KeyModified` and `NodeFlags_ValModified`. */
  datatype Flags = Flags(used: bool, keyModified: bool, valModified: bool)

  /** The word an insertion stores: used, with both modified bits cleared. */
  const UsedOnly: Flags := Flags(true, false, false)

  /** Either modified bit is set (what `nextModified` selects on). */
  predicate IsModified(f: Flags)
  {
    f.keyModified || f.valModified
  }

  /** One slot: key, value, the index of the next node of the chain (the
      array length means "end of chain"), the flag word, and the cached hash,
      which only the hash-caching node shape reads or writes. */
  datatype Node<K, V> = Node(key: K, value: V, next: nat, flags: Flags, hash: uint32)

  /** `DefaultHasher::toHash` for integer keys: a cast to `uint32`, which keeps
      the low 32 bits. */
  function DefaultHash(k: int): (r: uint32)
    ensures 0 <= k < 0x1_0000_0000 ==> r as int == k
    ensures exists q: int :: k == q * 0x1_0000_0000 + r as int
  {
    var r := k % 0x1_0000_0000;
    assert k == (k / 0x1_0000_0000) * 0x1_0000_0000 + r;
    r as uint32
  }

  /** Keys that differ by a multiple of 2^32 collide under the default hasher. */
  lemma DefaultHashWraps(k: int)
    ensures DefaultHash(k + 0x1_0000_0000) == DefaultHash(k)
  {
  }

  /** `init(hash)`: the caching shape records the hash, the plain shape ignores it. */
  function InitHash<K, V>(n: Node<K, V>, h: uint32, cachesHash: bool): (r: Node<K, V>)
    ensures r.key == n.key && r.value == n.value && r.next == n.next && r.flags == n.flags
    ensures cachesHash ==> r.hash == h
    ensures !cachesHash ==> r == n
  {
    if cachesHash then n.(hash := h) else n
  }

  /** `equals(key, hash)`: the caching shape compares the hashes first. */
  function Equals<K(==), V>(n: Node<K, V>, key: K, h: uint32, cachesHash: bool): (r: bool)
    ensures r ==> n.key == key
    ensures r ==> !cachesHash || n.hash == h
  {
    (!cachesHash || n.hash == h) && n.key == key
  }

  /** With a faithful cached hash and the key's own hash, `equals` is key equality. */
  lemma EqualsIsKeyEquality<K, V>(n: Node<K, V>, key: K, hasher: K -> uint32, cachesHash: bool)
    requires cachesHash ==> n.hash == hasher(n.key)
    ensures Equals(n, key, hasher(key), cachesHash) <==> n.key == key
  {
  }

  /** `copyFrom(other)`: the value, and on the caching shape also the hash. */
  function CopyFrom<K, V>(n: Node<K, V>, other: Node<K, V>, cachesHash: bool): (r: Node<K, V>)
    ensures r.key == n.key && r.next == n.next && r.flags == n.flags && r.value == other.value
    ensures r.hash == if cachesHash then other.hash else n.hash
  {
    if cachesHash then n.(value := other.value, hash := other.hash) else n.(value := other.value)
  }
}
