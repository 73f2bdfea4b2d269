/** The string interner of src/croc/types/string.cpp: the runtime keeps one
    `String` object per distinct byte content, in the table `stringTab`
    (a `croc::Hash` keyed by content), so that equal contents mean the same
    object. */
module Strings {
  import opened HashNodes
  import opened HashChains
  import opened HashTable

  type Bytes = seq<bv8>

  /** A `String` object: its content hash, its length in code points and
      its bytes, whose count is its `length`. Its fields never change once it
      is created. */
  class Str {
    const hash: uint32
    const cpLength: nat
    const data: Bytes
    const length: nat := |data|

    /** The allocation and field setting of `create`. */
    constructor (data: Bytes, h: uint32, cpLen: nat)
      ensures hash == h && length == |data| && cpLength == cpLen && this.data == data
    {
      hash := h;
      cpLength := cpLen;
      this.data := data;
    }
  }

  /** Every entry of `m` is an object whose content is the entry's key. */
  ghost predicate Canonical(m: map<Bytes, Str?>)
  {
    forall k :: k in m ==> m[k] != null && m[k].data == k
  }

  /** The interning table as the runtime's `stringTab`. */
  ghost predicate Interned(tab: Hash<Bytes, Str?>)
    reads tab, tab.nodes
  {
    tab.Valid() && Canonical(tab.Contents())
  }

  /** Entering an object under its own content keeps the table canonical. */
  lemma CanonicalAdd(m: map<Bytes, Str?>, s: Str)
    requires Canonical(m)
    ensures Canonical(m[s.data := s])
  {
  }

  /** So does dropping an entry. */
  lemma CanonicalDrop(m: map<Bytes, Str?>, k: Bytes)
    requires Canonical(m)
    ensures Canonical(m - {k})
  {
  }

  /** Interning uniqueness: any object the table holds is held under its own
      content, so two held objects have equal contents exactly when they are
      one object. */
  lemma InternedUnique(tab: Hash<Bytes, Str?>, a: Str, b: Str)
    requires Interned(tab)
    requires a in tab.Contents().Values && b in tab.Contents().Values
    ensures a.data in tab.Contents() && tab.Contents()[a.data] == a
    ensures a.data == b.data <==> a == b
  {
    var ka :| ka in tab.Contents() && tab.Contents()[ka] == a;
    var kb :| kb in tab.Contents() && tab.Contents()[kb] == b;
  }

  /** `string::lookup`: the hash of `data`, and the interned object with
      that content, or null when there is none. */
  method Lookup(tab: Hash<Bytes, Str?>, data: Bytes) returns (r: Str?, h: uint32)
    requires Interned(tab)
    ensures h == tab.hasher(data)
    ensures r == if data in tab.Contents() then tab.Contents()[data] else null
    ensures r != null ==> r.data == data
  {
    h := tab.hasher(data);
    var s := tab.LookupWithHash(data, h);
    if s.Some? {
      r := s.value;
    } else {
      r := null;
    }
  }

  /** `string::create`: a fresh object with hash `h`, the byte length of
      `data`, `cpLen` code points and content `data`, entered in the table
      under its own content. A later lookup of `data` returns it. */
  method Create(tab: Hash<Bytes, Str?>, data: Bytes, h: uint32, cpLen: nat) returns (ret: Str)
    requires Interned(tab)
    modifies tab, tab.nodes
    ensures fresh(ret) && ret.hash == h && ret.length == |data| && ret.cpLength == cpLen && ret.data == data
    ensures Interned(tab)
    ensures tab.Contents() == old(tab.Contents())[data := ret]
  {
    ret := new Str(data, h, cpLen);
    ghost var before := tab.Contents();
    var r := tab.InsertNode(data);
    ghost var placed := tab.nodes[r].value;
    tab.SetValue(r, ret);
    if data !in before {
      UpdateTwice(before, data, placed, ret);
    }
    assert tab.Contents() == before[data := ret];
    CanonicalAdd(before, ret);
  }

  /** `string::free`: the object's content leaves the table, which must hold
      it; every other entry stays. The storage release is not modelled. */
  method Free(tab: Hash<Bytes, Str?>, s: Str)
    requires Interned(tab) && s.data in tab.Contents()
    modifies tab, tab.nodes
    ensures Interned(tab)
    ensures tab.Contents() == old(tab.Contents()) - {s.data}
  {
    ghost var before := tab.Contents();
    var b := tab.Remove(s.data);
    assert b;
    CanonicalDrop(before, s.data);
  }

  /** A stand-in for `scmp`: lexicographic order on bytes, a proper prefix
      first, giving -1, 0 or 1. */
  function Scmp(a: Bytes, b: Bytes): (r: int)
    ensures -1 <= r <= 1
  {
    if |a| == 0 && |b| == 0 then 0
    else if |a| == 0 then -1
    else if |b| == 0 then 1
    else if a[0] < b[0] then -1
    else if a[0] > b[0] then 1
    else Scmp(a[1..], b[1..])
  }

  /** `scmp` is zero exactly on equal contents. */
  lemma {:induction false} ScmpZero(a: Bytes, b: Bytes)
    ensures Scmp(a, b) == 0 <==> a == b
  {
    if |a| > 0 && |b| > 0 && a[0] == b[0] {
      ScmpZero(a[1..], b[1..]);
      assert a == [a[0]] + a[1..] && b == [b[0]] + b[1..];
    }
  }

  /** `scmp` is antisymmetric. */
  lemma {:induction false} ScmpFlip(a: Bytes, b: Bytes)
    ensures Scmp(b, a) == -Scmp(a, b)
  {
    if |a| > 0 && |b| > 0 && a[0] == b[0] {
      ScmpFlip(a[1..], b[1..]);
    }
  }

  /** `string::compare`: `scmp` on the two contents. */
  function Compare(a: Str, b: Str): (r: int)
    ensures r == 0 <==> a.data == b.data
  {
    ScmpZero(a.data, b.data);
    Scmp(a.data, b.data)
  }

  /** For interned objects, `compare` is zero exactly on the same object. */
  lemma CompareInterned(tab: Hash<Bytes, Str?>, a: Str, b: Str)
    requires Interned(tab)
    requires a in tab.Contents().Values && b in tab.Contents().Values
    ensures Compare(a, b) == 0 <==> a == b
  {
    InternedUnique(tab, a, b);
  }

  /** `string::contains` as written: a shorter string gives false, and so,
      for want of the search, does every other case. */
  function ContainsAsWritten(s: Str, sub: Bytes): (r: bool)
    ensures !r
  {
    if s.length < |sub| then false else false
  }

  /** `sub` occurs in `d` at offset `i`. */
  ghost predicate OccursAt(d: Bytes, sub: Bytes, i: nat)
  {
    i + |sub| <= |d| && d[i..i + |sub|] == sub
  }

  /** As written, `contains` misses a string in itself. */
  lemma ContainsMissesItself(s: Str)
    ensures OccursAt(s.data, s.data, 0) && !ContainsAsWritten(s, s.data)
  {
    assert s.data[0..|s.data|] == s.data;
  }

  /** The search from offset `i` on: the first offset at or after `i` where
      `sub` occurs, if any. */
  function OccursFrom(d: Bytes, sub: Bytes, i: nat): (r: bool)
    ensures r <==> exists j :: i <= j && OccursAt(d, sub, j)
    decreases |d| - i
  {
    if i + |sub| > |d| then
      assert forall j :: i <= j ==> !OccursAt(d, sub, j);
      false
    else if d[i..i + |sub|] == sub then
      assert OccursAt(d, sub, i);
      true
    else
      OccursFrom(d, sub, i + 1)
  }

  /** `string::contains` as its comment intends: true exactly when `sub`
      occurs in the content of `s`, so never when `s` is shorter. */
  function Contains(s: Str, sub: Bytes): (r: bool)
    ensures r <==> exists i :: OccursAt(s.data, sub, i)
    ensures s.length < |sub| ==> !r
  {
    if s.length < |sub| then false else OccursFrom(s.data, sub, 0)
  }

  /** `string::slice`: the bytes `utf8Slice` cuts from code point `lo` to
      `hi`; their interned object when there is one, else a new one with
      `hi - lo` code points, entered in the table. */
  method Slice(tab: Hash<Bytes, Str?>, s: Str, lo: nat, hi: nat, utf8Slice: (Bytes, nat, nat) -> Bytes)
    returns (r: Str)
    requires Interned(tab) && lo <= hi
    modifies tab, tab.nodes
    ensures Interned(tab) && r.data == utf8Slice(s.data, lo, hi)
    ensures r.data in old(tab.Contents()) ==> r == old(tab.Contents())[r.data] && tab.Contents() == old(tab.Contents())
    ensures r.data !in old(tab.Contents()) ==>
      && fresh(r) && r.cpLength == hi - lo && tab.Contents() == old(tab.Contents())[r.data := r]
  {
    var str := utf8Slice(s.data, lo, hi);
    var found, h := Lookup(tab, str);
    if found != null {
      return found;
    }
    r := Create(tab, str, h, hi - lo);
  }
}
