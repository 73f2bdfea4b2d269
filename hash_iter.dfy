/** What the iteration members of `croc::Hash` compute, stated over the node
    array as a sequence (src/croc/base/hash.hpp:262-310): `next` and
    `nextNode` stop at used slots, `nextModified` at slots with a modified
    bit. */
module HashIteration {
  import opened HashNodes
  import opened HashChains

  /** The slot kind an iteration member stops at. */
  predicate Selected<K, V>(n: Node<K, V>, modifiedOnly: bool)
  {
    if modifiedOnly then IsModified(n.flags) else n.flags.used
  }

  /** The index where a scan starting at `idx` stops: the first selected slot
      at or after `idx`, or `idx` itself when it is already past the end, or
      the array length when no selected slot remains. */
  function FirstFrom<K, V>(s: seq<Node<K, V>>, idx: nat, modifiedOnly: bool): (r: nat)
    ensures r >= idx
    ensures r < |s| ==> Selected(s[r], modifiedOnly)
    ensures r >= |s| ==> r == if idx > |s| then idx else |s|
    ensures forall j :: idx <= j < r && j < |s| ==> !Selected(s[j], modifiedOnly)
    decreases |s| - idx
  {
    if idx >= |s| then idx
    else if Selected(s[idx], modifiedOnly) then idx
    else FirstFrom(s, idx + 1, modifiedOnly)
  }

  /** The slots that repeated calls starting at `idx` return, in call order. */
  function Visits<K, V>(s: seq<Node<K, V>>, idx: nat, modifiedOnly: bool): seq<nat>
    decreases |s| - idx
  {
    var r := FirstFrom(s, idx, modifiedOnly);
    if r >= |s| then [] else [r] + Visits(s, r + 1, modifiedOnly)
  }

  /** `v` is strictly increasing and lies within `[lo, hi)`. */
  predicate IncreasingWithin(v: seq<nat>, lo: nat, hi: nat)
  {
    (forall i :: 0 <= i < |v| ==> lo <= v[i] < hi) && (forall i, j :: 0 <= i < j < |v| ==> v[i] < v[j])
  }

  /** The calls return slots in strictly increasing index order, all at or after `idx`. */
  lemma {:induction false} VisitsIncreasing<K, V>(s: seq<Node<K, V>>, idx: nat, modifiedOnly: bool)
    ensures IncreasingWithin(Visits(s, idx, modifiedOnly), idx, |s|)
    decreases |s| - idx
  {
    var r := FirstFrom(s, idx, modifiedOnly);
    if r < |s| {
      VisitsIncreasing(s, r + 1, modifiedOnly);
      var w := Visits(s, r + 1, modifiedOnly);
      assert Visits(s, idx, modifiedOnly) == [r] + w;
      ConsIncreasing(r, w, idx, |s|);
    }
  }

  lemma ConsIncreasing(r: nat, w: seq<nat>, lo: nat, hi: nat)
    requires IncreasingWithin(w, r + 1, hi) && lo <= r < hi
    ensures IncreasingWithin([r] + w, lo, hi)
  {
    var v := [r] + w;
    forall i | 0 < i < |v|
      ensures v[i] == w[i - 1]
    {
    }
  }

  /** The calls return exactly the selected slots at or after `idx`. */
  lemma {:induction false} VisitsExactly<K, V>(s: seq<Node<K, V>>, idx: nat, modifiedOnly: bool, x: nat)
    ensures x in Visits(s, idx, modifiedOnly) <==> idx <= x < |s| && Selected(s[x], modifiedOnly)
    decreases |s| - idx
  {
    var r := FirstFrom(s, idx, modifiedOnly);
    if r < |s| {
      VisitsExactly(s, r + 1, modifiedOnly, x);
      assert Visits(s, idx, modifiedOnly) == [r] + Visits(s, r + 1, modifiedOnly);
    }
  }

  /** A scan from `idx` passes only unused slots before it stops, so the used
      count of the prefix does not change. */
  lemma {:induction false} SkipKeepsCount<K, V>(s: seq<Node<K, V>>, idx: nat, r: nat)
    requires idx <= r <= |s|
    requires forall j :: idx <= j < r ==> !s[j].flags.used
    ensures UsedCount(s[..r]) == UsedCount(s[..idx])
    decreases r - idx
  {
    if idx < r {
      UsedCountPrefix(s, r - 1);
      SkipKeepsCount(s, idx, r - 1);
    }
  }

  /** From `idx`, the used-slot iteration makes one call per used slot left. */
  lemma {:induction false} VisitsCount<K, V>(s: seq<Node<K, V>>, idx: nat)
    requires idx <= |s|
    ensures |Visits(s, idx, false)| == UsedCount(s) - UsedCount(s[..idx])
    decreases |s| - idx
  {
    var r := FirstFrom(s, idx, false);
    if r < |s| {
      SkipKeepsCount(s, idx, r);
      UsedCountPrefix(s, r);
      VisitsCount(s, r + 1);
      UsedCountPrefixLe(s, r + 1);
    } else {
      SkipKeepsCount(s, idx, |s|);
      assert s[..|s|] == s;
    }
  }

  /** Hence iterating from 0 visits every used slot exactly once: as many
      calls as the table's size. */
  lemma VisitsAllFromZero<K, V>(s: seq<Node<K, V>>)
    ensures |Visits(s, 0, false)| == UsedCount(s)
    ensures forall x :: x in Visits(s, 0, false) <==> Used(s, x)
  {
    VisitsCount(s, 0);
    assert s[..0] == [];
    forall x
      ensures x in Visits(s, 0, false) <==> Used(s, x)
    {
      if x >= 0 {
        VisitsExactly(s, 0, false, x);
      }
    }
  }
}
