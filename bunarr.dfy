/**
  bunarr: a fixed-capacity array over a buffer the caller supplies.

  The C library stores items of any byte size; here an item is a value of the
  type parameter T and the byte size (isize) disappears. The buffer is an
  array<T> of cap slots, of which the first len hold live items. A `zero`
  value stands for the all-zero bytes that memset writes. The optional
  free_fn callback is a flag plus a ghost trace of the calls it receives.
*/
module Bunarr {
  import opened Wrappers
  import opened Ordering

  /** The buffer after bunarr_remove(i) on a buffer s whose first n slots are
      live: slot n is zeroed, then the slots i+1 .. n are copied one slot down
      in a single move (memmove semantics). */
  function RemoveShift<T>(s: seq<T>, i: nat, n: nat, zero: T): (r: seq<T>)
    requires i <= n < |s|
    ensures |r| == |s|
    // removing a live item keeps the others in order and zeroes two slots
    ensures i < n ==> r[..n - 1] == s[..i] + s[i + 1..n]
    ensures i < n ==> r[n - 1] == zero
    ensures r[n] == zero
    // "removing" index n drops nothing from the first n slots
    ensures i == n ==> r[..n] == s[..n]
    ensures r[n + 1..] == s[n + 1..]
  {
    var z := s[n := zero];
    var r := seq(|s|, k requires 0 <= k < |s| => if i <= k < n then z[k + 1] else z[k]);
    assert i < n ==> r[..n - 1] == s[..i] + s[i + 1..n];
    r
  }

  /** The buffer after bunarr_remove_lazy(i) on a buffer s whose first n
      slots are live: slot i receives a copy of slot n - 1. */
  function LazyRemove<T>(s: seq<T>, i: nat, n: nat): (r: seq<T>)
    requires 0 < n <= |s| && i <= n && i < |s|
    ensures |r| == |s|
    // the last live item moves into the gap; the remaining live items are
    // those before, minus the removed one
    ensures i < n ==> multiset(r[..n - 1]) == multiset(s[..n]) - multiset{s[i]}
    ensures r[i] == s[n - 1]
    ensures forall k :: 0 <= k < |s| && k != i ==> r[k] == s[k]
  {
    var r := s[i := s[n - 1]];
    if i < n then LazyRemoveItems(s, i, n); r else r
  }

  /** Moving the last of n live items into slot i leaves the live items
      minus item i. */
  lemma LazyRemoveItems<T>(s: seq<T>, i: nat, n: nat)
    requires i < n <= |s|
    ensures multiset(s[i := s[n - 1]][..n - 1]) == multiset(s[..n]) - multiset{s[i]}
  {
    var r := s[i := s[n - 1]];
    if i == n - 1 {
      assert s[..n] == r[..n - 1] + [s[i]];
    } else {
      var front, middle := s[..i], s[i + 1..n - 1];
      assert s[..n] == front + [s[i]] + middle + [s[n - 1]];
      assert r[..n - 1] == front + [s[n - 1]] + middle;
      calc {
        multiset(s[..n]);
        multiset(front) + multiset{s[i]} + multiset(middle) + multiset{s[n - 1]};
        multiset(r[..n - 1]) + multiset{s[i]};
      }
    }
  }

  class Bunarr<T(!new)> {
    /** The caller's buffer, bound without copying. */
    const items: array<T>
    /** The number of slots the buffer holds. */
    const cap: nat
    /** The number of live items, in slots 0 .. len - 1. */
    var len: nat
    /** Whether free_fn is not NULL. */
    const hasFreeFn: bool
    /** The value memset leaves in a slot. */
    const zero: T
    /** The calls free_fn received, in order: the index and the item pointed
        to, None when bunarr_get returned NULL. */
    ghost var freeTrace: seq<(nat, Option<T>)>

    /** The length never exceeds the capacity, which is the buffer's size. */
    ghost predicate Valid()
      reads this
    {
      items.Length == cap && len <= cap
    }

    /** The live items. */
    ghost function Live(): seq<T>
      reads this, items
      requires Valid()
    {
      items[..len]
    }

    /** bunarr_create / bunarr_create_ex: binds the buffer and the counts as
        given. The C code checks neither len <= cap nor the buffer's size. */
    constructor (cap: nat, len: nat, data: array<T>, hasFreeFn: bool, zero: T)
      requires len <= cap == data.Length
      ensures Valid()
      ensures items == data && this.cap == cap && this.len == len
      ensures this.hasFreeFn == hasFreeFn && this.zero == zero
      ensures freeTrace == []
    {
      items := data;
      this.cap := cap;
      this.len := len;
      this.hasFreeFn := hasFreeFn;
      this.zero := zero;
      freeTrace := [];
    }

    /** bunarr_chk_index: an index is accepted up to and including len, one
        past the last live item. */
    function ChkIndex(i: nat): (ok: bool)
      reads this
      ensures ok <==> i <= len
    {
      i <= len
    }

    /** bunarr_get: the slot (pointer) for an accepted index, None (NULL) for
        an index past len. */
    function Get(i: nat): (r: Option<nat>)
      reads this
      ensures r.Some? <==> i <= len
      ensures r.Some? ==> r.value == i
    {
      if ChkIndex(i) then Some(i) else None
    }

    /** bunarr_append: copies item into slot len and grows len by one. */
    method Append(item: T) returns (idx: nat)
      requires Valid() && len < cap
      modifies this`len, items
      ensures Valid()
      ensures idx == old(len) && len == old(len) + 1
      ensures items[..] == old(items[..])[idx := item]
      ensures Live() == old(Live()) + [item]
      ensures freeTrace == old(freeTrace)
    {
      var _ := ChkIndex(len);
      items[len] := item;
      if len < cap {
        len := len + 1;
      }
      idx := len - 1;
    }

    /** bunarr_remove: ordered removal. */
    method Remove(i: nat) returns (ok: bool)
      requires Valid()
      requires i <= len ==> 0 < len < cap
      modifies this`len, this`freeTrace, items
      ensures Valid()
      ensures ok <==> i <= old(len)
      ensures !ok ==> len == old(len) && items[..] == old(items[..]) && freeTrace == old(freeTrace)
      ensures ok ==> len == old(len) - 1 && items[..] == RemoveShift(old(items[..]), i, old(len), zero)
      ensures ok ==> freeTrace == old(freeTrace) + if hasFreeFn then [(i, Some(old(items[i])))] else []
    {
      if !ChkIndex(i) {
        return false;
      }
      if hasFreeFn {
        var slot := Get(i);
        freeTrace := freeTrace + [(i, Some(items[slot.value]))];
      }
      ghost var before := items[..];
      items[len] := zero;
      len := len - 1;
      forall k | i <= k <= len {
        items[k] := items[k + 1];
      }
      assert items[..] == RemoveShift(before, i, len + 1, zero);
      return true;
    }

    /** bunarr_remove_lazy: unordered removal, without calling free_fn. */
    method RemoveLazy(i: nat) returns (ok: bool)
      requires Valid()
      requires i <= len ==> 0 < len && i < cap
      modifies this`len, items
      ensures Valid()
      ensures ok <==> i <= old(len)
      ensures !ok ==> len == old(len) && items[..] == old(items[..])
      ensures ok ==> len == old(len) - 1 && items[..] == LazyRemove(old(items[..]), i, old(len))
      ensures freeTrace == old(freeTrace)
    {
      if !ChkIndex(i) {
        return false;
      }
      len := len - 1;
      items[i] := items[len];
      return true;
    }

    /** bunarr_set: overwrites slot i when i <= len (also at i == len, where
        len stays as it is), appends otherwise. */
    method Set(item: T, i: nat) returns (ok: bool)
      requires Valid()
      requires len < cap || i < len
      modifies this`len, items
      ensures Valid() && ok
      ensures i > old(len) ==> len == old(len) + 1 && items[..] == old(items[..])[old(len) := item]
      ensures i <= old(len) ==> len == old(len) && items[..] == old(items[..])[i := item]
      ensures i < old(len) ==> Live() == old(Live())[i := item]
      ensures i == old(len) ==> Live() == old(Live())
      ensures freeTrace == old(freeTrace)
    {
      if i > len {
        var _ := Append(item);
      } else {
        items[i] := item;
      }
      return true;
    }

    /** bunarr_clear: zeroes every slot of the buffer and empties the array,
        without calling free_fn. */
    method Clear() returns (ok: bool)
      requires Valid()
      modifies this`len, items
      ensures Valid() && ok
      ensures len == 0 && Live() == []
      ensures forall k :: 0 <= k < cap ==> items[k] == zero
      ensures freeTrace == old(freeTrace)
    {
      forall k | 0 <= k < items.Length {
        items[k] := zero;
      }
      len := 0;
      return true;
    }

    /** bunarr_destroy: calls free_fn (if any) on every slot index below cap,
        passing what bunarr_get returns. Releasing the struct is not modelled. */
    method Destroy() returns (ok: bool)
      requires Valid()
      modifies this`freeTrace
      ensures ok
      ensures !hasFreeFn ==> freeTrace == old(freeTrace)
      ensures hasFreeFn ==> |freeTrace| == |old(freeTrace)| + cap
      ensures hasFreeFn ==> freeTrace[..|old(freeTrace)|] == old(freeTrace)
      ensures hasFreeFn ==> forall k :: 0 <= k < cap ==>
        freeTrace[|old(freeTrace)| + k] == (k, if k <= len then Some(items[k]) else None)
    {
      if hasFreeFn {
        ghost var calls: seq<(nat, Option<T>)> := [];
        for i := 0 to cap
          invariant |calls| == i
          invariant forall k :: 0 <= k < i ==> calls[k] == (k, if k <= len then Some(items[k]) else None)
          invariant freeTrace == old(freeTrace) + calls
        {
          var slot := Get(i);
          var arg := if slot.Some? then Some(items[slot.value]) else None;
          freeTrace := freeTrace + [(i, arg)];
          calls := calls + [(i, arg)];
        }
      }
      return true;
    }

    /** bunarr_exe: calls the visitor once per live item, in ascending index
        order; the result lists the calls (index, item). */
    method Exe() returns (calls: seq<(nat, T)>)
      requires Valid()
      ensures |calls| == len
      ensures forall k :: 0 <= k < len ==> calls[k] == (k, items[k])
    {
      calls := [];
      for i := 0 to len
        invariant |calls| == i
        invariant forall k :: 0 <= k < i ==> calls[k] == (k, items[k])
      {
        var slot := Get(i);
        calls := calls + [(i, items[slot.value])];
      }
    }

    /** bunarr_qsort: sorts the live items by cmp; slots from len on are not
        touched. The order of items that compare equal is not promised. */
    method Qsort(cmp: (T, T) -> int)
      requires Valid() && ThreeWay(cmp)
      modifies items
      ensures SortedBy(cmp, items[..len])
      ensures multiset(items[..len]) == multiset(old(items[..len]))
      ensures items[len..] == old(items[len..])
    {
      var sorted := SortSeq(cmp, items[..len]);
      SortSeqSorted(cmp, items[..len]);
      SortSeqPermutes(cmp, items[..len]);
      forall k | 0 <= k < len {
        items[k] := sorted[k];
      }
      assert items[..len] == sorted;
      assert items[..len] == SortSeq(cmp, old(items[..len]));
    }

    /** bunarr_bsearch: on live items sorted by cmp, the slot of an item that
        compares equal to key, or None (NULL) when no live item does. */
    function BSearch(key: T, cmp: (T, T) -> int): (r: Option<nat>)
      reads this, items
      requires Valid() && ThreeWay(cmp) && SortedBy(cmp, items[..len])
      ensures r.Some? ==> r.value < len && cmp(key, items[r.value]) == 0
      ensures r.None? <==> forall k :: 0 <= k < len ==> cmp(key, items[k]) != 0
    {
      var r := Search(cmp, items[..len], key, 0, len);
      assert r.Some? ==> items[..len][r.value] == items[r.value];
      r
    }
  }
}
