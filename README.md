# bunarr in Dafny

A model of `bunarr`, a C library for a fixed-capacity array that lives in a
buffer the caller supplies. The struct `bunarr` holds the buffer (`items`),
the byte size of one item (`isize`), the number of live items (`len`), the
number of slots (`cap`) and an optional callback `free_fn` meant to release
what an item points to when the item is removed.

The model keeps the C code's shape:

- `wrappers.dfy`, module `Wrappers`: `Option`, standing for a pointer that may be NULL.
- `ordering.dfy`, module `Ordering`: three-way comparators as libc's `qsort`
  and `bsearch` take them (`ThreeWay`: the sign flips when the arguments are
  swapped, and "at most" is transitive), `SortedBy`, a reference sort
  `SortSeq` with its proofs, and a recursive binary search `Search`.
- `bunarr.dfy`, module `Bunarr`: two functions that give the buffer after an
  ordered and after a lazy removal (`RemoveShift`, `LazyRemove`), and the class
  `Bunarr<T>` with one member per public C function.

In the class, an item is a value of type `T`, so `isize` and every byte
offset disappear. `items` is an `array<T>` of `cap` slots bound to the
caller's array without a copy, as `bunarr_create_ex` binds `arr_data`. The
live items are `items[..len]`. `zero` is the value that `memset(..., 0, ...)`
leaves in a slot. `free_fn` is a flag `hasFreeFn` (not NULL) and a ghost trace
`freeTrace` that records each call as the index and what `bunarr_get` returned
for it (`Some(item)` or `None` for NULL). The visitor of `bunarr_exe` is
modelled by the list of calls it receives, returned by `Exe`.

The object invariant `Valid()` is `len <= cap` together with
`items.Length == cap` (`bunarr.h:7-9`). Every method preserves it; the
constructor needs it as a precondition, because `bunarr_create_ex` does not
check it.

Where the header's comments and the code disagree, the model follows the code:

- `bunarr_set` (`bunarr.h:83-87`) is documented to overwrite when `i < len`
  and to append otherwise. The code appends only when `i > len`. At `i == len`
  it overwrites slot `len` and leaves `len` alone, so the new item is not live.
- `free_fn` is documented as called "on item removal" (`bunarr.h:10-12`).
  Only `bunarr_remove` and `bunarr_destroy` call it. `RemoveLazy`, `Clear`,
  `Set` and `Append` leave `freeTrace` unchanged.
- `bunarr_chk_index` accepts `i <= len`, not `i < len`. So `bunarr_get(len)`
  returns a pointer to the slot after the last item. `bunarr_remove(len)`
  calls `free_fn` on that slot, zeroes it and drops the last item from the
  count, while the slot of that last item keeps its value.

## Model

| member | source | states |
|---|---|---|
| `Bunarr.Bunarr.constructor` | bunarr.c:9-28 | binds the caller's buffer itself (no copy), with the given `cap`, `len` and callback, and an empty call trace; needs `len <= cap == data.Length` |
| `Bunarr.Bunarr.ChkIndex` | bunarr.c:154-161 | accepts `i` exactly when `i <= len`, one past the last live item included |
| `Bunarr.Bunarr.Get` | bunarr.c:124-131 | returns the slot of index `i` exactly when `i <= len` (one past the last item included), NULL when `i > len` |
| `Bunarr.Bunarr.Append` | bunarr.c:30-38 | with `len < cap`: writes the item into slot `len`, returns that index, grows `len` by one; no other slot changes and the live items gain the item at the end |
| `Bunarr.RemoveShift` | bunarr.c:56-66 | the buffer after an ordered removal of `i` among `n` live items: for `i < n` the first `n - 1` slots are the old live items without item `i`, in the old order, and slots `n - 1` and `n` are zero; for `i == n` the first `n` slots are unchanged and slot `n` is zero; slots after `n` are unchanged |
| `Bunarr.Bunarr.Remove` | bunarr.c:47-69 | returns true exactly when `i <= len`; on false nothing changes; on true it calls `free_fn` once with `(i, item i)` before anything moves, leaves the buffer as `RemoveShift` gives it and shrinks `len` by one |
| `Bunarr.LazyRemove` | bunarr.c:76-79 | the buffer after a lazy removal of `i` among `n` live items: only slot `i` changes and it receives a copy of slot `n - 1` (the last live item; for `i == n`, slot `n` receives it); for `i < n` the remaining live items are the old ones minus one copy of item `i` (as multisets) |
| `Bunarr.Bunarr.RemoveLazy` | bunarr.c:71-82 | returns true exactly when `i <= len`; on false nothing changes; on true the buffer is as `LazyRemove` gives it and `len` shrinks by one; `free_fn` is not called |
| `Bunarr.Bunarr.Set` | bunarr.c:84-95 | always returns true; for `i > len` the new state is the one `Append` promises; for `i <= len` slot `i` gets the item and `len` stays, so for `i < len` live item `i` is replaced and for `i == len` the live items do not change; `free_fn` is not called |
| `Bunarr.Bunarr.Clear` | bunarr.c:117-122 | every one of the `cap` slots is zero and `len` is 0; `free_fn` is not called |
| `Bunarr.Bunarr.Destroy` | bunarr.c:104-115 | with a callback, calls it exactly `cap` times, on indices `0 .. cap - 1` in ascending order, passing item `k` when `k <= len` and NULL when `k > len`; without one, makes no call; returns true |
| `Bunarr.Bunarr.Exe` | bunarr.c:133-139 | the visitor is called once per live item, on indices `0 .. len - 1` in ascending order, with that index and that item |
| `Bunarr.Bunarr.Qsort` | bunarr.c:141-144 | the live items end up sorted by the comparator and are a permutation of the live items before; `len` and the slots from `len` on do not change |
| `Bunarr.Bunarr.BSearch` | bunarr.c:146-150 | on live items sorted by the comparator, returns a live slot whose item compares equal to the key, and NULL exactly when no live item does |
| `Ordering.Search` | bunarr.h:96-103 | binary search of a sorted sequence: a returned index is in range and its item compares equal to the key; no result means no item of the sequence compares equal |
| `Ordering.SortSeqSorted` | bunarr.h:105-109 | the reference sort orders its result by any consistent comparator |
| `Ordering.SortSeqPermutes` | bunarr.h:105-109 | the reference sort returns a permutation of its input |
| `Ordering.SearchAfterSort` | bunarr.h:96-109 | after sorting, the search finds an item comparing equal to the key exactly when the unsorted items held one |
| `Ordering.PreorderFacts` | bunarr.h:105-109 | a consistent comparator is reflexive and total, and "compares equal" is symmetric |

## Left out

- `Bunarr.Bunarr.Append`: requires `len < cap`. At `len == cap` the C code writes the item into slot `cap`, past the buffer (bunarr.c:33), leaves `len` as it is and returns `cap - 1`; a write outside the buffer cannot be modelled on an `array`.
- `Bunarr.Bunarr.Remove`: requires `0 < len < cap` whenever `i <= len`. At `len == cap` the C code zeroes and reads slot `cap`, past the buffer (bunarr.c:57, 61); at `len == 0` the unsigned `len` wraps around (bunarr.c:64).
- `Bunarr.Bunarr.Remove`: the C code moves overlapping ranges with `memcpy` (bunarr.c:66), whose result is undefined; the model gives it `memmove`'s meaning, a simultaneous shift.
- `Bunarr.Bunarr.RemoveLazy`: requires `0 < len` and `i < cap` whenever `i <= len`. At `len == 0` the unsigned `len` wraps around (bunarr.c:76); at `i == len == cap` the copy writes slot `cap`, past the buffer.
- `Bunarr.Bunarr.Set`: requires `len < cap || i < len`, for the same reason as `Append`: at `len == cap` an index `i >= len` makes the C code write past the buffer.
- `Bunarr.Bunarr.constructor`: requires `len <= cap == data.Length`; `bunarr_create_ex` trusts both and does not check the result of `malloc` (bunarr.c:18-21).
- `Bunarr.Bunarr.Destroy`: releasing the struct with `free` is not modelled; the object stays usable afterwards.
- `bunarr_append_free` and `bunarr_set_free` (bunarr.c:40-45, 97-102): they only add `free(item)` after `Append` and `Set`; allocator calls are not modelled.
- The diagnostic that `bunarr_chk_index` prints to stderr (bunarr.c:157) is I/O and is not modelled; the check's result is.
- `bunarr_get_len` (bunarr.c:166-170) is an empty loop with no effect.
- The growth parameters `incr`, `mult` and `subarr` that the `bunarr_create_ex` comment describes (bunarr.h:28-39) exist in no signature and no code.
- The byte size `isize`, byte offsets and the `buntypes.h` integer typedefs (not part of this model): items are values of `T` and `usize` is `nat`; the unsigned wrap-arounds are excluded by the preconditions above.
- libc's `qsort` and `bsearch`: the model does not reproduce quicksort or libc's search. `Qsort` writes back the result of an insertion sort (`SortSeq`), but its contract promises only what the header does: the live items end up sorted and are a permutation of the old ones, so any order of items that compare equal satisfies it, as libc may leave them. Likewise `BSearch` promises some matching slot, not which of several.
- The callbacks are modelled as observers: `free_fn` and the `bunarr_exe` visitor receive a pointer and could change the item or the container; the model assumes they do neither. The comparator is a total function that is required to be consistent (`ThreeWay`).
- `tests.c` is a demonstration program (console output, `rand`, `time`) and is not modelled. It sorts by one field and searches by another, which breaks `bsearch`'s precondition.
