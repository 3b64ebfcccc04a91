# MusiC-Player: the growable buffer of `CCFuncs.h`

The music player keeps its one piece of data-structure code in
`src/CCFuncs.h`. It is a "dynamic array" record `{items, count, capacity}`,
updated in place by the `da_append` and `da_append_many` macros and released by
`da_free`. It also has a `StringBuilder` (a dynamic array of `char`) and
`sb_dump_str`, which turns one into a NUL-terminated C string. The player fills
a `StringBuilder` from the output of a metadata tool one character at a time
(`read_str_from_stream` in `src/main.c`).

This project models that code in Dafny and proves what it guarantees:

- `cstring.dfy`, module `CString`: the C library's `strncpy` as `sb_dump_str`
  uses it. `StrNCpy` is a recursive specification: copy up to the first NUL,
  then pad. `StrNCpyAt` gives its meaning position by position. `StrNCpyInto`
  is the in-place routine, a copy loop followed by a padding loop, proved
  against that specification.
- `ccfuncs.dfy`, module `CCFuncs`:
  - class `DynArray<T>` holds the array `items`, the fields `count` and
    `capacity`, and a ghost `Contents` that mirrors `items[..count]`.
  - `Append`, `AppendMany` and `Free` are `da_append`, `da_append_many` and
    `da_free`. `AppendMany` keeps the source's doubling `while` loop over the
    `capacity` field.
  - `AppendCapacity`, `AppendManyCapacity` and `Doubled` are the capacities
    these macros pick. The lemmas prove that each macro preserves the shape
    of the capacity (`0` or `128 * 2^k`) and that `da_append_many` grows to
    the smallest sufficient doubling.
  - `DumpStr` is `sb_dump_str`.
- `readstream.dfy`, module `ReadStream`: a client, `read_str_from_stream`. The
  stream is replaced by the characters it yields. The proof shows that the
  dumped string is the input followed by a NUL whenever the input holds no NUL.

## Model

| member | source | states |
|---|---|---|
| `CCFuncs.DynArray.constructor` | src/main.c:23 | the zero record `{0}` has no items, no allocation and satisfies the buffer invariant (`count <= capacity`, capacity `0` or `128 * 2^k`, `Contents == items[..count]`) |
| `CCFuncs.DynArray.Append` | src/CCFuncs.h:13-22 | keeps the invariant; `count` grows by one, the old items are kept and `item` is stored at index `old(count)`; capacity becomes 128 when it was 0 and doubles when it was otherwise full, and neither capacity nor array changes when there was room |
| `CCFuncs.DynArray.AppendMany` | src/CCFuncs.h:26-40 | keeps the invariant; `count` grows by `n`, the old items are kept and followed by the `n` items `newItems` held on entry (which may be a prefix of the record's own items); the array and capacity are untouched when the items fit (so `n == 0` changes nothing), otherwise the doubling loop ends on the capacity `AppendManyCapacity` names |
| `CCFuncs.DynArray.Grow` | src/CCFuncs.h:28-37 | the growth branch of `da_append_many` keeps the invariant and the items in use, and leaves the capacity at `AppendManyCapacity`; the array is reallocated only when the items do not fit |
| `CCFuncs.MemCpy` | src/CCFuncs.h:38 | the `n` source items land at `dst[off..off + n)` and the rest of `dst` is unchanged; the source may be a prefix of `dst` that ends before `off` |
| `CCFuncs.DynArray.Free` | src/CCFuncs.h:24 | releases the array and leaves `count` and `capacity` as they were, so the record stays usable only if it never allocated |
| `CCFuncs.Realloc` | src/CCFuncs.h:35 | the new block has the requested size and begins with the whole old block |
| `CCFuncs.Doubled` | src/CCFuncs.h:32-34 | the doubling loop's result is at least the start capacity and holds the `need` items; `DoubledIsLeastDoubling` and `DoubledIsSmallest` prove it is `c * 2^k` for the least sufficient `k` |
| `CCFuncs.AppendCapacity` | src/CCFuncs.h:15-16 | the capacity `da_append` leaves never shrinks and, for `count <= capacity`, has room for one more item; `AppendKeepsCapacity` gives its shape and when it changes |
| `CCFuncs.AppendManyCapacity` | src/CCFuncs.h:28-34 | the capacity `da_append_many` leaves never shrinks and holds `count + n` items; `AppendManyKeepsCapacity` and `AppendManyCapacityIsSmallest` give its shape and minimality |
| `CCFuncs.DoubledIsLeastDoubling` | src/CCFuncs.h:32-34 | the doubling loop ends on `c * 2^k` with `k` the least exponent for which the items fit: the result holds them and one doubling fewer would not |
| `CCFuncs.DoubledIsSmallest` | src/CCFuncs.h:32-34 | no doubling of the start capacity that holds the items is smaller than the one the loop ends on |
| `CCFuncs.AppendKeepsCapacity` | src/CCFuncs.h:15-16 | from `count <= capacity` with capacity `0` or `128 * 2^k`, `da_append` gives room for one more item, keeps the capacity of that shape, and keeps the capacity exactly when `count < capacity` |
| `CCFuncs.AppendManyKeepsCapacity` | src/CCFuncs.h:28-34 | from the same invariant, `da_append_many` gives room for all `n` items, keeps the capacity `0` or `128 * 2^k`, and keeps the capacity exactly when `count + n <= capacity` |
| `CCFuncs.AppendManyCapacityIsSmallest` | src/CCFuncs.h:28-34 | when it must grow, `da_append_many` ends on a capacity no larger than any sufficient `c * 2^k` (with `c` the old capacity, or 128 for none), and less than twice the needed size unless it stops at `c` |
| `CCFuncs.AppendCapacityAtMostDouble` | src/CCFuncs.h:15-16 | growth by `da_append` keeps the capacity at most `DA_INIT_CAP` or at most twice the count, so a buffer built by appends is never more than half empty past its first allocation |
| `CCFuncs.AppendIsAppendManyOfOne` | src/CCFuncs.h:13-40 | for a valid record, appending one item with `da_append` picks the same capacity as `da_append_many` with one item |
| `CCFuncs.DumpStr` | src/CCFuncs.h:70-75 | a fresh buffer of `count + 1` characters ending in NUL; position `i < count` holds `items[i]` if no NUL comes before it and NUL otherwise; a NUL-free builder gives its contents plus a NUL; the builder is not changed |
| `CString.StrNCpy` | src/CCFuncs.h:72 | what `strncpy` leaves in `dst[0..n)` has exactly `n` characters: the source up to its first NUL, then NUL padding; `StrNCpyAt` characterises it position by position |
| `CString.StrNCpyAt` | src/CCFuncs.h:72 | `strncpy` copies character `i` exactly when no NUL precedes it in the source, and writes NUL otherwise |
| `CString.StrNCpyNulFree` | src/CCFuncs.h:72 | a source with no NUL in its first `n` characters is copied verbatim |
| `CString.StrNCpyPads` | src/CCFuncs.h:72 | every position at or after a NUL in the source is NUL in the copy |
| `CString.StrNCpyInto` | src/CCFuncs.h:72 | the copy-then-pad loop leaves in `dst[0..n)` what `StrNCpy` specifies and does not touch `dst` beyond `n` |
| `ReadStream.ReadStr` | src/main.c:22-31 | appending every character of the stream to a zero builder and dumping it gives `strncpy` of the stream plus a NUL, which is the stream plus a NUL when the stream has no NUL |

## Left out

- `_log_error` / `log_error` (src/CCFuncs.h:44, 59-68): formatted console output only.
- The `realloc` failure path and its `assert` (src/CCFuncs.h:17-18, 35-36): allocation always succeeds in the model.
- `CCFuncs.Realloc`: always returns a fresh array. A real `realloc` may grow the block in place, but no caller observes the difference.
- Integer overflow: `count` and `capacity` are unbounded naturals. Instead of modelling wrap-around of `capacity*sizeof(*items)`, `Append` and `AppendMany` require that the capacity they will reach, times `elemSize` (`sizeof(*items)`), fits in a 64-bit `size_t`. `DynArray.Valid()` keeps that bound, so `count + n` cannot wrap either.
- `CCFuncs.DynArray.AppendMany`: when `newItems` is the record's own array, it requires `n <= count`, so the copied prefix and the tail do not overlap. An overlapping self-append is undefined for `memcpy`. The repository never calls `da_append_many`.
- C's `char` is a byte, while the model's `char` is any Unicode scalar value. Only NUL is singled out by `strncpy` and `sb_dump_str`, so no proved property depends on the difference.
- A record with no allocation has a null `items` pointer in C. The model uses an empty array for it.
- `ReadStream.ReadStr`: the stream is the sequence of characters read before end of file. The source stores `fgetc`'s result in a plain `char` before comparing it with `EOF` (src/main.c:24-25), and that is a defect that is not modelled: where `char` is signed, a data byte 0xFF ends the read early, and where it is unsigned, `c` never equals `EOF` and the loop never ends. The stream is also bounded below 2^63 characters so that no reallocation size overflows.
- `get_music_str_tag`, `load_music_cover`, `load_music`, `unload_music`, `draw_player`, `button` and `main` (src/main.c:13-20, 34-176; main.c): these start a process with `popen`, call the graphics and audio library, and run the window loop.
- `src/player.c` and `src/player.h`: the seek-slider clamp and the title scroll are floating-point arithmetic on frame time and mouse position, mixed in with input and drawing calls.
