/** The growable buffer of `CCFuncs.h`: a record `{items, count, capacity}`
    that `da_append` and `da_append_many` update in place, reallocating the
    backing array when it is full, and the `StringBuilder` dump
    `sb_dump_str`. */
module CCFuncs {
  import opened CString

  /** `DA_INIT_CAP`: the capacity of the first allocation. */
  const InitCap: nat := 128

  /** `SIZE_MAX` of a 64-bit `size_t`: every byte count handed to `realloc`
      must fit in it. */
  const SizeMax: nat := 0xFFFF_FFFF_FFFF_FFFF

  /** `c` doubled `k` times, that is `c * 2^k`. */
  function Doubling(c: nat, k: nat): (r: nat)
    ensures c <= r
    ensures c > 0 && k > 0 ==> 2 * c <= r
  {
    if k == 0 then c else 2 * Doubling(c, k - 1)
  }

  lemma {:induction false} DoublingShift(c: nat, k: nat)
    ensures Doubling(2 * c, k) == Doubling(c, k + 1)
  {
    if k > 0 {
      DoublingShift(c, k - 1);
    }
  }

  lemma {:induction false} DoublingAdd(c: nat, j: nat, k: nat)
    ensures Doubling(Doubling(c, j), k) == Doubling(c, j + k)
  {
    if k > 0 {
      DoublingAdd(c, j, k - 1);
    }
  }

  /** The capacities a record that starts as `{0}` can have: none yet, or
      `DA_INIT_CAP` doubled some number of times. */
  ghost predicate IsCapacity(c: nat)
  {
    c == 0 || exists k: nat :: c == Doubling(InitCap, k)
  }

  /** The doubling loop of `da_append_many`: double `cap` until it holds
      `need` items. */
  function Doubled(cap: nat, need: nat): (r: nat)
    requires cap > 0
    ensures cap <= r && need <= r
    decreases if cap < need then need - cap else 0
  {
    if need <= cap then cap else Doubled(2 * cap, need)
  }

  /** `Doubled` is `cap * 2^k` for the least `k` that makes it hold `need`
      items: it is large enough, and one doubling fewer would not be. */
  lemma {:induction false} DoubledIsLeastDoubling(cap: nat, need: nat) returns (k: nat)
    requires cap > 0
    ensures Doubled(cap, need) == Doubling(cap, k)
    ensures need <= Doubled(cap, need)
    ensures k > 0 ==> Doubling(cap, k - 1) < need
    decreases if cap < need then need - cap else 0
  {
    if need <= cap {
      k := 0;
    } else {
      var j := DoubledIsLeastDoubling(2 * cap, need);
      k := j + 1;
      DoublingShift(cap, j);
      if j > 0 {
        DoublingShift(cap, j - 1);
      }
    }
  }

  /** No doubling of `cap` that holds `need` items is smaller than `Doubled`. */
  lemma {:induction false} DoubledIsSmallest(cap: nat, need: nat, k: nat)
    requires cap > 0 && need <= Doubling(cap, k)
    ensures Doubled(cap, need) <= Doubling(cap, k)
    decreases k
  {
    if need > cap {
      assert k > 0;
      DoublingShift(cap, k - 1);
      DoubledIsSmallest(2 * cap, need, k - 1);
    }
  }

  /** The capacity after `da_append` on a record holding `count` items. */
  function AppendCapacity(count: nat, cap: nat): (r: nat)
    ensures cap <= r
    ensures count <= cap ==> count < r
  {
    if count >= cap then (if cap == 0 then InitCap else cap * 2) else cap
  }

  /** The capacity after `da_append_many` of `n` items on a record holding
      `count` items. */
  function AppendManyCapacity(count: nat, n: nat, cap: nat): (r: nat)
    ensures cap <= r && count + n <= r
  {
    if count + n > cap then Doubled(if cap == 0 then InitCap else cap, count + n) else cap
  }

  /** `da_append` keeps `count <= capacity` and keeps the capacity `0` or
      `128 * 2^k`; it leaves the capacity alone exactly when there is room. */
  lemma AppendKeepsCapacity(count: nat, cap: nat)
    requires count <= cap && IsCapacity(cap)
    ensures count + 1 <= AppendCapacity(count, cap) && IsCapacity(AppendCapacity(count, cap))
    ensures AppendCapacity(count, cap) == cap <==> count < cap
  {
    if count == cap && cap != 0 {
      var k: nat :| cap == Doubling(InitCap, k);
      assert cap * 2 == Doubling(InitCap, k + 1);
    } else if cap == 0 {
      assert InitCap == Doubling(InitCap, 0);
    }
  }

  /** `da_append_many` keeps `count <= capacity` and keeps the capacity `0` or
      `128 * 2^k`; it leaves the capacity alone exactly when the items fit. */
  lemma AppendManyKeepsCapacity(count: nat, n: nat, cap: nat)
    requires count <= cap && IsCapacity(cap)
    ensures count + n <= AppendManyCapacity(count, n, cap)
    ensures IsCapacity(AppendManyCapacity(count, n, cap))
    ensures AppendManyCapacity(count, n, cap) == cap <==> count + n <= cap
  {
    if count + n > cap {
      var start := if cap == 0 then InitCap else cap;
      assert IsCapacity(start) by {
        if cap == 0 {
          assert start == Doubling(InitCap, 0);
        }
      }
      var k := DoubledIsLeastDoubling(start, count + n);
      DoublingKeepsCapacity(start, k);
    }
  }

  lemma DoublingKeepsCapacity(c: nat, k: nat)
    requires c > 0 && IsCapacity(c)
    ensures IsCapacity(Doubling(c, k))
  {
    var j: nat :| c == Doubling(InitCap, j);
    DoublingAdd(InitCap, j, k);
  }

  /** When it has to grow, `da_append_many` picks the smallest sufficient
      capacity of the form `c * 2^k`, where `c` is the old capacity or
      `DA_INIT_CAP` when there was none: it overshoots by less than a factor
      of two unless it stops at `c` itself. */
  lemma AppendManyCapacityIsSmallest(count: nat, n: nat, cap: nat, k: nat)
    requires count + n > cap
    requires count + n <= Doubling(if cap == 0 then InitCap else cap, k)
    ensures AppendManyCapacity(count, n, cap) <= Doubling(if cap == 0 then InitCap else cap, k)
    ensures AppendManyCapacity(count, n, cap) == (if cap == 0 then InitCap else cap)
         || AppendManyCapacity(count, n, cap) < 2 * (count + n)
  {
    var start := if cap == 0 then InitCap else cap;
    assert AppendManyCapacity(count, n, cap) == Doubled(start, count + n);
    DoubledIsSmallest(start, count + n, k);
    var j := DoubledIsLeastDoubling(start, count + n);
  }

  /** Growing by `da_append` never leaves a buffer more than half empty once it
      is past its first allocation: if the capacity was at most twice the
      count (or at most `DA_INIT_CAP`), it stays so. */
  lemma AppendCapacityAtMostDouble(count: nat, cap: nat)
    requires count <= cap && (cap <= InitCap || cap <= 2 * count)
    ensures AppendCapacity(count, cap) <= InitCap || AppendCapacity(count, cap) <= 2 * count
  {
  }

  /** Appending one item with `da_append` grows the record exactly as
      `da_append_many` with one item does. */
  lemma {:induction false} AppendIsAppendManyOfOne(count: nat, cap: nat)
    requires count <= cap
    ensures AppendCapacity(count, cap) == AppendManyCapacity(count, 1, cap)
  {
    if count == cap && cap != 0 {
      assert Doubled(cap, count + 1) == Doubled(2 * cap, count + 1) == 2 * cap;
    }
  }

  /** `realloc`: a fresh block of `len` slots that starts with the old block. */
  method Realloc<T(0)>(a: array<T>, len: nat) returns (b: array<T>)
    requires a.Length <= len
    ensures fresh(b) && b.Length == len
    ensures b[..a.Length] == a[..]
  {
    b := new T[len];
    forall i | 0 <= i < a.Length {
      b[i] := a[i];
    }
  }

  /** `memcpy(dst + off, src, n * sizeof *dst)`: `dst[off..off + n)` takes
      the first `n` items of `src`; the rest of `dst` is left alone. The
      blocks may be the same array when the copied prefix ends before `off`. */
  method MemCpy<T>(dst: array<T>, off: nat, src: array<T>, n: nat)
    requires off + n <= dst.Length && n <= src.Length
    requires src != dst || n <= off
    modifies dst
    ensures dst[..off] == old(dst[..off])
    ensures dst[off..off + n] == old(src[..n])
    ensures dst[off + n..] == old(dst[off + n..])
  {
    forall i | 0 <= i < n {
      dst[off + i] := src[i];
    }
  }

  /** A growable array: `items` holds `capacity` slots, of which the first
      `count` are in use. `elemSize` is `sizeof(*items)`. */
  class DynArray<T(0)> {
    var items: array<T>
    var count: nat
    var capacity: nat
    const elemSize: nat
    /** The items in use, `items[..count]`. */
    ghost var Contents: seq<T>

    ghost predicate Valid()
      reads this, items
    {
      && 0 < elemSize
      && items.Length == capacity
      && count <= capacity
      && IsCapacity(capacity)
      && capacity * elemSize <= SizeMax
      && Contents == items[..count]
    }

    /** The zero record `{0}`: no items and no allocation. */
    constructor (elemSize: nat)
      requires 0 < elemSize
      ensures Valid() && fresh(items)
      ensures Contents == [] && count == 0 && capacity == 0 && this.elemSize == elemSize
    {
      this.elemSize := elemSize;
      items := new T[0];
      count, capacity := 0, 0;
      Contents := [];
    }

    /** `da_append`: grow to `DA_INIT_CAP`, or double, when full; then store
        `item` after the items in use. */
    method Append(item: T)
      requires Valid()
      requires AppendCapacity(count, capacity) * elemSize <= SizeMax
      modifies this, items
      ensures Valid()
      ensures Contents == old(Contents) + [item]
      ensures count == old(count) + 1
      ensures capacity == AppendCapacity(old(count), old(capacity))
      ensures old(count) < old(capacity) ==> items == old(items)
      ensures items == old(items) || fresh(items)
    {
      AppendKeepsCapacity(count, capacity);
      if count >= capacity {
        capacity := if capacity == 0 then InitCap else capacity * 2;
        items := Realloc(items, capacity);
      }
      items[count] := item;
      count := count + 1;
      Contents := Contents + [item];
    }

    /** The growth branch of `da_append_many`: when `n` more items do not
        fit, start from `DA_INIT_CAP` if there was no allocation, double
        until they fit and reallocate. The items in use are kept. */
    method Grow(n: nat)
      requires Valid()
      requires AppendManyCapacity(count, n, capacity) * elemSize <= SizeMax
      modifies this
      ensures Valid()
      ensures count == old(count) && Contents == old(Contents)
      ensures capacity == AppendManyCapacity(old(count), n, old(capacity))
      ensures old(count) + n <= old(capacity) ==> items == old(items)
      ensures items == old(items) || fresh(items)
    {
      AppendManyKeepsCapacity(count, n, capacity);
      if count + n > capacity {
        if capacity == 0 {
          capacity := InitCap;
        }
        while count + n > capacity
          invariant capacity > 0
          invariant Doubled(capacity, count + n) == AppendManyCapacity(old(count), n, old(capacity))
          invariant count == old(count) && items == old(items) && Contents == old(Contents)
          decreases count + n - capacity
        {
          capacity := capacity * 2;
        }
        items := Realloc(items, capacity);
        assert items[..count] == items[..old(items).Length][..count];
      }
    }

    /** `da_append_many`: grow when the `n` items do not fit, then copy
        `newItems[0..n)` after the items in use. */
    method AppendMany(newItems: array<T>, n: nat)
      requires Valid()
      requires n <= newItems.Length && (newItems != items || n <= count)
      requires AppendManyCapacity(count, n, capacity) * elemSize <= SizeMax
      modifies this, items
      ensures Valid()
      ensures Contents == old(Contents) + old(newItems[..n])
      ensures count == old(count) + n
      ensures capacity == AppendManyCapacity(old(count), n, old(capacity))
      ensures old(count) + n <= old(capacity) ==> items == old(items)
      ensures items == old(items) || fresh(items)
    {
      ghost var added := newItems[..n];
      Grow(n);
      MemCpy(items, count, newItems, n);
      assert items[..count] == Contents && items[count..count + n] == added;
      assert items[..count + n] == items[..count] + items[count..count + n];
      count := count + n;
      Contents := Contents + added;
    }

    /** `da_free`: releases the backing array. `count` and `capacity` keep
        their values, so a record that had an allocation is no longer valid
        and must not be appended to again. */
    method Free()
      requires Valid()
      modifies this
      ensures items.Length == 0
      ensures count == old(count) && capacity == old(capacity) && Contents == old(Contents)
      ensures Valid() <==> capacity == 0
    {
      items := new T[0];
    }
  }

  /** The `StringBuilder` record: a growable array of `char`, `sizeof(char) == 1`. */
  type StringBuilder = DynArray<char>

  /** `sb_dump_str`: a fresh buffer of `count + 1` characters holding
      `strncpy(str, items, count)` and a NUL terminator; `sb` is not changed. */
  method DumpStr(sb: StringBuilder) returns (str: array<char>)
    requires sb.Valid()
    ensures fresh(str)
    ensures str.Length == sb.count + 1 && str[sb.count] == NUL
    ensures str[..sb.count] == StrNCpy(sb.Contents, sb.count)
    ensures forall i :: 0 <= i < sb.count ==>
              str[i] == if NUL in sb.Contents[..i] then NUL else sb.Contents[i]
    ensures NUL !in sb.Contents ==> str[..] == sb.Contents + [NUL]
  {
    str := new char[sb.count + 1];
    StrNCpyInto(str, sb.items, sb.count);
    str[sb.count] := NUL;
    assert sb.items[..sb.count] == sb.Contents;
    forall i | 0 <= i < sb.count
      ensures str[i] == if NUL in sb.Contents[..i] then NUL else sb.Contents[i]
    {
      StrNCpyAt(sb.Contents, sb.count, i);
      assert str[i] == str[..sb.count][i];
    }
    if NUL !in sb.Contents {
      StrNCpyNulFree(sb.Contents, sb.count);
      assert str[..] == str[..sb.count] + [str[sb.count]];
    }
  }
}
