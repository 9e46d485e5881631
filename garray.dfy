/** GLib's growable arrays (glib/garray.c): GArray, whose elements are `eltSize` bytes each
    and which may keep a zeroed element past its end, and GPtrArray, an array of pointers.
    An element is modelled as one nat (0 for an element whose bytes are all zero), a
    pointer as a nat (0 for NULL). `alloc` is in bytes for GArray and in pointers for
    GPtrArray, as in the source. */
module GLibArray {
  import opened Wrappers

  /** MIN_ARRAY_SIZE. */
  const MinArraySize: nat := 16

  const Pow31: nat := 0x8000_0000

  /** NULL. */
  const Null: nat := 0

  function Pow2(e: nat): (r: nat)
    ensures r >= 1
  {
    if e == 0 then 1 else 2 * Pow2(e - 1)
  }

  predicate IsPow2(n: nat)
    decreases n
  {
    n == 1 || (n >= 2 && n % 2 == 0 && IsPow2(n / 2))
  }

  /** The first power of two from n on (n itself a power of two) that is at least num. */
  function PowAtLeast(num: nat, n: nat): nat
    requires n >= 1
    decreases num - n
  {
    if n >= num then n else PowAtLeast(num, 2 * n)
  }

  /** What `g_nearest_pow(num)` computes for a 32-bit unsigned num: the smallest power of
      two at least num, or num itself when that power does not fit in 32 bits. */
  function NearestPow(num: nat): nat
  {
    if num > Pow31 then num else PowAtLeast(num, 1)
  }

  lemma {:induction false} PowAtLeastProperties(num: nat, n: nat)
    requires n >= 1 && IsPow2(n) && (n == 1 || n < 2 * num)
    ensures IsPow2(PowAtLeast(num, n)) && num <= PowAtLeast(num, n)
    ensures PowAtLeast(num, n) == 1 || PowAtLeast(num, n) < 2 * num
    decreases num - n
  {
    if n < num {
      assert (2 * n) / 2 == n;
      PowAtLeastProperties(num, 2 * n);
    }
  }

  /** `g_nearest_pow` gives a power of two no smaller than num and less than twice num (or 1),
      so it always fits in 32 bits; past 2^31 it gives num back. */
  lemma NearestPowIsSmallest(num: nat)
    ensures num <= Pow31 ==>
      IsPow2(NearestPow(num)) && num <= NearestPow(num) && (NearestPow(num) == 1 || NearestPow(num) < 2 * num)
    ensures num > Pow31 ==> NearestPow(num) == num
    ensures num <= NearestPow(num) && (num < UintModulus ==> NearestPow(num) < UintModulus)
  {
    if num <= Pow31 {
      PowAtLeastProperties(num, 1);
    }
  }

  /** `g_nearest_pow`, with the doubling wrapping to 0 past 2^31 as a guint does. */
  method NearestPowLoop(num: nat) returns (r: nat)
    requires num < UintModulus
    ensures r == NearestPow(num)
  {
    var n: nat := 1;
    ghost var e: nat := 0;
    while n < num && n > 0
      invariant n != 0 ==> n == Pow2(e) && e <= 31 && PowAtLeast(num, n) == PowAtLeast(num, 1)
      invariant n == 0 ==> num > Pow31
      decreases if n == 0 then 0 else 32 - e
    {
      Pow2Of31();
      Pow2Monotone(e, 31);
      n := (n * 2) % UintModulus;
      if e < 31 {
        Pow2Monotone(e + 1, 31);
        e := e + 1;
      }
    }
    if n != 0 {
      Pow2Of31();
      Pow2Monotone(e, 31);
      r := n;
    } else {
      r := num;
    }
  }

  lemma {:induction false} Pow2Monotone(a: nat, b: nat)
    requires a <= b
    ensures Pow2(a) <= Pow2(b)
    decreases b - a
  {
    if a < b {
      Pow2Monotone(a + 1, b);
    }
  }

  lemma {:induction false} Pow2Add(a: nat, b: nat)
    ensures Pow2(a + b) == Pow2(a) * Pow2(b)
    decreases a
  {
    if a > 0 {
      Pow2Add(a - 1, b);
    }
  }

  lemma Pow2Of31()
    ensures Pow2(31) == Pow31
  {
    assert Pow2(4) == 16;
    Pow2Add(4, 4);
    Pow2Add(8, 8);
    Pow2Add(16, 15);
    Pow2Add(8, 7);
    Pow2Add(4, 3);
  }

  lemma MulCancel(x: nat, y: nat, b: nat)
    requires b > 0 && x * b < y * b
    ensures x < y
  {
    if x >= y {
      MulMono(y, x, b);
    }
  }
  lemma {:induction false} MulMono(x: nat, y: nat, b: nat)
    requires x <= y
    ensures x * b <= y * b
    decreases y - x
  {
    if x < y {
      MulMono(x + 1, y, b);
      assert (x + 1) * b == x * b + b;
    }
  }
  lemma DivAtLeast(a: nat, b: nat, k: nat)
    requires b > 0 && a >= b * k
    ensures a / b >= k
  {
    var q := a / b;
    assert a == q * b + a % b;
    assert (q + 1) * b == q * b + b;
    assert k * b < (q + 1) * b;
    MulCancel(k, q + 1, b);
  }
  lemma DivMonotone(a: nat, c: nat, b: nat)
    requires b > 0 && a <= c
    ensures a / b <= c / b
  {
    var q := a / b;
    assert a == q * b + a % b;
    DivAtLeast(c, b, q);
  }

  /** memcpy/memmove of whole elements: vals written over a[at..at + |vals|]. */
  method Blit(a: array<nat>, at: nat, vals: seq<nat>)
    requires at + |vals| <= a.Length
    modifies a
    ensures a[..at] == old(a[..at]) && a[at..at + |vals|] == vals
    ensures a[at + |vals|..] == old(a[at + |vals|..])
  {
    forall i | 0 <= i < |vals| {
      a[at + i] := vals[i];
    }
  }

  /** The memset of a clearing array: zeros over a[from..to]. */
  method ZeroFill(a: array<nat>, from: nat, to: nat)
    requires from <= to <= a.Length
    modifies a
    ensures a[..from] == old(a[..from])
    ensures forall k :: from <= k < to ==> a[k] == 0
  {
    forall k | from <= k < to {
      a[k] := 0;
    }
  }

  /** The memmove and memcpy of a prepend: vals in front of the first len elements. */
  method PlaceBefore(a: array<nat>, len: nat, vals: seq<nat>)
    requires len + |vals| <= a.Length
    modifies a
    ensures a[..|vals| + len] == vals + old(a[..len])
  {
    var n := |vals|;
    var prev := a[..len];
    Blit(a, n, prev);
    assert a[n..][..len] == prev;
    Blit(a, 0, vals);
    assert a[n..][..len] == prev;
    assert a[..n + len] == a[..n] + a[n..][..len];
  }

  /** The memmove and memcpy of an insertion: vals at index among the first len elements. */
  method PlaceAt(a: array<nat>, len: nat, index: nat, vals: seq<nat>)
    requires index <= len && len + |vals| <= a.Length
    modifies a
    ensures a[..len + |vals|] == old(a[..len])[..index] + vals + old(a[..len])[index..]
  {
    ghost var before := a[..len];
    var n := |vals|;
    var tail := a[index..len];
    forall k | index <= k < len {
      a[k + n] := tail[k - index];
    }
    forall k | 0 <= k < n {
      a[index + k] := vals[k];
    }
    ghost var want := before[..index] + vals + before[index..];
    assert forall k :: 0 <= k < len + n ==> a[k] == want[k] by {
      forall k | 0 <= k < len + n
        ensures a[k] == want[k]
      {
        if k < index {
        } else if k < index + n {
          assert a[index + (k - index)] == vals[k - index];
        } else {
          assert a[(k - n - index + index) + n] == tail[k - n - index];
        }
      }
    }
  }

  /** The memmove of a removal: the elements from `from` up to len moved down to index. */
  method CloseGap(a: array<nat>, len: nat, index: nat, from: nat)
    requires index <= from <= len <= a.Length
    modifies a
    ensures a[..len - (from - index)] == old(a[..len])[..index] + old(a[..len])[from..]
  {
    ghost var before := a[..len];
    var tail := a[from..len];
    Blit(a, index, tail);
    assert a[..len - (from - index)] == a[..index] + a[index..index + |tail|];
  }

  /** The guard of `g_array_remove_range` and `g_ptr_array_remove_range` as written: the
      sum index + length is a guint and wraps. */
  predicate RemoveRangeGuardAsWritten(index: nat, length: nat, len: nat)
  {
    index < len && (index + length) % UintModulus <= len
  }

  /** A range that ends past the array passes the wrapped guard; removing it would set the
      length to (len - length) mod 2^32, larger than before. */
  lemma RemoveRangeGuardWraps()
    ensures RemoveRangeGuardAsWritten(1, UintModulus - 1, 2)
    ensures 1 + (UintModulus - 1) > 2 && (2 - (UintModulus - 1)) % UintModulus == 3
  {
  }

  /** The guard as intended: the range lies inside the array. */
  predicate RemoveRangeGuard(index: nat, length: nat, len: nat)
  {
    index < len && index + length <= len
  }

  /** The two guards agree whenever the sum does not wrap. */
  lemma RemoveRangeGuardsAgree(index: nat, length: nat, len: nat)
    requires len < UintModulus && length < UintModulus
    ensures index + length < UintModulus ==> (RemoveRangeGuardAsWritten(index, length, len) <==> RemoveRangeGuard(index, length, len))
    ensures RemoveRangeGuard(index, length, len) ==> RemoveRangeGuardAsWritten(index, length, len)
  {
  }

  /** The first index of x in s. */
  function FirstIndex(s: seq<nat>, x: nat): (r: nat)
    requires x in s
    ensures r < |s| && s[r] == x && forall k :: 0 <= k < r ==> s[k] != x
  {
    if s[0] == x then 0 else 1 + FirstIndex(s[1..], x)
  }

  /** The array after `remove_index_fast(index)`: the last element fills the hole. */
  function FastRemoved(s: seq<nat>, index: nat): (r: seq<nat>)
    requires index < |s|
  {
    if index == |s| - 1 then s[..index] else s[..|s| - 1][index := s[|s| - 1]]
  }

  /** `remove_index_fast` shortens the array by one, puts the last element in the hole and
      changes no other slot. */
  lemma FastRemovedProperties(s: seq<nat>, index: nat)
    requires index < |s|
    ensures |FastRemoved(s, index)| == |s| - 1
    ensures forall k :: 0 <= k < |s| - 1 && k != index ==> FastRemoved(s, index)[k] == s[k]
    ensures index < |s| - 1 ==> FastRemoved(s, index)[index] == s[|s| - 1]
    ensures multiset(FastRemoved(s, index)) == multiset(s) - multiset{s[index]}
  {
    FastRemovedMultiset(s, index);
  }

  lemma FastRemovedMultiset(s: seq<nat>, index: nat)
    requires index < |s|
    ensures multiset(FastRemoved(s, index)) == multiset(s) - multiset{s[index]}
  {
    var r := FastRemoved(s, index);
    if index == |s| - 1 {
      assert s == s[..index] + [s[index]];
    } else {
      var t := s[..|s| - 1];
      var a, b := t[..index], t[index + 1..];
      assert s == t + [s[|s| - 1]];
      assert t == a + [s[index]] + b;
      assert r == a + [s[|s| - 1]] + b;
      calc {
        multiset(s);
        multiset(a) + multiset{s[index]} + multiset(b) + multiset{s[|s| - 1]};
        multiset(r) + multiset{s[index]};
      }
    }
  }

  /** A GArray (struct _GRealArray). */
  class GArray {
    var data: array<nat>
    var len: nat
    var alloc: nat
    const eltSize: nat
    const zeroTerminated: bool
    const clear: bool
    var refCount: int
    var live: bool

    /** The one extra element a zero-terminated array keeps. */
    function Zt(): nat { if zeroTerminated then 1 else 0 }

    /** The buffer holds alloc / eltSize whole elements and the length fits. */
    predicate Shape()
      reads this
    {
      live && eltSize > 0 && alloc < UintModulus && len < UintModulus
      && data.Length == alloc / eltSize && len <= data.Length
    }

    predicate Valid()
      reads this, data
    {
      Shape() && len + Zt() <= data.Length && (zeroTerminated ==> data[len] == 0)
    }

    function Contents(): seq<nat>
      reads this, data
      requires len <= data.Length
    {
      data[..len]
    }

    /** `g_array_sized_new`. */
    constructor SizedNew(zeroTerminated: bool, clear: bool, eltSize: nat, reserved: nat)
      requires eltSize > 0 && eltSize * (reserved + (if zeroTerminated then 1 else 0)) < UintModulus
      ensures Valid() && Contents() == [] && refCount == 1
      ensures this.eltSize == eltSize && this.zeroTerminated == zeroTerminated && this.clear == clear
      ensures len + reserved <= data.Length
      ensures !zeroTerminated && reserved == 0 ==> alloc == 0
    {
      this.eltSize := eltSize;
      this.zeroTerminated := zeroTerminated;
      this.clear := clear;
      data := new nat[0];
      len, alloc := 0, 0;
      refCount := 1;
      live := true;
      new;
      if zeroTerminated || reserved != 0 {
        MaybeExpand(reserved);
        if zeroTerminated {
          data[len] := 0;
        }
      }
    }

    /** `g_array_maybe_expand(n)`: room for n more elements and the terminator. */
    method MaybeExpand(n: nat)
      requires Shape() && eltSize * (len + n + Zt()) < UintModulus
      modifies this
      ensures Shape() && len == old(len) && refCount == old(refCount)
      ensures len + n + Zt() <= data.Length
      ensures old(data.Length) <= data.Length && data[..old(data.Length)] == old(data[..])
      ensures eltSize * (len + n + Zt()) > old(alloc) ==>
        alloc == Max(NearestPow(eltSize * (len + n + Zt())), MinArraySize) && fresh(data)
      ensures eltSize * (len + n + Zt()) <= old(alloc) ==> alloc == old(alloc) && data == old(data)
    {
      var want := eltSize * (len + n + Zt());
      if want > alloc {
        var p := NearestPowLoop(want);
        NearestPowIsSmallest(want);
        if p < MinArraySize {
          p := MinArraySize;
        }
        DivAtLeast(p, eltSize, len + n + Zt());
        DivMonotone(alloc, p, eltSize);
        var grown := new nat[p / eltSize];
        forall i | 0 <= i < data.Length {
          grown[i] := data[i];
        }
        assert grown[..data.Length] == data[..];
        data := grown;
        alloc := p;
      } else {
        DivAtLeast(alloc, eltSize, len + n + Zt());
      }
    }

    /** `g_array_zero_terminate`. */
    method Terminate()
      requires Shape() && len + Zt() <= data.Length
      modifies data
      ensures Valid() && data[..len] == old(data[..len])
    {
      if zeroTerminated {
        data[len] := 0;
      }
    }

    /** `g_array_append_vals`. */
    method AppendVals(vals: seq<nat>)
      requires Valid() && len + |vals| < UintModulus && eltSize * (len + |vals| + Zt()) < UintModulus
      modifies this, data
      ensures Valid() && Contents() == old(Contents()) + vals && refCount == old(refCount)
    {
      ghost var before := Contents();
      MaybeExpand(|vals|);
      assert data[..len] == before;
      Blit(data, len, vals);
      assert data[..len + |vals|] == data[..len] + data[len..len + |vals|];
      len := len + |vals|;
      Terminate();
    }

    /** `g_array_prepend_vals`. */
    method PrependVals(vals: seq<nat>)
      requires Valid() && len + |vals| < UintModulus && eltSize * (len + |vals| + Zt()) < UintModulus
      modifies this, data
      ensures Valid() && Contents() == vals + old(Contents()) && refCount == old(refCount)
    {
      ghost var before := Contents();
      MaybeExpand(|vals|);
      assert data[..len] == before;
      PlaceBefore(data, len, vals);
      len := len + |vals|;
      Terminate();
    }

    /** `g_array_insert_vals`. The source does not check the index; one past the length
        would move memory outside the array. */
    method InsertVals(index: nat, vals: seq<nat>)
      requires Valid() && index <= len
      requires len + |vals| < UintModulus && eltSize * (len + |vals| + Zt()) < UintModulus
      modifies this, data
      ensures Valid() && refCount == old(refCount)
      ensures Contents() == old(Contents())[..index] + vals + old(Contents())[index..]
    {
      ghost var before := Contents();
      MaybeExpand(|vals|);
      assert data[..len] == before;
      PlaceAt(data, len, index, vals);
      len := len + |vals|;
      Terminate();
    }

    /** `g_array_set_size`: grows (zero-filled when the array clears) or truncates. */
    method SetSize(length: nat)
      requires Valid() && length < UintModulus && eltSize * (length + Zt()) < UintModulus
      modifies this, data
      ensures Valid() && len == length && refCount == old(refCount)
      ensures length <= old(len) ==> Contents() == old(Contents())[..length]
      ensures length > old(len) ==> Contents()[..old(len)] == old(Contents())
      ensures length > old(len) && clear ==> forall k :: old(len) <= k < length ==> Contents()[k] == 0
    {
      ghost var before := Contents();
      if length > len {
        Grow(length);
      } else if length < len {
        var ok := RemoveRange(length, len - length);
        assert ok;
      }
      ghost var oldLen := len;
      len := length;
      Terminate();
      assert length > oldLen ==> data[..length][..oldLen] == data[..oldLen];
    }

    /** The growing half of `g_array_set_size`: room up to length, zeroed when the array
        clears. */
    method Grow(length: nat)
      requires Valid() && len < length < UintModulus && eltSize * (length + Zt()) < UintModulus
      modifies this, data
      ensures Shape() && len == old(len) && refCount == old(refCount) && length + Zt() <= data.Length
      ensures data == old(data) || fresh(data)
      ensures data[..len] == old(Contents())
      ensures clear ==> forall k :: len <= k < length ==> data[k] == 0
    {
      ghost var before := Contents();
      MaybeExpand(length - len);
      assert data[..len] == before;
      if clear {
        ZeroFill(data, len, length);
      }
    }

    /** `g_array_remove_index`: NULL (ok false) and no change unless index < len; later
        elements shift down. */
    method RemoveIndex(index: nat) returns (ok: bool)
      requires Valid()
      modifies this, data
      ensures Valid() && refCount == old(refCount)
      ensures ok <==> index < old(len)
      ensures ok ==> Contents() == old(Contents())[..index] + old(Contents())[index + 1..]
      ensures !ok ==> unchanged(this) && unchanged(data)
    {
      if !(index < len) {
        return false;
      }
      ghost var before := Contents();
      if index != len - 1 {
        CloseGap(data, len, index, index + 1);
      } else {
        assert data[..len - 1] == before[..index] + before[index + 1..];
      }
      len := len - 1;
      Terminate();
      return true;
    }

    /** `g_array_remove_index_fast`. */
    method RemoveIndexFast(index: nat) returns (ok: bool)
      requires Valid()
      modifies this, data
      ensures Valid() && refCount == old(refCount)
      ensures ok <==> index < old(len)
      ensures ok ==> Contents() == FastRemoved(old(Contents()), index)
      ensures !ok ==> unchanged(this) && unchanged(data)
    {
      if !(index < len) {
        return false;
      }
      ghost var before := Contents();
      if index != len - 1 {
        data[index] := data[len - 1];
        assert data[..len - 1] == before[..len - 1][index := before[len - 1]];
      } else {
        assert data[..len - 1] == before[..index];
      }
      len := len - 1;
      Terminate();
      return true;
    }

    /** `g_array_remove_range`, with the range check an array needs. */
    method RemoveRange(index: nat, length: nat) returns (ok: bool)
      requires Valid()
      modifies this, data
      ensures Valid() && refCount == old(refCount)
      ensures ok <==> RemoveRangeGuard(index, length, old(len))
      ensures ok ==> Contents() == old(Contents())[..index] + old(Contents())[index + length..]
      ensures !ok ==> unchanged(this) && unchanged(data)
      ensures data == old(data)
    {
      if !(index < len) || !(index + length <= len) {
        return false;
      }
      ghost var before := Contents();
      if index + length != len {
        CloseGap(data, len, index, index + length);
      }
      assert data[..len - length] == before[..index] + before[index + length..];
      len := len - length;
      Terminate();
      return true;
    }

    /** `g_array_ref`. */
    method Ref()
      requires Valid()
      modifies this
      ensures Valid() && refCount == old(refCount) + 1 && Contents() == old(Contents())
    {
      refCount := refCount + 1;
    }

    /** `g_array_unref`: the last reference frees the array. */
    method Unref() returns (freed: bool)
      requires Valid()
      modifies this
      ensures refCount == old(refCount) - 1 && freed == (refCount == 0)
      ensures freed ==> !live
      ensures !freed ==> Valid() && Contents() == old(Contents())
    {
      refCount := refCount - 1;
      freed := refCount == 0;
      if freed {
        live := false;
      }
    }

    /** `g_array_free(free_segment)`: returns the buffer unless it is freed too; when other
        references remain the wrapper is kept, emptied. */
    method Free(freeSegment: bool) returns (segment: array?<nat>)
      requires Valid()
      modifies this
      ensures refCount == old(refCount) - 1
      ensures segment == (if freeSegment then null else old(data))
      ensures refCount != 0 ==> live && len == 0 && alloc == 0 && data.Length == 0
      ensures refCount == 0 ==> !live
    {
      refCount := refCount - 1;
      var preserve := refCount != 0;
      if freeSegment {
        segment := null;
      } else {
        segment := data;
      }
      if preserve {
        data := new nat[0];
        len, alloc := 0, 0;
      } else {
        live := false;
      }
    }
  }

  /** The gint view of a guint: values from 2^31 on are negative. */
  function AsGint(x: nat): int
  {
    if x >= Pow31 then x - UintModulus else x
  }

  /** A GPtrArray (struct _GRealPtrArray). */
  class GPtrArray {
    var pdata: array<nat>
    var len: nat
    var alloc: nat
    var refCount: int
    var live: bool

    predicate Valid()
      reads this
    {
      live && pdata.Length == alloc && len <= alloc && alloc < UintModulus
    }

    function Contents(): seq<nat>
      reads this, pdata
      requires len <= pdata.Length
    {
      pdata[..len]
    }

    /** `g_ptr_array_sized_new`. */
    constructor SizedNew(reserved: nat)
      requires reserved < UintModulus
      ensures Valid() && Contents() == [] && refCount == 1 && reserved <= alloc
      ensures reserved == 0 ==> alloc == 0
    {
      pdata := new nat[0];
      len, alloc := 0, 0;
      refCount := 1;
      live := true;
      new;
      if reserved != 0 {
        MaybeExpand(reserved);
      }
    }

    /** `g_ptr_array_maybe_expand(n)`. */
    method MaybeExpand(n: nat)
      requires Valid() && len + n < UintModulus
      modifies this
      ensures Valid() && len == old(len) && refCount == old(refCount) && len + n <= alloc
      ensures old(pdata.Length) <= pdata.Length && pdata[..old(pdata.Length)] == old(pdata[..])
      ensures len + n > old(alloc) ==> alloc == Max(NearestPow(len + n), MinArraySize) && fresh(pdata)
      ensures len + n <= old(alloc) ==> alloc == old(alloc) && pdata == old(pdata)
    {
      if len + n > alloc {
        var p := NearestPowLoop(len + n);
        NearestPowIsSmallest(len + n);
        if p < MinArraySize {
          p := MinArraySize;
        }
        var grown := new nat[p];
        forall i | 0 <= i < pdata.Length {
          grown[i] := pdata[i];
        }
        assert grown[..pdata.Length] == pdata[..];
        pdata := grown;
        alloc := p;
      }
    }

    /** `g_ptr_array_add`. */
    method Add(x: nat)
      requires Valid() && len + 1 < UintModulus
      modifies this, pdata
      ensures Valid() && Contents() == old(Contents()) + [x] && refCount == old(refCount)
    {
      ghost var before := Contents();
      MaybeExpand(1);
      assert pdata[..len] == before;
      pdata[len] := x;
      assert pdata[..len + 1] == before + [x];
      len := len + 1;
    }

    /** `g_ptr_array_insert(index, x)`: -1 appends; an index outside -1 .. len changes
        nothing. */
    method Insert(index: int, x: nat) returns (ok: bool)
      requires Valid() && len + 1 < UintModulus
      modifies this, pdata
      ensures Valid() && refCount == old(refCount)
      ensures ok <==> -1 <= index <= AsGint(old(len))
      ensures ok ==> var at := if index < 0 then old(len) else index;
        Contents() == old(Contents())[..at] + [x] + old(Contents())[at..]
      ensures !ok ==> unchanged(this) && unchanged(pdata)
    {
      if !(index >= -1) || !(index <= AsGint(len)) {
        return false;
      }
      ghost var before := Contents();
      MaybeExpand(1);
      assert pdata[..len] == before;
      var at: nat := if index < 0 then len else index;
      PlaceAt(pdata, len, at, [x]);
      len := len + 1;
      return true;
    }

    /** `g_ptr_array_set_size`: new slots are NULL. A negative length is not accepted (the
        source would read it as a huge unsigned size). */
    method SetSize(length: nat)
      requires Valid() && length < UintModulus
      modifies this, pdata
      ensures Valid() && len == length && refCount == old(refCount)
      ensures length <= old(len) ==> Contents() == old(Contents())[..length]
      ensures length > old(len) ==> Contents() == old(Contents()) + seq(length - old(len), _ => Null)
    {
      ghost var before := Contents();
      if length > len {
        MaybeExpand(length - len);
        assert pdata[..len] == before;
        var i := len;
        while i < length
          invariant len <= i <= length && pdata.Length == alloc
          invariant pdata[..len] == before
          invariant forall k :: len <= k < i ==> pdata[k] == Null
          modifies pdata
        {
          pdata[i] := Null;
          i := i + 1;
        }
        assert pdata[..length] == before + seq(length - len, _ => Null);
      } else if length < len {
        var ok := RemoveRange(length, len - length);
        assert ok;
      }
      len := length;
    }

    /** `g_ptr_array_remove_index`: the removed pointer, NULL with no change when index is
        past the end. */
    method RemoveIndex(index: nat) returns (result: nat)
      requires Valid()
      modifies this, pdata
      ensures Valid() && refCount == old(refCount)
      ensures index < old(len) ==>
        result == old(Contents())[index] && Contents() == old(Contents())[..index] + old(Contents())[index + 1..]
      ensures index >= old(len) ==> result == Null && unchanged(this) && unchanged(pdata)
    {
      if !(index < len) {
        return Null;
      }
      ghost var before := Contents();
      result := pdata[index];
      if index != len - 1 {
        CloseGap(pdata, len, index, index + 1);
      }
      assert pdata[..len - 1] == before[..index] + before[index + 1..];
      len := len - 1;
    }

    /** `g_ptr_array_remove_index_fast`. */
    method RemoveIndexFast(index: nat) returns (result: nat)
      requires Valid()
      modifies this, pdata
      ensures Valid() && refCount == old(refCount)
      ensures index < old(len) ==>
        result == old(Contents())[index] && Contents() == FastRemoved(old(Contents()), index)
      ensures index >= old(len) ==> result == Null && unchanged(this) && unchanged(pdata)
    {
      if !(index < len) {
        return Null;
      }
      ghost var before := Contents();
      result := pdata[index];
      if index != len - 1 {
        pdata[index] := pdata[len - 1];
        assert pdata[..len - 1] == before[..len - 1][index := before[len - 1]];
      } else {
        assert pdata[..len - 1] == before[..index];
      }
      len := len - 1;
    }

    /** `g_ptr_array_remove_range`, with the range check an array needs. */
    method RemoveRange(index: nat, length: nat) returns (ok: bool)
      requires Valid()
      modifies this, pdata
      ensures Valid() && refCount == old(refCount)
      ensures ok <==> RemoveRangeGuard(index, length, old(len))
      ensures ok ==> Contents() == old(Contents())[..index] + old(Contents())[index + length..]
      ensures !ok ==> unchanged(this) && unchanged(pdata)
    {
      if !(index < len) || !(index + length <= len) {
        return false;
      }
      ghost var before := Contents();
      if index + length != len {
        CloseGap(pdata, len, index, index + length);
      }
      assert pdata[..len - length] == before[..index] + before[index + length..];
      len := len - length;
      return true;
    }

    /** `g_ptr_array_remove(x)`: removes the first occurrence only. */
    method Remove(x: nat) returns (found: bool)
      requires Valid()
      modifies this, pdata
      ensures Valid() && refCount == old(refCount)
      ensures found <==> x in old(Contents())
      ensures found ==> var i := FirstIndex(old(Contents()), x);
        Contents() == old(Contents())[..i] + old(Contents())[i + 1..]
      ensures !found ==> unchanged(this) && unchanged(pdata)
    {
      var i := 0;
      while i < len
        invariant 0 <= i <= len
        invariant forall k :: 0 <= k < i ==> pdata[k] != x
      {
        if pdata[i] == x {
          assert Contents()[i] == x;
          assert FirstIndex(Contents(), x) == i;
          var _ := RemoveIndex(i);
          return true;
        }
        i := i + 1;
      }
      assert forall k :: 0 <= k < len ==> Contents()[k] != x;
      return false;
    }

    /** `g_ptr_array_remove_fast(x)`. */
    method RemoveFast(x: nat) returns (found: bool)
      requires Valid()
      modifies this, pdata
      ensures Valid() && refCount == old(refCount)
      ensures found <==> x in old(Contents())
      ensures found ==> Contents() == FastRemoved(old(Contents()), FirstIndex(old(Contents()), x))
      ensures !found ==> unchanged(this) && unchanged(pdata)
    {
      var i := 0;
      while i < len
        invariant 0 <= i <= len
        invariant forall k :: 0 <= k < i ==> pdata[k] != x
      {
        if pdata[i] == x {
          assert Contents()[i] == x;
          assert FirstIndex(Contents(), x) == i;
          var _ := RemoveIndexFast(i);
          return true;
        }
        i := i + 1;
      }
      assert forall k :: 0 <= k < len ==> Contents()[k] != x;
      return false;
    }

    /** `g_ptr_array_ref`. */
    method Ref()
      requires Valid()
      modifies this
      ensures Valid() && refCount == old(refCount) + 1 && Contents() == old(Contents())
    {
      refCount := refCount + 1;
    }

    /** `g_ptr_array_unref`: the last reference frees the array. */
    method Unref() returns (freed: bool)
      requires Valid()
      modifies this
      ensures refCount == old(refCount) - 1 && freed == (refCount == 0)
      ensures freed ==> !live
      ensures !freed ==> Valid() && Contents() == old(Contents())
    {
      refCount := refCount - 1;
      freed := refCount == 0;
      if freed {
        live := false;
      }
    }

    /** `g_ptr_array_free(free_segment)`. */
    method Free(freeSegment: bool) returns (segment: array?<nat>)
      requires Valid()
      modifies this
      ensures refCount == old(refCount) - 1
      ensures segment == (if freeSegment then null else old(pdata))
      ensures refCount != 0 ==> Valid() && len == 0 && alloc == 0
      ensures refCount == 0 ==> !live
    {
      refCount := refCount - 1;
      var preserve := refCount != 0;
      if freeSegment {
        segment := null;
      } else {
        segment := pdata;
      }
      if preserve {
        pdata := new nat[0];
        len, alloc := 0, 0;
      } else {
        live := false;
      }
    }
  }
}
