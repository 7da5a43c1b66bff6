/**
 * The growable, padded dense vector `DynamicVector<int>` of
 * blaze/math/dense/DynamicVector.h.
 *
 * The vector owns a buffer `v` of `capacity` elements of which the first `size`
 * are in use. The capacity is always a multiple of the lane width W, and the
 * padding `[size, capacity)` always holds the default value 0, so that the
 * vectorised kernels may load and store whole intrinsic values past the logical
 * end without reading garbage or breaking the padding.
 */
module DynamicVectors {
  import opened Intrinsics
  import opened Errors

  // ---------------------------------------------------------------------------
  // Specification functions
  // ---------------------------------------------------------------------------

  /** `adjustCapacity`: the capacity allocated for `minCapacity` elements of a numeric type. */
  function AdjustCapacity(minCapacity: nat): (c: nat)
    ensures c % W == 0
    ensures minCapacity <= c < minCapacity + W
  {
    minCapacity + (W - minCapacity % W) % W
  }

  /** No smaller multiple of W fits `minCapacity` elements. */
  lemma AdjustCapacityIsLeast(minCapacity: nat, k: nat)
    requires k % W == 0 && minCapacity <= k
    ensures AdjustCapacity(minCapacity) <= k
  {
    var c := AdjustCapacity(minCapacity);
    if k < c {
      assert c - k < W;
      assert (c - k) % W == 0 by { MultipleDifference(c, k); }
      assert false;
    }
  }

  /** The difference of two multiples of W is a multiple of W. */
  lemma MultipleDifference(a: nat, b: nat)
    requires a % W == 0 && b % W == 0 && b <= a
    ensures (a - b) % W == 0
  {
    assert a == W * (a / W) && b == W * (b / W);
    assert a - b == W * (a / W - b / W);
  }

  /** The next multiple of W after a multiple of W below a multiple of W stays within it. */
  lemma NextMultipleFits(i: nat, cap: nat)
    requires i % W == 0 && cap % W == 0 && i < cap
    ensures i + W <= cap
  {
    MultipleDifference(cap, i);
  }

  /** Blocks of 4 intrinsic values: the next block start after `i` does not pass `iend`. */
  lemma BlockFits(i: nat, iend: nat)
    requires i % (W * 4) == 0 && iend % (W * 4) == 0 && i < iend
    ensures i + W * 4 <= iend
  {
    assert i == (W * 4) * (i / (W * 4)) && iend == (W * 4) * (iend / (W * 4));
  }

  /** A block start is an intrinsic start. */
  lemma BlockIsPacked(i: nat)
    requires i % (W * 4) == 0
    ensures i % W == 0
  {
    assert i == W * (4 * (i / (W * 4)));
  }

  /** The number of non-default elements of `s` (what `nonZeros` counts). */
  function CountNonZero(s: seq<int>): nat
  {
    if s == [] then 0
    else CountNonZero(s[..|s| - 1]) + (if s[|s| - 1] != 0 then 1 else 0)
  }

  lemma {:induction false} CountNonZeroBounded(s: seq<int>)
    ensures CountNonZero(s) <= |s|
  {
    if s != [] {
      CountNonZeroBounded(s[..|s| - 1]);
    }
  }

  lemma {:induction false} CountNonZeroZeroIffDefault(s: seq<int>)
    ensures CountNonZero(s) == 0 <==> forall i :: 0 <= i < |s| ==> s[i] == 0
  {
    if s != [] {
      var init := s[..|s| - 1];
      CountNonZeroZeroIffDefault(init);
      assert forall i :: 0 <= i < |init| ==> init[i] == s[i];
    }
  }

  /**
   * The logical contents after `resize(n)` keeps the old contents (when they are
   * preserved): the old prefix up to `n`, and default elements beyond the old size.
   */
  function Resized(s: seq<int>, n: nat): seq<int>
  {
    seq(n, i requires 0 <= i < n => if i < |s| then s[i] else 0)
  }

  /** Shrinking to `k` and growing back to `n` shows the old prefix, then defaults. */
  lemma ShrinkThenRegrow(s: seq<int>, k: nat, n: nat)
    requires k <= |s|
    ensures n >= k ==> Resized(Resized(s, k), n) == s[..k] + seq(n - k, _ => 0)
    ensures n >= k ==> forall i :: k <= i < n ==> Resized(Resized(s, k), n)[i] == 0
    ensures forall i :: 0 <= i < k && i < n ==> Resized(Resized(s, k), n)[i] == s[i]
  {
    if n >= k {
      var r := Resized(Resized(s, k), n);
      assert |r| == |s[..k] + seq(n - k, _ => 0)|;
      forall i | 0 <= i < n
        ensures r[i] == (s[..k] + seq(n - k, _ => 0))[i]
      {
      }
    }
  }

  /** Resizing to the current size changes nothing. */
  lemma ResizedToSameSize(s: seq<int>)
    ensures Resized(s, |s|) == s
  {
  }

  // ---------------------------------------------------------------------------
  // Sparse vectors (the operand type of the sparse kernels)
  // ---------------------------------------------------------------------------

  datatype Entry = Entry(index: nat, value: int)

  /** A sparse vector: its size and its stored entries in strictly increasing index order. */
  datatype SparseVector = SparseVector(size: nat, entries: seq<Entry>)
  {
    ghost predicate Valid()
    {
      (forall t :: 0 <= t < |entries| ==> entries[t].index < size) &&
      (forall t, u :: 0 <= t < u < |entries| ==> entries[t].index < entries[u].index)
    }

    /** Whether an entry is stored at index `i`. */
    predicate Stores(i: nat)
    {
      exists t :: 0 <= t < |entries| && entries[t].index == i
    }

    /** The element at index `i`: the stored value, or the default 0. */
    function ValueAt(i: nat): int
    {
      ValueIn(entries, i)
    }
  }

  function ValueIn(entries: seq<Entry>, i: nat): int
  {
    if entries == [] then 0
    else if entries[0].index == i then entries[0].value
    else ValueIn(entries[1..], i)
  }

  /** With distinct indices, the element at a stored index is that entry's value. */
  lemma {:induction false} ValueInAt(entries: seq<Entry>, t: nat)
    requires t < |entries|
    requires forall a, b :: 0 <= a < b < |entries| ==> entries[a].index != entries[b].index
    ensures ValueIn(entries, entries[t].index) == entries[t].value
  {
    if t > 0 {
      ValueInAt(entries[1..], t - 1);
    }
  }

  /** An index that no entry stores reads as the default 0. */
  lemma {:induction false} ValueInAbsent(entries: seq<Entry>, i: nat)
    requires forall t :: 0 <= t < |entries| ==> entries[t].index != i
    ensures ValueIn(entries, i) == 0
  {
    if entries != [] {
      ValueInAbsent(entries[1..], i);
    }
  }

  /** The element at index `i` of a valid sparse vector, read from its entries. */
  lemma ValueAtSpec(sv: SparseVector, i: nat)
    requires sv.Valid()
    ensures sv.Stores(i) ==> exists t :: 0 <= t < |sv.entries| && sv.entries[t].index == i && sv.ValueAt(i) == sv.entries[t].value
    ensures !sv.Stores(i) ==> sv.ValueAt(i) == 0
  {
    if sv.Stores(i) {
      var t :| 0 <= t < |sv.entries| && sv.entries[t].index == i;
      ValueInAt(sv.entries, t);
    } else {
      ValueInAbsent(sv.entries, i);
    }
  }

  /** The sparse product `dense * sparse`: `s[i] * value` at the stored indices. */
  function SparseProduct(s: seq<int>, sv: SparseVector): (p: SparseVector)
    requires sv.Valid() && sv.size == |s|
    ensures p.Valid() && p.size == sv.size
    ensures forall i :: 0 <= i < sv.size ==> p.Stores(i) == sv.Stores(i)
    ensures forall i :: 0 <= i < sv.size ==> p.ValueAt(i) == s[i] * sv.ValueAt(i)
  {
    var p := SparseVector(sv.size, seq(|sv.entries|, t requires 0 <= t < |sv.entries| =>
      Entry(sv.entries[t].index, s[sv.entries[t].index] * sv.entries[t].value)));
    ScaledEntries(s, sv, p);
    p
  }

  /**
   * A sparse vector whose entries are those of `sv` with each value multiplied
   * by the dense element at its index holds `s[i] * sv[i]` at every index.
   */
  lemma ScaledEntries(s: seq<int>, sv: SparseVector, p: SparseVector)
    requires sv.Valid() && sv.size == |s| && p.size == sv.size && |p.entries| == |sv.entries|
    requires forall t :: 0 <= t < |p.entries| ==>
      p.entries[t] == Entry(sv.entries[t].index, s[sv.entries[t].index] * sv.entries[t].value)
    ensures p.Valid()
    ensures forall i :: 0 <= i < sv.size ==> p.Stores(i) == sv.Stores(i)
    ensures forall i :: 0 <= i < sv.size ==> p.ValueAt(i) == s[i] * sv.ValueAt(i)
  {
    forall i | 0 <= i < sv.size
      ensures p.Stores(i) == sv.Stores(i)
      ensures p.ValueAt(i) == s[i] * sv.ValueAt(i)
    {
      ValueAtSpec(sv, i);
      ValueAtSpec(p, i);
      if sv.Stores(i) {
        var t :| 0 <= t < |sv.entries| && sv.entries[t].index == i;
        assert p.entries[t].index == i;
      } else {
        assert forall t :: 0 <= t < |p.entries| ==> p.entries[t].index != i;
      }
    }
  }

  // ---------------------------------------------------------------------------
  // The container
  // ---------------------------------------------------------------------------

  class DynamicVector {
    /** The current size (dimension) of the vector. */
    var size: nat
    /** The number of allocated elements. */
    var capacity: nat
    /** The element buffer. */
    var v: array<int>

    /** The container invariant: padded, W-rounded capacity with a default-valued padding. */
    ghost predicate Valid()
      reads this, v
    {
      v.Length == capacity && size <= capacity && capacity % W == 0 &&
      forall i :: size <= i < capacity ==> v[i] == 0
    }

    /** The logical contents: the elements in use. */
    ghost function Contents(): seq<int>
      reads this, v
      requires Valid()
    {
      v[..size]
    }

    /** The default constructor: an empty vector without storage. */
    constructor Empty()
      ensures Valid() && fresh(v)
      ensures size == 0 && capacity == 0
    {
      size := 0;
      capacity := 0;
      v := new int[0];
    }

    /** A vector of `n` elements that are not initialised; only the padding is cleared. */
    constructor OfSize(n: nat)
      ensures Valid() && fresh(v)
      ensures size == n && capacity == AdjustCapacity(n)
    {
      var cap := AdjustCapacity(n);
      var a := new int[cap];
      var i := n;
      while i < cap
        invariant n <= i <= cap
        invariant forall k :: n <= k < i ==> a[k] == 0
      {
        a[i] := 0;
        i := i + 1;
      }
      size := n;
      capacity := cap;
      v := a;
    }

    /** A vector of `n` elements all equal to `init`. */
    constructor Filled(n: nat, init: int)
      ensures Valid() && fresh(v)
      ensures size == n && capacity == AdjustCapacity(n)
      ensures Contents() == seq(n, _ => init)
    {
      var cap := AdjustCapacity(n);
      var a := new int[cap];
      var i := 0;
      while i < n
        invariant 0 <= i <= n
        invariant forall k :: 0 <= k < i ==> a[k] == init
      {
        a[i] := init;
        i := i + 1;
      }
      while i < cap
        invariant n <= i <= cap
        invariant forall k :: 0 <= k < n ==> a[k] == init
        invariant forall k :: n <= k < i ==> a[k] == 0
      {
        a[i] := 0;
        i := i + 1;
      }
      size := n;
      capacity := cap;
      v := a;
    }

    /** The copy constructor: copies the whole padded buffer of the smaller, adjusted capacity. */
    constructor Copy(other: DynamicVector)
      requires other.Valid()
      ensures Valid() && fresh(v)
      ensures size == other.size && capacity == AdjustCapacity(other.size)
      ensures Contents() == other.Contents()
    {
      var cap := AdjustCapacity(other.size);
      AdjustCapacityIsLeast(other.size, other.capacity);
      var a := new int[cap];
      var i := 0;
      while i < cap
        invariant 0 <= i <= cap
        invariant forall k :: 0 <= k < i ==> a[k] == other.v[k]
      {
        a[i] := other.v[i];
        i := i + 1;
      }
      size := other.size;
      capacity := cap;
      v := a;
    }

    /** Initialisation from an array of values. */
    constructor FromArray(init: seq<int>)
      ensures Valid() && fresh(v)
      ensures size == |init| && capacity == AdjustCapacity(|init|)
      ensures Contents() == init
    {
      var n := |init|;
      var cap := AdjustCapacity(n);
      var a := new int[cap];
      var i := 0;
      while i < n
        invariant 0 <= i <= n
        invariant forall k :: 0 <= k < i ==> a[k] == init[k]
      {
        a[i] := init[i];
        i := i + 1;
      }
      while i < cap
        invariant n <= i <= cap
        invariant forall k :: 0 <= k < n ==> a[k] == init[k]
        invariant forall k :: n <= k < i ==> a[k] == 0
      {
        a[i] := 0;
        i := i + 1;
      }
      size := n;
      capacity := cap;
      v := a;
      assert a[..n] == init;
    }

    /**
     * Conversion from a sparse vector: clears the padding, resets the elements and
     * stores the entries.
     */
    constructor FromSparse(sv: SparseVector)
      requires sv.Valid()
      ensures Valid() && fresh(v)
      ensures size == sv.size && capacity == AdjustCapacity(sv.size)
      ensures forall i :: 0 <= i < size ==> v[i] == sv.ValueAt(i)
    {
      var n := sv.size;
      var cap := AdjustCapacity(n);
      var a := new int[cap];
      var i := 0;
      while i < cap
        invariant 0 <= i <= cap
        invariant forall k :: 0 <= k < i ==> a[k] == 0
      {
        a[i] := 0;
        i := i + 1;
      }
      var t := 0;
      while t < |sv.entries|
        invariant 0 <= t <= |sv.entries|
        invariant forall k :: n <= k < cap ==> a[k] == 0
        invariant forall u :: 0 <= u < t ==> a[sv.entries[u].index] == sv.entries[u].value
        invariant forall k :: 0 <= k < n && (forall u :: 0 <= u < t ==> sv.entries[u].index != k) ==> a[k] == 0
      {
        a[sv.entries[t].index] := sv.entries[t].value;
        t := t + 1;
      }
      size := n;
      capacity := cap;
      v := a;
      forall k | 0 <= k < n
        ensures a[k] == sv.ValueAt(k)
      {
        ValueAtSpec(sv, k);
      }
    }

    // -------------------------------------------------------------------------
    // Element access and queries
    // -------------------------------------------------------------------------

    /** `operator[]` (read): element `index` of the logical contents. */
    function Get(index: nat): (x: int)
      reads this, v
      requires Valid() && index < size
      ensures x == Contents()[index]
    {
      v[index]
    }

    /** `operator[]` (write through the returned reference). */
    method Set(index: nat, x: int)
      requires Valid() && index < size
      modifies v
      ensures Valid()
      ensures Contents() == old(Contents())[index := x]
    {
      v[index] := x;
    }

    /** `canAlias`/`isAliased`: whether `other` is this very vector. */
    predicate CanAlias(other: DynamicVector)
    {
      other == this
    }

    /** `nonZeros`: the number of non-default elements in use. */
    method NonZeros() returns (nonzeros: nat)
      requires Valid()
      ensures nonzeros == CountNonZero(Contents())
      ensures nonzeros <= size
    {
      nonzeros := 0;
      var i := 0;
      while i < size
        invariant 0 <= i <= size
        invariant nonzeros == CountNonZero(v[..i])
      {
        assert v[..i + 1][..i] == v[..i];
        if v[i] != 0 {
          nonzeros := nonzeros + 1;
        }
        i := i + 1;
      }
      assert v[..size] == Contents();
      CountNonZeroBounded(Contents());
    }

    // -------------------------------------------------------------------------
    // Size changes
    // -------------------------------------------------------------------------

    /**
     * `resize(n, preserve)`: reallocates with capacity `AdjustCapacity(n)` when `n`
     * exceeds the capacity (copying the old elements only if `preserve`), and
     * otherwise resets the elements abandoned by a shrink.
     */
    method Resize(n: nat, preserve: bool)
      requires Valid()
      modifies this, v
      ensures Valid() && size == n
      ensures n > old(capacity) ==> capacity == AdjustCapacity(n) && fresh(v)
      ensures n <= old(capacity) ==> capacity == old(capacity) && v == old(v)
      ensures preserve || n <= old(capacity) ==> Contents() == Resized(old(Contents()), n)
      ensures forall i :: old(size) <= i < n ==> v[i] == 0
    {
      if n > capacity {
        var newCapacity := AdjustCapacity(n);
        var tmp := new int[newCapacity];
        if preserve {
          var i := 0;
          while i < size
            invariant 0 <= i <= size
            invariant forall k :: 0 <= k < i ==> tmp[k] == v[k]
            modifies tmp
          {
            tmp[i] := v[i];
            i := i + 1;
          }
        }
        var i := size;
        while i < newCapacity
          invariant size <= i <= newCapacity
          invariant forall k :: size <= k < i ==> tmp[k] == 0
          invariant preserve ==> forall k :: 0 <= k < size ==> tmp[k] == v[k]
          modifies tmp
        {
          tmp[i] := 0;
          i := i + 1;
        }
        v := tmp;
        capacity := newCapacity;
      } else if n < size {
        var i := n;
        while i < size
          invariant n <= i <= size
          invariant forall k :: n <= k < i ==> v[k] == 0
          invariant forall k :: 0 <= k < n || size <= k < capacity ==> v[k] == old(v[k])
          modifies v
        {
          v[i] := 0;
          i := i + 1;
        }
      }
      size := n;
    }

    /** `extend(n, preserve)`: grows the size by `n` elements. */
    method Extend(n: nat, preserve: bool)
      requires Valid()
      modifies this, v
      ensures Valid() && size == old(size) + n
      ensures size > old(capacity) ==> capacity == AdjustCapacity(size) && fresh(v)
      ensures size <= old(capacity) ==> capacity == old(capacity) && v == old(v)
      ensures preserve || size <= old(capacity) ==> Contents() == Resized(old(Contents()), size)
      ensures forall i :: old(size) <= i < size ==> v[i] == 0
    {
      Resize(size + n, preserve);
    }

    /** `reserve(n)`: guarantees room for `n` elements, preserving size and contents. */
    method Reserve(n: nat)
      requires Valid()
      modifies this, v
      ensures Valid()
      ensures size == old(size) && Contents() == old(Contents())
      ensures capacity >= n
      ensures n > old(capacity) ==> capacity == AdjustCapacity(n) && fresh(v)
      ensures n <= old(capacity) ==> capacity == old(capacity) && v == old(v)
    {
      if n > capacity {
        var newCapacity := AdjustCapacity(n);
        var tmp := new int[newCapacity];
        var i := 0;
        while i < size
          invariant 0 <= i <= size
          invariant forall k :: 0 <= k < i ==> tmp[k] == v[k]
          modifies tmp
        {
          tmp[i] := v[i];
          i := i + 1;
        }
        while i < newCapacity
          invariant size <= i <= newCapacity
          invariant forall k :: 0 <= k < size ==> tmp[k] == v[k]
          invariant forall k :: size <= k < i ==> tmp[k] == 0
          modifies tmp
        {
          tmp[i] := 0;
          i := i + 1;
        }
        v := tmp;
        capacity := newCapacity;
      }
    }

    /** `clear()`: the size becomes 0; the storage is kept and its elements reset. */
    method Clear()
      requires Valid()
      modifies this, v
      ensures Valid() && size == 0
      ensures capacity == old(capacity) && v == old(v)
      ensures forall i :: 0 <= i < capacity ==> v[i] == 0
    {
      Resize(0, false);
    }

    /** `reset()`: every element in use becomes the default; the size is unchanged. */
    method Reset()
      requires Valid()
      modifies v
      ensures Valid()
      ensures Contents() == seq(size, _ => 0)
    {
      var i := 0;
      while i < size
        invariant 0 <= i <= size
        invariant forall k :: 0 <= k < i ==> v[k] == 0
        invariant forall k :: size <= k < capacity ==> v[k] == 0
      {
        v[i] := 0;
        i := i + 1;
      }
    }

    /** `scale(s)`: every element in use is multiplied by `s`. */
    method Scale(s: int)
      requires Valid()
      modifies v
      ensures Valid()
      ensures |Contents()| == |old(Contents())|
      ensures forall i :: 0 <= i < size ==> Contents()[i] == old(Contents())[i] * s
    {
      var i := 0;
      while i < size
        invariant 0 <= i <= size
        invariant forall k :: 0 <= k < i ==> v[k] == old(v[k]) * s
        invariant forall k :: i <= k < capacity ==> v[k] == old(v[k])
      {
        v[i] := v[i] * s;
        i := i + 1;
      }
    }

    /** `swap(v)`: exchanges size, capacity and storage in O(1). */
    method Swap(other: DynamicVector)
      requires Valid() && other.Valid()
      modifies this, other
      ensures Valid() && other.Valid()
      ensures size == old(other.size) && capacity == old(other.capacity) && v == old(other.v)
      ensures other.size == old(size) && other.capacity == old(capacity) && other.v == old(v)
      ensures Contents() == old(other.Contents()) && other.Contents() == old(Contents())
    {
      var s, c, a := size, capacity, v;
      size, capacity, v := other.size, other.capacity, other.v;
      other.size, other.capacity, other.v := s, c, a;
    }

    // -------------------------------------------------------------------------
    // Intrinsic loads and stores
    // -------------------------------------------------------------------------

    /** `loadu(index)`: the W elements from `index` on, padding included. */
    method LoadU(index: nat) returns (pack: seq<int>)
      requires Valid() && index < size && index + W <= capacity
      ensures |pack| == W
      ensures forall k :: 0 <= k < W ==> pack[k] == v[index + k]
    {
      pack := v[index..index + W];
    }

    /** `load(index)`: the aligned load at a multiple of W. */
    method Load(index: nat) returns (pack: seq<int>)
      requires Valid() && index < size && index % W == 0
      ensures |pack| == W
      ensures forall k :: 0 <= k < W ==> pack[k] == v[index + k]
    {
      NextMultipleFits(index, capacity);
      pack := LoadU(index);
    }

    /** `storeu(index, value)`: writes W elements from `index` on; nothing else changes. */
    method StoreU(index: nat, pack: seq<int>)
      requires v.Length == capacity && size <= capacity
      requires index < size && index + W <= capacity && |pack| == W
      modifies v
      ensures forall k :: 0 <= k < W ==> v[index + k] == pack[k]
      ensures forall k :: 0 <= k < v.Length && !(index <= k < index + W) ==> v[k] == old(v[k])
    {
      var k := 0;
      while k < W
        invariant 0 <= k <= W
        invariant forall j :: 0 <= j < k ==> v[index + j] == pack[j]
        invariant forall j :: 0 <= j < v.Length && !(index <= j < index + k) ==> v[j] == old(v[j])
      {
        v[index + k] := pack[k];
        k := k + 1;
      }
    }

    /** `store(index, value)`: the aligned store at a multiple of W. */
    method Store(index: nat, pack: seq<int>)
      requires v.Length == capacity && size <= capacity && capacity % W == 0
      requires index < size && index % W == 0 && |pack| == W
      modifies v
      ensures forall k :: 0 <= k < W ==> v[index + k] == pack[k]
      ensures forall k :: 0 <= k < v.Length && !(index <= k < index + W) ==> v[k] == old(v[k])
    {
      NextMultipleFits(index, capacity);
      StoreU(index, pack);
    }

    // -------------------------------------------------------------------------
    // Kernels (the `assign`, `addAssign`, `subAssign`, `multAssign` functions)
    // -------------------------------------------------------------------------

    /**
     * The default dense kernel: two elements per step, then the odd last element.
     * Every element in use becomes `Apply(op, old, rhs)`; the padding is untouched.
     */
    method DefaultKernel(op: Op, rhs: DynamicVector)
      requires Valid() && rhs.Valid() && rhs.size == size && rhs.v != v
      modifies v
      ensures Valid()
      ensures forall i :: 0 <= i < size ==> v[i] == Apply(op, old(v[i]), rhs.v[i])
    {
      var iend := RoundDown(size, 2);
      var i := 0;
      while i < iend
        invariant 0 <= i <= iend && i % 2 == 0
        invariant forall k :: 0 <= k < i ==> v[k] == Apply(op, old(v[k]), rhs.v[k])
        invariant forall k :: i <= k < capacity ==> v[k] == old(v[k])
        invariant Valid()
      {
        UpdatePair(op, rhs, i);
        i := i + 2;
      }
      if iend < size {
        v[iend] := Apply(op, v[iend], rhs.v[iend]);
      }
    }

    /** One step of the default kernel: elements `i` and `i + 1`; no other element changes. */
    method UpdatePair(op: Op, rhs: DynamicVector, i: nat)
      requires Valid() && rhs.Valid() && rhs.size == size && rhs.v != v && i + 1 < size
      modifies v
      ensures Valid()
      ensures v[i] == Apply(op, old(v[i]), rhs.v[i]) && v[i + 1] == Apply(op, old(v[i + 1]), rhs.v[i + 1])
      ensures forall k :: 0 <= k < v.Length && k != i && k != i + 1 ==> v[k] == old(v[k])
    {
      v[i] := Apply(op, v[i], rhs.v[i]);
      v[i + 1] := Apply(op, v[i + 1], rhs.v[i + 1]);
    }

    /**
     * One intrinsic step of the vectorised kernel: loads W elements of both operands
     * at `i`, combines them lane by lane and stores them back. A step that reaches
     * into the padding keeps it default, since both paddings are default.
     */
    method PackStep(op: Op, rhs: DynamicVector, i: nat)
      requires Valid() && rhs.Valid() && rhs.size == size && rhs.v != v
      requires i < size && i % W == 0
      modifies v
      ensures Valid() && i + W <= capacity
      ensures forall k :: i <= k < i + W ==> v[k] == Apply(op, old(v[k]), rhs.v[k])
      ensures forall k :: 0 <= k < capacity && !(i <= k < i + W) ==> v[k] == old(v[k])
    {
      NextMultipleFits(i, capacity);
      NextMultipleFits(i, rhs.capacity);
      var x := Load(i);
      var y := rhs.Load(i);
      var r := PackApply(op, x, y);
      Store(i, r);
      forall k | i <= k < i + W
        ensures v[k] == Apply(op, old(v[k]), rhs.v[k])
      {
        assert v[i + (k - i)] == r[k - i];
      }
      forall k | size <= k < capacity
        ensures v[k] == 0
      {
        if i <= k < i + W {
          ApplyOnDefaults(op);
        }
      }
    }

    /** The unrolled body of the vectorised kernel: four intrinsic steps from `i` on. */
    method UnrolledStep(op: Op, rhs: DynamicVector, i: nat)
      requires Valid() && rhs.Valid() && rhs.size == size && rhs.v != v
      requires i + W * 4 <= size && i % W == 0
      modifies v
      ensures Valid()
      ensures forall k :: i <= k < i + W * 4 ==> v[k] == Apply(op, old(v[k]), rhs.v[k])
      ensures forall k :: 0 <= k < capacity && !(i <= k < i + W * 4) ==> v[k] == old(v[k])
    {
      PackStep(op, rhs, i);
      PackStep(op, rhs, i + W);
      PackStep(op, rhs, i + W * 2);
      PackStep(op, rhs, i + W * 3);
    }

    /**
     * The unrolled loop of the vectorised kernel: four intrinsic values per step
     * up to the last multiple of 4·W inside the vector; returns where it stopped.
     */
    method UnrolledLoop(op: Op, rhs: DynamicVector) returns (i: nat)
      requires Valid() && rhs.Valid() && rhs.size == size && rhs.v != v
      modifies v
      ensures Valid() && i <= size && i % W == 0
      ensures forall k :: 0 <= k < i ==> v[k] == Apply(op, old(v[k]), rhs.v[k])
      ensures forall k :: i <= k < capacity ==> v[k] == old(v[k])
    {
      var iend := RoundDown(size, W * 4);
      assert iend % (W * 4) == 0;
      i := 0;
      while i < iend
        invariant 0 <= i <= iend && i % (W * 4) == 0
        invariant Valid()
        invariant forall k :: 0 <= k < i ==> v[k] == Apply(op, old(v[k]), rhs.v[k])
        invariant forall k :: i <= k < capacity ==> v[k] == old(v[k])
      {
        BlockFits(i, iend);
        UnrolledStep(op, rhs, i);
        i := i + W * 4;
      }
      BlockIsPacked(i);
    }

    /**
     * The remainder loop of the vectorised kernel: one intrinsic value per step
     * from `start` up to the padded end; the last store runs into the padding.
     */
    method PackLoop(op: Op, rhs: DynamicVector, start: nat)
      requires Valid() && rhs.Valid() && rhs.size == size && rhs.v != v
      requires start <= size && start % W == 0
      modifies v
      ensures Valid()
      ensures forall k :: start <= k < size ==> v[k] == Apply(op, old(v[k]), rhs.v[k])
      ensures forall k :: 0 <= k < start ==> v[k] == old(v[k])
    {
      var i := start;
      while i < size
        invariant start <= i && i % W == 0 && i <= capacity
        invariant Valid()
        invariant forall k :: start <= k < i && k < size ==> v[k] == Apply(op, old(v[k]), rhs.v[k])
        invariant forall k :: 0 <= k < start ==> v[k] == old(v[k])
        invariant forall k :: i <= k < capacity ==> v[k] == old(v[k])
      {
        PackStep(op, rhs, i);
        i := i + W;
      }
    }

    /**
     * The vectorised dense kernel: 4 intrinsic values per step, then one intrinsic
     * value per step up to the padded end. The last store runs into the padding,
     * which stays default because the operand's padding is default too.
     */
    method VectorizedKernel(op: Op, rhs: DynamicVector)
      requires Valid() && rhs.Valid() && rhs.size == size && rhs.v != v
      modifies v
      ensures Valid()
      ensures forall i :: 0 <= i < size ==> v[i] == Apply(op, old(v[i]), rhs.v[i])
    {
      var i := UnrolledLoop(op, rhs);
      PackLoop(op, rhs, i);
    }

    /** The sparse kernel: `Apply(op, old, value)` at each stored index; nothing else changes. */
    method SparseKernel(op: Op, rhs: SparseVector)
      requires Valid() && rhs.Valid() && rhs.size == size
      modifies v
      ensures Valid()
      ensures forall t :: 0 <= t < |rhs.entries| ==>
        v[rhs.entries[t].index] == Apply(op, old(v[rhs.entries[t].index]), rhs.entries[t].value)
      ensures forall i :: 0 <= i < size && !rhs.Stores(i) ==> v[i] == old(v[i])
    {
      var t := 0;
      while t < |rhs.entries|
        invariant 0 <= t <= |rhs.entries|
        invariant forall u :: 0 <= u < t ==>
          v[rhs.entries[u].index] == Apply(op, old(v[rhs.entries[u].index]), rhs.entries[u].value)
        invariant forall k :: 0 <= k < capacity && (forall u :: 0 <= u < t ==> rhs.entries[u].index != k) ==>
          v[k] == old(v[k])
      {
        var idx := rhs.entries[t].index;
        v[idx] := Apply(op, v[idx], rhs.entries[t].value);
        t := t + 1;
      }
    }

    /**
     * The sparse `multAssign` kernel: copies the vector, resets it, and stores
     * `copy[i] * value` at each stored index, so every other element becomes default.
     */
    method SparseMultKernel(rhs: SparseVector)
      requires Valid() && rhs.Valid() && rhs.size == size
      modifies v
      ensures Valid()
      ensures forall i :: 0 <= i < size ==> v[i] == old(v[i]) * rhs.ValueAt(i)
    {
      var tmp := new DynamicVector.Copy(this);
      Reset();
      ScatterProducts(rhs, tmp.v);
      forall i | 0 <= i < size
        ensures tmp.v[i] == old(v[i])
      {
        assert tmp.v[i] == tmp.Contents()[i];
      }
    }

    /**
     * The loop of the sparse `multAssign` kernel over a reset vector: stores
     * `src[i] * value` at each stored index `i` and leaves the other elements 0.
     */
    method ScatterProducts(rhs: SparseVector, src: array<int>)
      requires Valid() && rhs.Valid() && rhs.size == size && size <= src.Length && src != v
      requires forall k :: 0 <= k < size ==> v[k] == 0
      modifies v
      ensures Valid()
      ensures forall i :: 0 <= i < size ==> v[i] == src[i] * rhs.ValueAt(i)
    {
      var t := 0;
      while t < |rhs.entries|
        invariant 0 <= t <= |rhs.entries|
        invariant Valid()
        invariant forall u :: 0 <= u < t ==> v[rhs.entries[u].index] == src[rhs.entries[u].index] * rhs.entries[u].value
        invariant forall k :: 0 <= k < size && (forall u :: 0 <= u < t ==> rhs.entries[u].index != k) ==> v[k] == 0
        modifies v
      {
        var idx := rhs.entries[t].index;
        v[idx] := src[idx] * rhs.entries[t].value;
        t := t + 1;
      }
      forall i | 0 <= i < size
        ensures v[i] == src[i] * rhs.ValueAt(i)
      {
        ValueAtSpec(rhs, i);
        if rhs.Stores(i) {
          var u :| 0 <= u < |rhs.entries| && rhs.entries[u].index == i && rhs.ValueAt(i) == rhs.entries[u].value;
          assert v[rhs.entries[u].index] == src[rhs.entries[u].index] * rhs.entries[u].value;
        } else {
          assert forall u :: 0 <= u < |rhs.entries| ==> rhs.entries[u].index != i;
        }
      }
    }

    /** The compile-time kernel choice for a dense operand: vectorised or default. */
    method DenseKernel(op: Op, rhs: DynamicVector, vectorize: bool)
      requires Valid() && rhs.Valid() && rhs.size == size && rhs.v != v
      modifies v
      ensures Valid()
      ensures forall i :: 0 <= i < size ==> v[i] == Apply(op, old(v[i]), rhs.v[i])
    {
      if vectorize {
        VectorizedKernel(op, rhs);
      } else {
        DefaultKernel(op, rhs);
      }
    }

    // -------------------------------------------------------------------------
    // Assignment operators
    // -------------------------------------------------------------------------

    /** `operator=(scalar)`: every element in use becomes `x`. */
    method Fill(x: int)
      requires Valid()
      modifies v
      ensures Valid()
      ensures Contents() == seq(size, _ => x)
    {
      var i := 0;
      while i < size
        invariant 0 <= i <= size
        invariant forall k :: 0 <= k < i ==> v[k] == x
        invariant forall k :: size <= k < capacity ==> v[k] == 0
      {
        v[i] := x;
        i := i + 1;
      }
    }

    /** `operator=(array)`: resizes without preserving, then copies the array. */
    method AssignArray(init: seq<int>)
      requires Valid()
      modifies this, v
      ensures Valid() && Contents() == init
    {
      Resize(|init|, false);
      var i := 0;
      while i < size
        invariant 0 <= i <= size && size == |init|
        invariant Valid()
        invariant forall k :: 0 <= k < i ==> v[k] == init[k]
        modifies v
      {
        v[i] := init[i];
        i := i + 1;
      }
      assert v[..size] == init;
    }

    /** Copy assignment: a self-assignment is a no-op; otherwise resize and copy. */
    method CopyAssign(rhs: DynamicVector)
      requires Valid() && rhs.Valid()
      requires rhs == this || rhs.v != v
      modifies this, v
      ensures Valid() && Contents() == old(rhs.Contents())
      ensures rhs == this ==> size == old(size) && capacity == old(capacity) && v == old(v)
      ensures rhs.Valid() && (rhs != this ==> rhs.Contents() == old(rhs.Contents()))
    {
      if rhs == this {
        return;
      }
      Resize(rhs.size, false);
      var i := 0;
      while i < size
        invariant 0 <= i <= size && size == rhs.size
        invariant Valid() && rhs.Valid() && rhs.v != v
        invariant rhs.Contents() == old(rhs.Contents())
        invariant forall k :: 0 <= k < i ==> v[k] == rhs.v[k]
        modifies v
      {
        v[i] := rhs.v[i];
        i := i + 1;
      }
      assert v[..size] == rhs.v[..rhs.size];
    }

    /**
     * `operator=(vector)` for a dense operand: an aliased operand is copied into a
     * temporary that is swapped in; otherwise resize and run the kernel.
     */
    method AssignDense(rhs: DynamicVector, vectorize: bool)
      requires Valid() && rhs.Valid()
      requires rhs == this || rhs.v != v
      modifies this, v
      ensures Valid() && Contents() == old(rhs.Contents())
      ensures rhs.Valid() && (rhs != this ==> rhs.Contents() == old(rhs.Contents()))
    {
      if CanAlias(rhs) {
        var tmp := new DynamicVector.Copy(rhs);
        Swap(tmp);
      } else {
        Resize(rhs.size, false);
        DenseKernel(Assign, rhs, vectorize);
        assert v[..size] == rhs.v[..rhs.size];
      }
    }

    /** `operator=(vector)` for a sparse operand: resize, reset, then store the entries. */
    method AssignSparse(rhs: SparseVector)
      requires Valid() && rhs.Valid()
      modifies this, v
      ensures Valid() && size == rhs.size
      ensures forall i :: 0 <= i < size ==> v[i] == rhs.ValueAt(i)
    {
      Resize(rhs.size, false);
      Reset();
      SparseKernel(Assign, rhs);
      forall i | 0 <= i < size
        ensures v[i] == rhs.ValueAt(i)
      {
        ValueAtSpec(rhs, i);
      }
    }

    /**
     * `operator+=`, `operator-=` with a dense operand (`op` is `Add` or `Sub`): a size
     * mismatch throws before anything changes; an aliased operand is copied first.
     */
    method CompoundDense(op: Op, rhs: DynamicVector, vectorize: bool) returns (outcome: Outcome)
      requires op == Add || op == Sub
      requires Valid() && rhs.Valid()
      requires rhs == this || rhs.v != v
      modifies v
      ensures Valid() && rhs.Valid()
      ensures outcome == if rhs.size != size then Fail(InvalidArgument("Vector sizes do not match")) else Pass
      ensures outcome.Fail? ==> Contents() == old(Contents())
      ensures outcome.Pass? ==> forall i :: 0 <= i < size ==> v[i] == Apply(op, old(v[i]), old(rhs.v[i]))
    {
      if rhs.size != size {
        return Fail(InvalidArgument("Vector sizes do not match"));
      }
      if CanAlias(rhs) {
        var tmp := new DynamicVector.Copy(rhs);
        DenseKernel(op, tmp, vectorize);
      } else {
        DenseKernel(op, rhs, vectorize);
      }
      return Pass;
    }

    /** `operator+=`, `operator-=` with a sparse operand (`op` is `Add` or `Sub`). */
    method CompoundSparse(op: Op, rhs: SparseVector) returns (outcome: Outcome)
      requires op == Add || op == Sub
      requires Valid() && rhs.Valid()
      modifies v
      ensures Valid()
      ensures outcome == if rhs.size != size then Fail(InvalidArgument("Vector sizes do not match")) else Pass
      ensures outcome.Fail? ==> Contents() == old(Contents())
      ensures outcome.Pass? ==> forall i :: 0 <= i < size ==> v[i] == Apply(op, old(v[i]), rhs.ValueAt(i))
    {
      if rhs.size != size {
        return Fail(InvalidArgument("Vector sizes do not match"));
      }
      SparseKernel(op, rhs);
      forall i | 0 <= i < size
        ensures v[i] == Apply(op, old(v[i]), rhs.ValueAt(i))
      {
        ValueAtSpec(rhs, i);
      }
      return Pass;
    }

    /**
     * `operator*=` with a dense operand: the element-wise product. An aliased operand
     * is evaluated into a temporary that is swapped in.
     */
    method MultAssignDense(rhs: DynamicVector, vectorize: bool) returns (outcome: Outcome)
      requires Valid() && rhs.Valid()
      requires rhs == this || rhs.v != v
      modifies this, v
      ensures Valid() && size == old(size)
      ensures outcome == if old(rhs.size) != old(size) then Fail(InvalidArgument("Vector sizes do not match")) else Pass
      ensures outcome.Fail? ==> Contents() == old(Contents()) && v == old(v)
      ensures outcome.Pass? ==> forall i :: 0 <= i < size ==> Contents()[i] == old(Contents())[i] * old(rhs.Contents())[i]
    {
      if rhs.size != size {
        return Fail(InvalidArgument("Vector sizes do not match"));
      }
      if CanAlias(rhs) {
        var tmp := new DynamicVector.Copy(this);
        tmp.DenseKernel(Mult, rhs, vectorize);
        Swap(tmp);
      } else {
        DenseKernel(Mult, rhs, vectorize);
      }
      return Pass;
    }

    /**
     * `operator*=` with a sparse operand: the sparse product is evaluated into a new
     * vector that is swapped in, so elements not stored in `rhs` become default.
     */
    method MultAssignSparse(rhs: SparseVector) returns (outcome: Outcome)
      requires Valid() && rhs.Valid()
      modifies this
      ensures Valid() && size == old(size)
      ensures outcome == if rhs.size != old(size) then Fail(InvalidArgument("Vector sizes do not match")) else Pass
      ensures outcome.Fail? ==> Contents() == old(Contents()) && v == old(v)
      ensures outcome.Pass? ==> forall i :: 0 <= i < size ==> Contents()[i] == old(Contents())[i] * rhs.ValueAt(i)
    {
      if rhs.size != size {
        return Fail(InvalidArgument("Vector sizes do not match"));
      }
      ghost var before := Contents();
      var product := SparseProduct(v[..size], rhs);
      var tmp := new DynamicVector.FromSparse(product);
      Swap(tmp);
      forall i | 0 <= i < size
        ensures Contents()[i] == before[i] * rhs.ValueAt(i)
      {
        ValueAtSpec(rhs, i);
        ValueAtSpec(product, i);
      }
      return Pass;
    }
  }

  /** The free `isDefault(v)`: whether every element in use is default. */
  method IsDefault(vec: DynamicVector) returns (b: bool)
    requires vec.Valid()
    ensures b <==> forall i :: 0 <= i < vec.size ==> vec.v[i] == 0
    ensures b <==> CountNonZero(vec.Contents()) == 0
  {
    var i := 0;
    while i < vec.size
      invariant 0 <= i <= vec.size
      invariant forall k :: 0 <= k < i ==> vec.v[k] == 0
    {
      if vec.v[i] != 0 {
        CountNonZeroZeroIffDefault(vec.Contents());
        return false;
      }
      i := i + 1;
    }
    CountNonZeroZeroIffDefault(vec.Contents());
    return true;
  }
}
