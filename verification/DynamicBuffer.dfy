/**
 src/common/dynamic-buffer.c: a byte buffer whose capacity is rounded up to a
 power of two, so that the cost of appending is amortised.

 Memory is modelled down to addresses: `base` is where the block lies, a
 reallocation may move it, and `generation` counts the reallocations, so that a
 pointer into the buffer is known to be good while the generation stands.
 */
module DynamicBuffers {
  import opened Bytes

  // ---------------------------------------------------------------------
  // Rounding to a power of two

  function Pow2(n: nat): (p: nat)
    ensures p > 0
  {
    if n == 0 then 1 else 2 * Pow2(n - 1)
  }

  lemma {:induction false} Pow2Grows(a: nat, b: nat)
    requires a < b
    ensures 2 * Pow2(a) <= Pow2(b)
  {
    if a + 1 < b {
      Pow2Grows(a, b - 1);
    }
  }

  /** utils_get_count_order_u64: the least order whose power of two is not below `x`. */
  function CountOrder(x: nat): (order: nat)
    requires x > 0
    ensures x <= Pow2(order)
    ensures forall o: nat :: x <= Pow2(o) ==> order <= o
  {
    if x == 1 then 0 else
    var order := 1 + CountOrder((x + 1) / 2);
    assert forall o: nat :: x <= Pow2(o) ==> order <= o by {
      forall o: nat | x <= Pow2(o) ensures order <= o {
        assert o > 0;
        assert (x + 1) / 2 <= Pow2(o - 1);
      }
    }
    order
  }

  lemma {:induction false} CountOrderOfPow2(o: nat)
    ensures CountOrder(Pow2(o)) == o
  {
    if o > 0 {
      CountOrderOfPow2(o - 1);
    }
  }

  predicate IsPow2(n: nat) {
    n > 0 && n == Pow2(CountOrder(n))
  }

  function RoundToPowerOf2(x: nat): (r: nat)
    requires x > 0
    ensures x <= r < 2 * x && IsPow2(r)
    ensures forall p :: IsPow2(p) && x <= p ==> r <= p
  {
    var o := CountOrder(x);
    assert o > 0 ==> Pow2(o - 1) < x;
    assert forall p :: IsPow2(p) && x <= p ==> Pow2(o) <= p by {
      forall p | IsPow2(p) && x <= p ensures Pow2(o) <= p {
        if o < CountOrder(p) { Pow2Grows(o, CountOrder(p)); }
      }
    }
    CountOrderOfPow2(o);
    Pow2(o)
  }

  /** Two different powers of two are at least a factor two apart. */
  lemma PowersApart(p: nat, q: nat)
    requires IsPow2(p) && IsPow2(q) && p < q
    ensures 2 * p <= q
  {
    var a, b := CountOrder(p), CountOrder(q);
    if b < a {
      Pow2Grows(b, a);
    } else if a < b {
      Pow2Grows(a, b);
    }
  }

  // ---------------------------------------------------------------------
  // The cost of appending

  /** Capacity after `len` bytes are appended to `size` bytes held in `capacity`. */
  function GrownCapacity(size: nat, capacity: nat, len: nat): (c: nat)
    requires size <= capacity
    ensures size + len <= c
  {
    if len == 0 || size + len <= capacity then capacity else RoundToPowerOf2(size + len)
  }

  /** Bytes the reallocation of that append copies: the old block. */
  function AppendCost(size: nat, capacity: nat, len: nat): nat
    requires size <= capacity
  {
    if GrownCapacity(size, capacity, len) == capacity then 0 else capacity
  }

  function Total(lens: seq<nat>): nat {
    if lens == [] then 0 else Total(lens[..|lens| - 1]) + lens[|lens| - 1]
  }

  /** Capacity of a buffer that started empty and was only appended to. */
  function RunCapacity(lens: seq<nat>): (c: nat)
    ensures Total(lens) <= c
  {
    if lens == [] then 0 else
    GrownCapacity(Total(lens[..|lens| - 1]), RunCapacity(lens[..|lens| - 1]), lens[|lens| - 1])
  }

  function RunCost(lens: seq<nat>): nat {
    if lens == [] then 0 else
    var before := lens[..|lens| - 1];
    RunCost(before) + AppendCost(Total(before), RunCapacity(before), lens[|lens| - 1])
  }

  lemma {:induction false} RunCapacityTight(lens: seq<nat>)
    ensures if Total(lens) == 0 then RunCapacity(lens) == 0
            else IsPow2(RunCapacity(lens)) && RunCapacity(lens) < 2 * Total(lens)
  {
    if lens != [] {
      RunCapacityTight(lens[..|lens| - 1]);
    }
  }

  lemma {:induction false} RunCostBelowCapacity(lens: seq<nat>)
    ensures RunCost(lens) <= RunCapacity(lens) && (RunCapacity(lens) > 0 ==> RunCost(lens) < RunCapacity(lens))
  {
    if lens != [] {
      var before, len := lens[..|lens| - 1], lens[|lens| - 1];
      RunCostBelowCapacity(before);
      RunCapacityTight(before);
      var c, c' := RunCapacity(before), RunCapacity(lens);
      if c < c' && c > 0 {
        PowersApart(c, c');
      }
    }
  }

  /** However the bytes are split, appending n > 0 of them copies fewer than 2n in reallocations. */
  lemma AppendingIsAmortised(lens: seq<nat>)
    requires Total(lens) > 0
    ensures RunCost(lens) < 2 * Total(lens)
  {
    RunCostBelowCapacity(lens);
    RunCapacityTight(lens);
  }

  // ---------------------------------------------------------------------
  // The buffer

  // Sizes stay far enough below 2^64 that no sum in this file wraps.
  const MAX_SIZE := 0x4000_0000_0000_0000
  const ADDRESS_SPACE := 0x1_0000_0000_0000_0000

  class DynamicBuffer {
    var data: array<byte>        // the allocated block
    var size: nat
    var capacity: nat
    var base: nat                // address of the block; 0 when there is none
    ghost var generation: nat    // reallocations so far
    ghost var copied: nat        // bytes they copied
    const generous: bool         // whether the allocator grants every request

    ghost predicate Valid()
      reads this
    {
      && size <= capacity == data.Length
      && (capacity == 0 || IsPow2(capacity))
      && base % 8 == 0 && (base == 0 <==> capacity == 0) && base + capacity < ADDRESS_SPACE
    }

    ghost function Contents(): (s: seq<byte>)
      requires Valid()
      reads this, data
      ensures |s| == size
    {
      data[..size]
    }

    /** lttng_dynamic_buffer_init */
    constructor (generous: bool)
      ensures Valid() && fresh(data) && this.generous == generous
      ensures Contents() == [] && capacity == 0 && generation == 0 && copied == 0
    {
      this.generous := generous;
      data := new byte[0];
      size, capacity, base, generation, copied := 0, 0, 0, 0, 0;
    }

    /** lttng_dynamic_buffer_set_capacity; a realloc that fails leaves the buffer as it was. */
    method SetCapacity(demanded: nat) returns (ret: int)
      requires Valid() && demanded <= MAX_SIZE && (demanded == 0 ==> capacity == 0)
      modifies this
      ensures Valid() && (data == old(data) || fresh(data))
      ensures Contents() == old(Contents())
      ensures var wanted := if demanded == 0 then 0 else RoundToPowerOf2(demanded);
              && (ret == 0 ==> old(size) <= demanded && capacity == wanted)
              && (ret != 0 ==> demanded < old(size) || (wanted != old(capacity) && !generous))
              && copied == old(copied) +
                   if capacity == old(capacity) then 0
                   else if old(capacity) <= capacity then old(capacity) else capacity
      ensures capacity == old(capacity) ==> data == old(data) && base == old(base) && generation == old(generation)
      ensures capacity != old(capacity) ==> generation == old(generation) + 1
      ensures ret != 0 ==> ret == -1 && capacity == old(capacity)
    {
      hide IsPow2, RoundToPowerOf2;
      var wanted := if demanded == 0 then 0 else RoundToPowerOf2(demanded);
      if demanded < size {
        return -1;
      }
      if wanted == capacity {
        return 0;
      }
      var granted: bool :| generous ==> granted;
      if !granted {
        return -1;
      }
      var block := new byte[wanted];
      var kept := if capacity <= wanted then capacity else wanted;
      forall i | 0 <= i < kept {
        block[i] := data[i];
      }
      copied, generation := copied + kept, generation + 1;
      assert 8 % 8 == 0 && 8 + wanted < ADDRESS_SPACE;
      var address: nat :| address > 0 && address % 8 == 0 && address + wanted < ADDRESS_SPACE;
      data, capacity, base := block, wanted, address;
      assert data[..size] == old(data[..size]);
      return 0;
    }

    /** memcpy of `buf` into the block at offset `at`. */
    method Copy(at: nat, buf: seq<byte>)
      requires at + |buf| <= data.Length
      modifies data
      ensures data[..at + |buf|] == old(data[..at]) + buf
    {
      forall i | 0 <= i < |buf| {
        data[at + i] := buf[i];
      }
    }

    /** lttng_dynamic_buffer_append */
    method Append(buf: seq<byte>) returns (ret: int)
      requires Valid() && size + |buf| <= MAX_SIZE
      modifies this, data
      ensures Valid() && (data == old(data) || fresh(data))
      ensures ret == 0 || ret == -1
      ensures ret != 0 ==> GrownCapacity(old(size), old(capacity), |buf|) != old(capacity) && !generous
      ensures old(size) + |buf| <= old(capacity) ==> ret == 0 && capacity == old(capacity) && copied == old(copied)
      ensures old(size) + |buf| > old(capacity) && ret == 0 ==>
                capacity == RoundToPowerOf2(old(size) + |buf|) && copied == old(copied) + old(capacity)
      ensures ret == 0 ==>
                && Contents() == old(Contents()) + buf
                && capacity == GrownCapacity(old(size), old(capacity), |buf|)
                && copied == old(copied) + AppendCost(old(size), old(capacity), |buf|)
      ensures ret != 0 ==> Contents() == old(Contents()) && capacity == old(capacity) && copied == old(copied)
      ensures capacity == old(capacity) ==> base == old(base) && generation == old(generation) && data == old(data)
    {
      hide IsPow2, RoundToPowerOf2;
      if |buf| == 0 {
        assert old(Contents()) + buf == old(Contents());
        return 0;
      }
      if capacity < |buf| + size {
        ret := SetCapacity(capacity + (|buf| - (capacity - size)));
        if ret != 0 {
          return;
        }
      }
      Copy(size, buf);
      size := size + |buf|;
      ret := 0;
    }

    /** lttng_dynamic_buffer_set_size: growth reads as zeros, whatever was there before. */
    method SetSize(newSize: nat) returns (ret: int)
      requires Valid() && newSize <= MAX_SIZE
      modifies this, data
      ensures Valid() && (data == old(data) || fresh(data))
      ensures ret == 0 || ret == -1
      ensures ret != 0 ==> newSize > old(capacity) && !generous
      ensures ret == 0 ==>
                && Contents() == (if newSize <= old(size) then old(Contents())[..newSize]
                                  else old(Contents()) + Zeros(newSize - old(size)))
                && capacity == if newSize <= old(capacity) then old(capacity) else RoundToPowerOf2(newSize)
      ensures ret != 0 ==> Contents() == old(Contents()) && capacity == old(capacity)
      ensures capacity == old(capacity) ==> base == old(base) && generation == old(generation) && data == old(data)
    {
      hide IsPow2, RoundToPowerOf2;
      if newSize == size {
        assert old(Contents())[..newSize] == old(Contents());
        return 0;
      }
      if newSize > capacity {
        ret := SetCapacity(newSize);
        if ret != 0 {
          return;
        }
      }
      if newSize > size {
        Copy(size, Zeros(newSize - size));
      } else {
        assert data[..newSize] == data[..size][..newSize];
      }
      size := newSize;
      ret := 0;
    }

    /** A store through a pointer into the buffer. */
    method Store(at: nat, field: seq<byte>)
      requires Valid() && at + |field| <= size
      modifies data
      ensures Contents() == Patched(old(Contents()), at, field)
    {
      forall i | 0 <= i < |field| {
        data[at + i] := field[i];
      }
    }

    /** lttng_dynamic_buffer_reset */
    method Reset()
      requires Valid()
      modifies this
      ensures Valid() && fresh(data) && Contents() == [] && capacity == 0
      ensures generation == old(generation) + 1
    {
      size, capacity, base := 0, 0, 0;
      data := new byte[0];
      generation := generation + 1;
    }
  }

  /** Appending chunk after chunk to a fresh buffer: contents and cost. */
  method AppendRun(chunks: seq<seq<byte>>, generous: bool) returns (b: DynamicBuffer, ret: int)
    requires Total(Lengths(chunks)) <= MAX_SIZE
    ensures fresh(b) && b.Valid() && (generous ==> ret == 0)
    ensures ret == 0 ==> b.Contents() == Concat(chunks) && b.capacity == RunCapacity(Lengths(chunks))
    ensures ret == 0 ==> b.copied == RunCost(Lengths(chunks))
    ensures ret == 0 && b.size > 0 ==> b.copied < 2 * b.size
  {
    hide IsPow2, RoundToPowerOf2, GrownCapacity, AppendCost;
    b := new DynamicBuffer(generous);
    ret := 0;
    var i := 0;
    assert chunks[..0] == [];
    while i < |chunks|
      invariant i <= |chunks| && ret == 0
      invariant b.Valid() && fresh(b) && fresh(b.data) && b.generous == generous
      invariant b.Contents() == Concat(chunks[..i]) && b.size == Total(Lengths(chunks[..i]))
      invariant b.capacity == RunCapacity(Lengths(chunks[..i])) && b.copied == RunCost(Lengths(chunks[..i]))
    {
      PrefixFits(chunks, i + 1);
      NextChunk(chunks, i);
      ret := b.Append(chunks[i]);
      if ret != 0 {
        return;
      }
      i := i + 1;
    }
    assert chunks[..i] == chunks;
    if b.size > 0 {
      AppendingIsAmortised(Lengths(chunks));
    }
  }

  function Lengths(chunks: seq<seq<byte>>): (ls: seq<nat>)
    ensures |ls| == |chunks|
  {
    seq(|chunks|, i requires 0 <= i < |chunks| => |chunks[i]|)
  }

  function Concat(chunks: seq<seq<byte>>): (s: seq<byte>)
    ensures |s| == Total(Lengths(chunks))
  {
    if chunks == [] then [] else
    var n := |chunks| - 1;
    assert Lengths(chunks)[..n] == Lengths(chunks[..n]);
    Concat(chunks[..n]) + chunks[n]
  }

  lemma NextChunk(chunks: seq<seq<byte>>, i: nat)
    requires i < |chunks|
    ensures Concat(chunks[..i + 1]) == Concat(chunks[..i]) + chunks[i]
    ensures Lengths(chunks[..i + 1])[..i] == Lengths(chunks[..i]) && Lengths(chunks[..i + 1])[i] == |chunks[i]|
  {
    assert chunks[..i + 1][..i] == chunks[..i];
  }

  lemma {:induction false} PrefixFits(chunks: seq<seq<byte>>, i: nat)
    requires i <= |chunks|
    ensures Total(Lengths(chunks[..i])) <= Total(Lengths(chunks))
    decreases |chunks| - i
  {
    if i < |chunks| {
      PrefixFits(chunks, i + 1);
      NextChunk(chunks, i);
    } else {
      assert chunks[..i] == chunks;
    }
  }

  // ---------------------------------------------------------------------
  // Encoders

  /** Append to what this encoding has already put behind `c`. */
  method AppendAfter(b: DynamicBuffer, bytes: seq<byte>, ghost c: seq<byte>, ghost body: seq<byte>) returns (ret: int)
    requires b.Valid() && b.Contents() == c + body && |c| + |body| + |bytes| <= MAX_SIZE
    modifies b, b.data
    ensures b.Valid() && (b.data == old(b.data) || fresh(b.data)) && ret in {0, -1} && (b.generous ==> ret == 0)
    ensures b.Contents() == if ret == 0 then c + (body + bytes) else c + body
  {
    hide IsPow2, RoundToPowerOf2;
    ret := b.Append(bytes);
    assert (c + body) + bytes == c + (body + bytes);
  }
}
