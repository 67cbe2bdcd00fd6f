/**
 src/common/index-allocator.c: indexes below a fixed size, handed out in order and
 reused in the order they were released.
 */
module IndexAllocators {
  datatype Status = Ok | Error | Empty

  /** All elements of `s` are different. */
  predicate Distinct(s: seq<nat>) {
    forall i, j :: 0 <= i < j < |s| ==> s[i] != s[j]
  }

  class IndexAllocator {
    const size: nat
    var position: nat
    var nbAllocatedIndexes: nat
    var unused: seq<nat>          // unused_list, first entry first
    ghost var live: set<nat>      // the indexes callers hold
    ghost var released: seq<nat>  // every release so far, in order
    ghost var reused: seq<nat>    // every allocation served from the list, in order

    /** Live indexes and free ones partition those ever handed out; what was released is reused first in, first out. */
    ghost predicate Valid()
      reads this
    {
      && position <= size && nbAllocatedIndexes == |live|
      && Distinct(unused)
      && (forall x: nat :: x < position <==> x in live || x in unused)
      && (forall x :: x in unused ==> x !in live)
      && released == reused + unused
    }

    constructor (indexCount: nat)
      ensures Valid() && size == indexCount && live == {} && position == 0 && released == reused == []
    {
      size := indexCount;
      position, nbAllocatedIndexes, unused, live := 0, 0, [], {};
      released, reused := [], [];
    }

    /** lttng_index_allocator_get_index_count */
    method GetIndexCount() returns (count: nat)
      requires Valid()
      ensures count == |live|
    {
      count := nbAllocatedIndexes;
    }

    /** lttng_index_allocator_alloc: EMPTY exactly when all are live; otherwise the oldest released index, or a new one. */
    method Alloc() returns (status: Status, index: nat)
      requires Valid()
      modifies this
      ensures Valid()
      ensures status == if |old(live)| == size then Empty else Ok
      ensures status == Empty ==>
                live == old(live) && unused == old(unused) && position == old(position) && reused == old(reused)
      ensures released == old(released)
      ensures status == Ok ==>
                && index < size && index !in old(live) && live == old(live) + {index}
                && if old(unused) == [] then index == old(position) == position - 1 && unused == [] && reused == old(reused)
                   else index == old(unused)[0] && unused == old(unused)[1..] && position == old(position) &&
                        reused == old(reused) + [index]
    {
      Partition(live, unused, position);
      status := Ok;
      if unused == [] {
        if position >= size {
          return Empty, 0;
        }
        index := position;
        position := position + 1;
      } else {
        index := unused[0];
        HeadOf(unused);
        Associate(reused, index, unused[1..]);
        unused := unused[1..];
        reused := reused + [index];
      }
      live := live + {index};
      nbAllocatedIndexes := nbAllocatedIndexes + 1;
    }

    /** lttng_index_allocator_release of a held index; `granted` says whether the list entry could be allocated. */
    method Release(idx: nat, granted: bool) returns (status: Status)
      requires Valid() && idx in live
      modifies this
      ensures Valid() && position == old(position)
      ensures status == if granted then Ok else Error
      ensures live == if granted then old(live) - {idx} else old(live)
      ensures unused == if granted then old(unused) + [idx] else old(unused)
      ensures released == (if granted then old(released) + [idx] else old(released)) && reused == old(reused)
    {
      if !granted {
        return Error;
      }
      assert reused + unused + [idx] == reused + (unused + [idx]);
      unused := unused + [idx];
      released := released + [idx];
      live := live - {idx};
      nbAllocatedIndexes := nbAllocatedIndexes - 1;
      status := Ok;
    }
  }

  /** How many indexes are live, when live and free ones partition [0, position). */
  lemma {:induction false} Partition(live: set<nat>, unused: seq<nat>, position: nat)
    requires Distinct(unused)
    requires forall x: nat :: x < position <==> x in live || x in unused
    requires forall x :: x in unused ==> x !in live
    ensures |live| == position - |unused|
    decreases |unused|
  {
    if unused == [] {
      Below(live, position);
    } else {
      var x := unused[0];
      HeadOf(unused);
      Partition(live + {x}, unused[1..], position);
    }
  }

  lemma Associate(a: seq<nat>, x: nat, b: seq<nat>)
    ensures a + ([x] + b) == a + [x] + b
  {
  }

  lemma HeadOf(s: seq<nat>)
    requires Distinct(s) && s != []
    ensures s == [s[0]] + s[1..] && Distinct(s[1..]) && s[0] !in s[1..] && forall x :: x in s <==> x == s[0] || x in s[1..]
  {
    assert s == [s[0]] + s[1..];
    assert forall i :: 0 <= i < |s| - 1 ==> s[1..][i] == s[i + 1];
  }

  lemma {:induction false} Below(s: set<nat>, n: nat)
    requires forall x: nat :: x < n <==> x in s
    ensures |s| == n
  {
    if n > 0 {
      Below(s - {n - 1}, n - 1);
    } else {
      assert s == {};
    }
  }
}
