/** The shared-memory segment allocator of `src/allocator_shm.c`, as an
    abstract state: the region, its free list, the blocks handed out, the
    registry of named objects and the two counters. Layout constants are
    those of an LP64 target, where a word (`ptrdiff_t`) is 8 bytes. */
module Segment {
  import opened Base
  import opened Spans

  /** `sizeof(ptrdiff_t)`: the allocation granule. */
  const W: int := 8
  /** `sizeof(struct __node__)`: the header in front of every block. */
  const H: int := 24
  /** `sizeof(struct shared_data)`: the bookkeeping area at the base of the
      segment; the free region starts right after it. */
  const HeaderSize: int := 96
  /** Offset of the `__null__` byte inside `struct shared_data`: the
      address every end-of-list link points to. */
  const NullOffset: int := 56

  /** A registered object: its name, the item registered under it, and the
      two blocks registration allocated (the `struct reg_obj` and the copy
      of the name), each given by the pointer malloc returned. */
  datatype Entry = Entry(name: string, item: int, obj: int, nameCopy: int)

  datatype Allocator = Allocator(
    base: int,
    size: int,
    free: seq<Span>,
    live: seq<Span>,
    registry: seq<Entry>,
    bytesAllocated: int,
    blocksAllocated: int)

  /** The bytes malloc may hand out: `size` bytes right after the
      bookkeeping area. */
  function Region(a: Allocator): Span
  {
    Span(a.base + HeaderSize, a.size)
  }

  /** A block as malloc carves it: a header plus a whole number of words. */
  predicate IsBlock(b: Span)
  {
    b.size >= H && (b.size - H) % W == 0
  }

  /** The pointer malloc returns for a block: just past its header. */
  function Payload(b: Span): int
  {
    b.addr + H
  }

  /** Index of the first live block whose payload is `p`, or `|live|`. */
  function LiveIndex(live: seq<Span>, p: int): (i: nat)
    ensures i <= |live|
    ensures i < |live| ==> Payload(live[i]) == p
    ensures forall j :: 0 <= j < i ==> Payload(live[j]) != p
  {
    if live == [] then 0
    else if Payload(live[0]) == p then 0
    else 1 + LiveIndex(live[1..], p)
  }

  /** `p` is a pointer malloc returned and that has not been freed since. */
  predicate Owned(a: Allocator, p: int)
  {
    LiveIndex(a.live, p) < |a.live|
  }

  /** The allocator's memory invariant: the free list is ordered and
      coalesced, free spans and live blocks lie in the region and do not
      overlap, together they account for every byte of it, and the
      counters agree with the live blocks. */
  predicate Heap(a: Allocator)
  {
    && a.size >= 0
    && Ordered(a.free)
    && (forall i :: 0 <= i < |a.free| ==> Within(a.free[i], Region(a)))
    && (forall i :: 0 <= i < |a.live| ==> Within(a.live[i], Region(a)) && IsBlock(a.live[i]))
    && (forall i, j :: 0 <= i < j < |a.live| ==> Disjoint(a.live[i], a.live[j]))
    && (forall i, j :: 0 <= i < |a.free| && 0 <= j < |a.live| ==> Disjoint(a.free[i], a.live[j]))
    && Total(a.free) + Total(a.live) == a.size
    && a.blocksAllocated == |a.live|
    && a.bytesAllocated == Total(a.live) - H * |a.live|
  }

  /** Pointers the registry holds: the reg_obj and name-copy blocks of
      every entry. */
  predicate Referenced(a: Allocator, p: int)
  {
    exists i :: 0 <= i < |a.registry| && (a.registry[i].obj == p || a.registry[i].nameCopy == p)
  }

  /** The registry's invariant: names are unique, and every entry's two
      blocks are live and belong to that entry alone. */
  predicate RegistryOk(a: Allocator)
  {
    && (forall i, j :: 0 <= i < j < |a.registry| ==> a.registry[i].name != a.registry[j].name)
    && (forall i :: 0 <= i < |a.registry| ==>
          Owned(a, a.registry[i].obj) && Owned(a, a.registry[i].nameCopy)
          && a.registry[i].obj != a.registry[i].nameCopy)
    && (forall i, j :: 0 <= i < j < |a.registry| ==>
          && a.registry[i].obj != a.registry[j].obj
          && a.registry[i].obj != a.registry[j].nameCopy
          && a.registry[i].nameCopy != a.registry[j].obj
          && a.registry[i].nameCopy != a.registry[j].nameCopy)
  }

  predicate Valid(a: Allocator)
  {
    Heap(a) && RegistryOk(a)
  }

  /** The state `ipt_allocator_shm_create(size, key)` leaves in a segment
      mapped at `base`: one free span of `size` bytes just past the
      bookkeeping area, nothing allocated, nothing registered. */
  function Create(base: int, size: nat): (a: Allocator)
    ensures Valid(a)
    ensures a.registry == [] && a.live == []
    ensures a.bytesAllocated == 0 && a.blocksAllocated == 0
    ensures Total(a.free) == size
    ensures size > 0 ==> a.free == [Span(base + HeaderSize, size)]
  {
    Allocator(base, size, if size == 0 then [] else [Span(base + HeaderSize, size)], [], [], 0, 0)
  }

  /** Free bytes by the counters, as `dump_stats` computes them. */
  function Remaining(a: Allocator): int
  {
    a.size - a.bytesAllocated - H * a.blocksAllocated
  }

  /** The counters' view of free memory is exact: it is the number of
      bytes on the free list. */
  lemma RemainingIsFree(a: Allocator)
    requires Heap(a)
    ensures Remaining(a) == Total(a.free)
    ensures Remaining(a) >= 0
  {
    TotalNonNegative(a.free);
  }

  lemma TotalNonNegative(s: seq<Span>)
    requires Ordered(s)
    ensures Total(s) >= 0
    ensures s != [] ==> Total(s) > 0
  {
    if s != [] {
      OrderedSlice(s, 1, |s|);
      TotalNonNegative(s[1..]);
    }
  }

  /** A request rounded up to a whole number of words. */
  function RoundUp(n: nat): (r: nat)
    ensures r % W == 0
    ensures n <= r < n + W
  {
    if n % W == 0 then n else n - n % W + W
  }

  /** Index of the first span, from the head, that can hold `need` bytes,
      or `|s|` when none can. */
  function FirstFit(s: seq<Span>, need: int): (i: nat)
    ensures i <= |s|
    ensures i < |s| ==> s[i].size >= need
    ensures forall j :: 0 <= j < i ==> s[j].size < need
  {
    if s == [] then 0
    else if s[0].size >= need then 0
    else 1 + FirstFit(s[1..], need)
  }

  datatype Allocation = Allocation(state: Allocator, ptr: Option<int>)

  /** The block `Malloc` carves from free span `s` for a request needing
      `need` bytes including the header: the top end of the span. */
  function Carve(s: Span, need: int): Span
  {
    Span(End(s) - need, need)
  }

  /** `private_malloc`: round the request up to a word multiple, take the
      first span that holds it plus a header, and cut the block off that
      span's top end. A span used up entirely leaves the free list. */
  function Malloc(a: Allocator, n: nat): (r: Allocation)
    ensures r.ptr.None? <==> forall j :: 0 <= j < |a.free| ==> a.free[j].size < H + RoundUp(n)
    ensures r.ptr.None? ==> r.state == a
    ensures r.ptr.Some? ==>
              && r.state.bytesAllocated == a.bytesAllocated + RoundUp(n)
              && r.state.blocksAllocated == a.blocksAllocated + 1
              && r.state.registry == a.registry
              && r.state.base == a.base && r.state.size == a.size
  {
    var need := H + RoundUp(n);
    var i := FirstFit(a.free, need);
    if i == |a.free| then Allocation(a, None)
    else
      var b := Carve(a.free[i], need);
      Allocation(a.(free := Rest(a.free, i, need), live := a.live + [b],
                    bytesAllocated := a.bytesAllocated + RoundUp(n),
                    blocksAllocated := a.blocksAllocated + 1),
                 Some(Payload(b)))
  }

  /** `private_free` of a pointer malloc returned: the block goes back on
      the free list, merged with its contiguous neighbours, and the
      counters drop by one block and its payload. */
  function Free(a: Allocator, p: int): (r: Allocator)
    requires Owned(a, p)
    ensures r.blocksAllocated == a.blocksAllocated - 1
    ensures r.bytesAllocated == a.bytesAllocated - (a.live[LiveIndex(a.live, p)].size - H)
    ensures r.registry == a.registry && r.base == a.base && r.size == a.size
  {
    var i := LiveIndex(a.live, p);
    var b := a.live[i];
    a.(free := Insert(a.free, b), live := a.live[..i] + a.live[i + 1..],
       blocksAllocated := a.blocksAllocated - 1,
       bytesAllocated := a.bytesAllocated - (b.size - H))
  }

  lemma TotalOne(s: seq<Span>, i: nat)
    requires i < |s|
    ensures Total(s[i..i + 1]) == s[i].size
  {
    assert s[i..i + 1] == [s[i]];
  }

  lemma TotalReplace(s: seq<Span>, i: nat, t: Span)
    requires i < |s|
    ensures Total(s[..i] + [t] + s[i + 1..]) == Total(s) - s[i].size + t.size
  {
    TotalSplit(s, i, i + 1);
    TotalOne(s, i);
    TotalAppend(s[..i] + [t], s[i + 1..]);
    TotalAppend(s[..i], [t]);
    assert Total([t]) == t.size;
  }

  lemma TotalRemove(s: seq<Span>, i: nat)
    requires i < |s|
    ensures Total(s[..i] + s[i + 1..]) == Total(s) - s[i].size
  {
    TotalSplit(s, i, i + 1);
    TotalOne(s, i);
    TotalAppend(s[..i], s[i + 1..]);
  }

  /** Shrinking one span in place, keeping its address, keeps the list
      ordered. */
  lemma OrderedShrink(s: seq<Span>, i: nat, t: Span)
    requires Ordered(s) && i < |s|
    requires t.addr == s[i].addr && 0 < t.size <= s[i].size
    ensures Ordered(s[..i] + [t] + s[i + 1..])
  {
    var pre, post := s[..i], s[i + 1..];
    OrderedSlice(s, 0, i);
    OrderedSlice(s, i + 1, |s|);
    forall j | 0 <= j < |pre|
      ensures End(pre[j]) < t.addr
    {
      assert pre[j] == s[j];
    }
    forall j | 0 <= j < |post|
      ensures End(t) < post[j].addr
    {
      assert post[j] == s[i + 1 + j];
    }
    OrderedConcat(pre, t, post);
  }

  lemma OrderedRemove(s: seq<Span>, i: nat)
    requires Ordered(s) && i < |s|
    ensures Ordered(s[..i] + s[i + 1..])
  {
    var r := s[..i] + s[i + 1..];
    forall j | 0 <= j < |r|
      ensures r[j] == s[if j < i then j else j + 1]
    {
    }
  }

  /** The free list after carving `need` bytes from the top of span `i`:
      the span shrinks in place, or leaves the list when nothing remains. */
  function Rest(s: seq<Span>, i: nat, need: int): seq<Span>
    requires i < |s|
  {
    if s[i].size == need then s[..i] + s[i + 1..]
    else s[..i] + [Span(s[i].addr, s[i].size - need)] + s[i + 1..]
  }

  /** Every span left after carving lies inside a span that was there
      before, and outside the carved block. */
  lemma RestSpans(s: seq<Span>, i: nat, need: int)
    requires Ordered(s) && i < |s| && 0 < need <= s[i].size
    ensures forall j :: 0 <= j < |Rest(s, i, need)| ==>
              exists k :: 0 <= k < |s| && Within(Rest(s, i, need)[j], s[k])
    ensures forall j :: 0 <= j < |Rest(s, i, need)| ==> Disjoint(Rest(s, i, need)[j], Carve(s[i], need))
  {
    var r := Rest(s, i, need);
    var b := Carve(s[i], need);
    forall j | 0 <= j < |r|
      ensures exists k :: 0 <= k < |s| && Within(r[j], s[k])
      ensures Disjoint(r[j], b)
    {
      if s[i].size == need {
        var k := if j < i then j else j + 1;
        assert r[j] == s[k];
        assert Within(r[j], s[k]);
        if k < i { assert End(s[k]) < s[i].addr; } else { assert End(s[i]) < s[k].addr; }
      } else if j < i {
        assert r[j] == s[j];
        assert Within(r[j], s[j]);
        assert End(s[j]) < s[i].addr;
      } else if j == i {
        assert Within(r[j], s[i]);
      } else {
        assert r[j] == s[j];
        assert Within(r[j], s[j]);
        assert End(s[i]) < s[j].addr;
      }
    }
  }

  lemma WithinDisjoint(x: Span, y: Span, z: Span)
    requires Within(x, y) && Disjoint(y, z)
    ensures Disjoint(x, z) && Disjoint(z, x)
  {
  }

  lemma LiveIndexAppend(live: seq<Span>, b: Span, p: int)
    requires LiveIndex(live, p) < |live|
    ensures LiveIndex(live + [b], p) == LiveIndex(live, p)
  {
    var i := LiveIndex(live, p);
    assert (live + [b])[i] == live[i];
    assert forall j :: 0 <= j < i ==> (live + [b])[j] == live[j];
  }

  /** Malloc takes the first span, from the head, that holds the request
      plus a header: the block is that span's top end, the span keeps its
      address and shrinks by the block (leaving the list when emptied), and
      the caller gets the block's payload. */
  lemma MallocFirstFit(a: Allocator, n: nat, i: nat)
    requires i < |a.free| && a.free[i].size >= H + RoundUp(n)
    requires forall j :: 0 <= j < i ==> a.free[j].size < H + RoundUp(n)
    ensures var need := H + RoundUp(n);
            var s := a.free[i];
            var r := Malloc(a, n);
            && r.ptr == Some(End(s) - need + H)
            && r.state.live == a.live + [Span(End(s) - need, need)]
            && r.state.free == (if s.size == need then a.free[..i] + a.free[i + 1..]
                                else a.free[..i] + [Span(s.addr, s.size - need)] + a.free[i + 1..])
  {
    assert FirstFit(a.free, H + RoundUp(n)) == i;
  }

  /** Carving a block from free span `i` leaves an ordered free list,
      inside the region, clear of the live blocks and of the new block, and
      `need` bytes smaller. */
  lemma CarveFree(free: seq<Span>, live: seq<Span>, i: nat, need: int, region: Span)
    requires Ordered(free) && i < |free| && 0 < need <= free[i].size
    requires forall j :: 0 <= j < |free| ==> Within(free[j], region)
    requires forall j, m :: 0 <= j < |free| && 0 <= m < |live| ==> Disjoint(free[j], live[m])
    ensures var rest := Rest(free, i, need);
            && Ordered(rest)
            && Total(rest) == Total(free) - need
            && (forall j :: 0 <= j < |rest| ==> Within(rest[j], region))
            && (forall j, m :: 0 <= j < |rest| && 0 <= m < |live| ==> Disjoint(rest[j], live[m]))
            && (forall j :: 0 <= j < |rest| ==> Disjoint(rest[j], Carve(free[i], need)))
  {
    CarveFreeShape(free, i, need);
    RestSpans(free, i, need);
    CarveFreeClear(free, live, Rest(free, i, need), region);
  }

  /** The shape half of `CarveFree`: order and byte count. */
  lemma CarveFreeShape(free: seq<Span>, i: nat, need: int)
    requires Ordered(free) && i < |free| && 0 < need <= free[i].size
    ensures Ordered(Rest(free, i, need))
    ensures Total(Rest(free, i, need)) == Total(free) - need
  {
    if free[i].size == need {
      RemoveShape(free, i, need);
    } else {
      ShrinkShape(free, i, need);
    }
  }

  lemma RemoveShape(s: seq<Span>, i: nat, need: int)
    requires Ordered(s) && i < |s| && s[i].size == need
    ensures Ordered(Rest(s, i, need))
    ensures Total(Rest(s, i, need)) == Total(s) - need
  {
    assert Rest(s, i, need) == s[..i] + s[i + 1..];
    OrderedRemove(s, i);
    TotalRemove(s, i);
  }

  lemma ShrinkShape(s: seq<Span>, i: nat, need: int)
    requires Ordered(s) && i < |s| && 0 < need < s[i].size
    ensures Ordered(Rest(s, i, need))
    ensures Total(Rest(s, i, need)) == Total(s) - need
  {
    var t := Span(s[i].addr, s[i].size - need);
    assert Rest(s, i, need) == s[..i] + [t] + s[i + 1..];
    OrderedShrink(s, i, t);
    TotalReplace(s, i, t);
  }

  /** Spans each inside some free span stay inside the region and clear
      of the live blocks. */
  lemma CarveFreeClear(free: seq<Span>, live: seq<Span>, rest: seq<Span>, region: Span)
    requires forall j :: 0 <= j < |free| ==> Within(free[j], region)
    requires forall j, m :: 0 <= j < |free| && 0 <= m < |live| ==> Disjoint(free[j], live[m])
    requires forall j :: 0 <= j < |rest| ==> exists k :: 0 <= k < |free| && Within(rest[j], free[k])
    ensures forall j :: 0 <= j < |rest| ==> Within(rest[j], region)
    ensures forall j, m :: 0 <= j < |rest| && 0 <= m < |live| ==> Disjoint(rest[j], live[m])
  {
    forall j | 0 <= j < |rest|
      ensures Within(rest[j], region)
      ensures forall m :: 0 <= m < |live| ==> Disjoint(rest[j], live[m])
    {
      var k :| 0 <= k < |free| && Within(rest[j], free[k]);
      forall m | 0 <= m < |live|
        ensures Disjoint(rest[j], live[m])
      {
        WithinDisjoint(rest[j], free[k], live[m]);
      }
    }
  }

  /** The carved block joins the live blocks without overlapping any of
      them. */
  lemma CarveLive(free: seq<Span>, live: seq<Span>, i: nat, need: int, region: Span)
    requires i < |free| && H <= need <= free[i].size && (need - H) % W == 0
    requires Within(free[i], region)
    requires forall m :: 0 <= m < |live| ==> Disjoint(free[i], live[m])
    requires forall m :: 0 <= m < |live| ==> Within(live[m], region) && IsBlock(live[m])
    requires forall x, y :: 0 <= x < y < |live| ==> Disjoint(live[x], live[y])
    ensures var live' := live + [Carve(free[i], need)];
            && (forall m :: 0 <= m < |live'| ==> Within(live'[m], region) && IsBlock(live'[m]))
            && (forall x, y :: 0 <= x < y < |live'| ==> Disjoint(live'[x], live'[y]))
            && Total(live') == Total(live) + need
            && LiveIndex(live', Payload(Carve(free[i], need))) == |live|
  {
    var b := Carve(free[i], need);
    var live' := live + [b];
    forall m | 0 <= m < |live|
      ensures Disjoint(live[m], b)
    {
      WithinDisjoint(b, free[i], live[m]);
    }
    forall x, y | 0 <= x < y < |live'|
      ensures Disjoint(live'[x], live'[y])
    {
      if y == |live| {
        assert live'[x] == live[x];
      } else {
        assert live'[x] == live[x] && live'[y] == live[y];
      }
    }
    forall m | 0 <= m < |live'|
      ensures Within(live'[m], region) && IsBlock(live'[m])
    {
      if m < |live| {
        assert live'[m] == live[m];
      }
    }
    TotalAppend(live, [b]);
    assert Total([b]) == b.size;
    forall m | 0 <= m < |live|
      ensures Payload(live'[m]) != Payload(b)
    {
      assert live'[m] == live[m];
    }
    assert live'[|live|] == b;
  }

  /** A registry stays valid across a step that keeps it and keeps every
      pointer it owned. */
  lemma RegistryKept(a: Allocator, a': Allocator)
    requires RegistryOk(a) && a'.registry == a.registry
    requires forall p :: Owned(a, p) ==> Owned(a', p)
    ensures RegistryOk(a')
  {
  }

  lemma MallocHeap(a: Allocator, n: nat)
    requires Heap(a)
    ensures Heap(Malloc(a, n).state)
    ensures Malloc(a, n).ptr.Some? ==> Total(Malloc(a, n).state.free) == Total(a.free) - (H + RoundUp(n))
  {
    var need := H + RoundUp(n);
    var i := FirstFit(a.free, need);
    if i < |a.free| {
      var a' := a.(free := Rest(a.free, i, need), live := a.live + [Carve(a.free[i], need)],
                   bytesAllocated := a.bytesAllocated + RoundUp(n),
                   blocksAllocated := a.blocksAllocated + 1);
      assert Malloc(a, n).state == a';
      MallocSpans(a.free, a.live, i, need, Region(a));
      HeapOfParts(a, a'.free, a'.live, a'.bytesAllocated, a'.blocksAllocated);
    }
  }

  /** The invariant of an allocator whose lists and counters are replaced,
      from the same facts about the new lists. */
  lemma HeapOfParts(a: Allocator, free: seq<Span>, live: seq<Span>, bytes: int, blocks: int)
    requires a.size >= 0 && Ordered(free)
    requires forall i :: 0 <= i < |free| ==> Within(free[i], Region(a))
    requires forall i :: 0 <= i < |live| ==> Within(live[i], Region(a)) && IsBlock(live[i])
    requires forall i, j :: 0 <= i < j < |live| ==> Disjoint(live[i], live[j])
    requires forall i, j :: 0 <= i < |free| && 0 <= j < |live| ==> Disjoint(free[i], live[j])
    requires Total(free) + Total(live) == a.size
    requires blocks == |live| && bytes == Total(live) - H * |live|
    ensures Heap(a.(free := free, live := live, bytesAllocated := bytes, blocksAllocated := blocks))
  {
  }

  /** `MallocHeap` on the two lists: the carved block moves from the free
      list to the live blocks and every part of the invariant survives. */
  lemma MallocSpans(free: seq<Span>, live: seq<Span>, i: nat, need: int, region: Span)
    requires Ordered(free) && i < |free| && H <= need <= free[i].size && (need - H) % W == 0
    requires forall j :: 0 <= j < |free| ==> Within(free[j], region)
    requires forall m :: 0 <= m < |live| ==> Within(live[m], region) && IsBlock(live[m])
    requires forall x, y :: 0 <= x < y < |live| ==> Disjoint(live[x], live[y])
    requires forall j, m :: 0 <= j < |free| && 0 <= m < |live| ==> Disjoint(free[j], live[m])
    ensures var free' := Rest(free, i, need);
            var live' := live + [Carve(free[i], need)];
            && Ordered(free')
            && (forall j :: 0 <= j < |free'| ==> Within(free'[j], region))
            && (forall m :: 0 <= m < |live'| ==> Within(live'[m], region) && IsBlock(live'[m]))
            && (forall x, y :: 0 <= x < y < |live'| ==> Disjoint(live'[x], live'[y]))
            && (forall j, m :: 0 <= j < |free'| && 0 <= m < |live'| ==> Disjoint(free'[j], live'[m]))
            && Total(free') == Total(free) - need
            && Total(live') == Total(live) + need
  {
    var free' := Rest(free, i, need);
    var live' := live + [Carve(free[i], need)];
    CarveFree(free, live, i, need, region);
    CarveLive(free, live, i, need, region);
    forall x, y | 0 <= x < |free'| && 0 <= y < |live'|
      ensures Disjoint(free'[x], live'[y])
    {
      if y < |live| {
        assert live'[y] == live[y];
      }
    }
  }

  /** Malloc keeps every pointer owned that was owned before. */
  lemma MallocKeepsOwned(a: Allocator, n: nat, p: int)
    requires Owned(a, p)
    ensures Owned(Malloc(a, n).state, p)
    ensures LiveIndex(Malloc(a, n).state.live, p) == LiveIndex(a.live, p)
  {
    var need := H + RoundUp(n);
    var i := FirstFit(a.free, need);
    if i < |a.free| {
      LiveIndexAppend(a.live, Carve(a.free[i], need), p);
    }
  }

  /** Malloc keeps both invariants; a pointer it returns was not owned
      before and is owned after, its block holds the rounded request plus
      a header, and the free list loses exactly that block's bytes. */
  lemma MallocValid(a: Allocator, n: nat)
    requires Valid(a)
    ensures var r := Malloc(a, n);
            && Valid(r.state)
            && (r.ptr.Some? ==>
                  && Owned(r.state, r.ptr.value)
                  && !Owned(a, r.ptr.value)
                  && r.state.live[LiveIndex(r.state.live, r.ptr.value)].size == H + RoundUp(n)
                  && Total(r.state.free) == Total(a.free) - (H + RoundUp(n)))
  {
    var need := H + RoundUp(n);
    var i := FirstFit(a.free, need);
    var r := Malloc(a, n);
    MallocHeap(a, n);
    forall p | Owned(a, p)
      ensures Owned(r.state, p)
    {
      MallocKeepsOwned(a, n, p);
    }
    RegistryKept(a, r.state);
    if i < |a.free| {
      var b := Carve(a.free[i], need);
      assert r.state.live == a.live + [b];
      MallocFresh(a, n);
    }
  }

  /** Malloc keeps the memory invariant, and a pointer it returns was not
      owned before. */
  lemma MallocFresh(a: Allocator, n: nat)
    requires Heap(a)
    ensures var r := Malloc(a, n);
            && Heap(r.state)
            && (r.ptr.Some? ==> Owned(r.state, r.ptr.value) && !Owned(a, r.ptr.value))
  {
    MallocHeap(a, n);
    var need := H + RoundUp(n);
    var i := FirstFit(a.free, need);
    if i < |a.free| {
      var b := Carve(a.free[i], need);
      assert Malloc(a, n).state.live == a.live + [b];
      CarveLive(a.free, a.live, i, need, Region(a));
      if Owned(a, Payload(b)) {
        LiveIndexAppend(a.live, b, Payload(b));
      }
    }
  }

  /** The first live block with payload `p` comes no later than any
      block with that payload. */
  lemma {:induction false} LiveIndexAtMost(live: seq<Span>, j: nat, p: int)
    requires j < |live| && Payload(live[j]) == p
    ensures LiveIndex(live, p) <= j
  {
    if j > 0 && Payload(live[0]) != p {
      assert live[1..][j - 1] == live[j];
      LiveIndexAtMost(live[1..], j - 1, p);
    }
  }

  /** Removing one live block keeps every other payload owned. */
  lemma LiveIndexRemove(live: seq<Span>, i: nat, p: int)
    requires i < |live| && LiveIndex(live, p) < |live| && Payload(live[i]) != p
    ensures LiveIndex(live[..i] + live[i + 1..], p) < |live| - 1
  {
    var j := LiveIndex(live, p);
    var r := live[..i] + live[i + 1..];
    var j' := if j < i then j else j - 1;
    assert r[j'] == live[j];
    LiveIndexAtMost(r, j', p);
  }

  lemma RemovedWithin(live: seq<Span>, i: nat, m: nat)
    requires i < |live| && m < |live| - 1
    ensures (live[..i] + live[i + 1..])[m] == live[if m < i then m else m + 1]
  {
  }

  /** Free keeps the memory invariant, returns the block's bytes to the
      free list and shortens the list by one span per neighbour merged
      minus one. */
  lemma FreeHeap(a: Allocator, p: int)
    requires Heap(a) && Owned(a, p)
    ensures Heap(Free(a, p))
    ensures Total(Free(a, p).free) == Total(a.free) + a.live[LiveIndex(a.live, p)].size
    ensures |Free(a, p).free| == |a.free| + 1 - Merges(a.free, a.live[LiveIndex(a.live, p)])
  {
    var i := LiveIndex(a.live, p);
    var a' := Free(a, p);
    FreeSpans(a.free, a.live, i, Region(a));
    assert a' == a.(free := a'.free, live := a'.live, bytesAllocated := a'.bytesAllocated, blocksAllocated := a'.blocksAllocated);
    assert a'.live == a.live[..i] + a.live[i + 1..] && a'.free == Insert(a.free, a.live[i]);
    HeapOfParts(a, a'.free, a'.live, a'.bytesAllocated, a'.blocksAllocated);
  }

  /** `FreeHeap` on the two lists: the freed block moves from the live
      blocks to the free list and every part of the invariant survives. */
  lemma FreeSpans(free: seq<Span>, live: seq<Span>, i: nat, region: Span)
    requires Ordered(free) && i < |live|
    requires forall j :: 0 <= j < |free| ==> Within(free[j], region)
    requires forall m :: 0 <= m < |live| ==> Within(live[m], region) && IsBlock(live[m])
    requires forall x, y :: 0 <= x < y < |live| ==> Disjoint(live[x], live[y])
    requires forall j, m :: 0 <= j < |free| && 0 <= m < |live| ==> Disjoint(free[j], live[m])
    ensures var live' := live[..i] + live[i + 1..];
            var free' := Insert(free, live[i]);
            && Ordered(free')
            && (forall j :: 0 <= j < |free'| ==> Within(free'[j], region))
            && (forall m :: 0 <= m < |live'| ==> Within(live'[m], region) && IsBlock(live'[m]))
            && (forall x, y :: 0 <= x < y < |live'| ==> Disjoint(live'[x], live'[y]))
            && (forall j, m :: 0 <= j < |free'| && 0 <= m < |live'| ==> Disjoint(free'[j], live'[m]))
            && Total(free') == Total(free) + live[i].size
            && Total(live') == Total(live) - live[i].size
            && |free'| == |free| + 1 - Merges(free, live[i])
  {
    InsertSpec(free, live[i]);
    InsertWithin(free, live[i], region);
    TotalRemove(live, i);
    FreeLive(free, live, i, region);
  }

  /** The blocks still live after a free stay inside the region, apart
      from each other and clear of every free span. */
  lemma FreeLive(free: seq<Span>, live: seq<Span>, i: nat, region: Span)
    requires Ordered(free) && i < |live|
    requires forall m :: 0 <= m < |live| ==> Within(live[m], region) && IsBlock(live[m])
    requires forall x, y :: 0 <= x < y < |live| ==> Disjoint(live[x], live[y])
    requires forall j, m :: 0 <= j < |free| && 0 <= m < |live| ==> Disjoint(free[j], live[m])
    ensures var live' := live[..i] + live[i + 1..];
            var free' := Insert(free, live[i]);
            && (forall m :: 0 <= m < |live'| ==> Within(live'[m], region) && IsBlock(live'[m]))
            && (forall x, y :: 0 <= x < y < |live'| ==> Disjoint(live'[x], live'[y]))
            && (forall j, m :: 0 <= j < |free'| && 0 <= m < |live'| ==> Disjoint(free'[j], live'[m]))
  {
    var live' := live[..i] + live[i + 1..];
    var free' := Insert(free, live[i]);
    forall m | 0 <= m < |live'|
      ensures Within(live'[m], region) && IsBlock(live'[m])
      ensures forall j :: 0 <= j < |free'| ==> Disjoint(free'[j], live'[m])
    {
      var m' := if m < i then m else m + 1;
      RemovedWithin(live, i, m);
      InsertDisjoint(free, live[i], live[m']);
    }
    forall x, y | 0 <= x < y < |live'|
      ensures Disjoint(live'[x], live'[y])
    {
      RemovedWithin(live, i, x);
      RemovedWithin(live, i, y);
    }
  }

  /** Free keeps every other owned pointer owned. */
  lemma FreeKeepsOwned(a: Allocator, p: int, q: int)
    requires Owned(a, p) && Owned(a, q) && p != q
    ensures Owned(Free(a, p), q)
  {
    LiveIndexRemove(a.live, LiveIndex(a.live, p), q);
  }

  /** A freed pointer is no longer owned: no other live block has the
      same payload. */
  lemma FreeDisowns(a: Allocator, p: int)
    requires Heap(a) && Owned(a, p)
    ensures !Owned(Free(a, p), p)
  {
    var i := LiveIndex(a.live, p);
    var r := a.live[..i] + a.live[i + 1..];
    forall m | 0 <= m < |r|
      ensures Payload(r[m]) != p
    {
      var j := if m < i then m else m + 1;
      assert r[m] == a.live[j];
      if j < i {
        assert Disjoint(a.live[j], a.live[i]);
      } else {
        assert Disjoint(a.live[i], a.live[j]);
      }
    }
  }

  /** Free keeps both invariants, provided the registry does not hold the
      block. */
  lemma FreeValid(a: Allocator, p: int)
    requires Valid(a) && Owned(a, p) && !Referenced(a, p)
    ensures Valid(Free(a, p))
  {
    FreeHeap(a, p);
    var a' := Free(a, p);
    forall k | 0 <= k < |a.registry|
      ensures Owned(a', a.registry[k].obj) && Owned(a', a.registry[k].nameCopy)
    {
      FreeKeepsOwned(a, p, a.registry[k].obj);
      FreeKeepsOwned(a, p, a.registry[k].nameCopy);
    }
  }

  /** Freeing the block just carved from span `i` restores that span. */
  lemma InsertUndoesCarve(free: seq<Span>, i: nat, need: int)
    requires Ordered(free) && i < |free| && 0 < need <= free[i].size
    ensures Insert(Rest(free, i, need), Carve(free[i], need)) == free
  {
    if free[i].size == need {
      UndoWholeSpan(free, i);
    } else {
      UndoSplitSpan(free, i, need);
    }
  }

  /** A span used up entirely comes back unmerged: its neighbours were
      never contiguous with it. */
  lemma UndoWholeSpan(free: seq<Span>, i: nat)
    requires Ordered(free) && i < |free|
    ensures Insert(free[..i] + free[i + 1..], free[i]) == free
  {
    WholeSpanPlace(free, i);
    InsertAlone(free[..i] + free[i + 1..], free[i], i);
    WholeSpanRejoined(free, i);
  }

  /** Splicing a span back in at its old index gives the list back. */
  lemma WholeSpanRejoined(free: seq<Span>, i: nat)
    requires i < |free|
    ensures var rest := free[..i] + free[i + 1..];
            rest[..i] + [free[i]] + rest[i..] == free
  {
    var rest := free[..i] + free[i + 1..];
    assert rest[..i] == free[..i];
    assert rest[i..] == free[i + 1..];
    assert free == free[..i] + [free[i]] + free[i + 1..];
  }

  /** Where a span taken out of the list goes back: at its old index, with
      a gap on either side. */
  lemma WholeSpanPlace(free: seq<Span>, i: nat)
    requires Ordered(free) && i < |free|
    ensures var rest := free[..i] + free[i + 1..];
            && Below(rest, free[i].addr) == i
            && !(0 < i && End(rest[i - 1]) == free[i].addr)
            && !(i < |rest| && End(free[i]) == rest[i].addr)
  {
    var b := free[i];
    var rest := free[..i] + free[i + 1..];
    forall j | 0 <= j < i
      ensures rest[j].addr < b.addr
    {
      assert rest[j] == free[j];
    }
    if i < |rest| {
      assert rest[i] == free[i + 1];
    }
    BelowAt(rest, b.addr, i);
    if i > 0 {
      assert rest[i - 1] == free[i - 1] && End(free[i - 1]) < b.addr;
    }
  }

  /** The top of a split span merges back into the part left behind. */
  lemma UndoSplitSpan(free: seq<Span>, i: nat, need: int)
    requires Ordered(free) && i < |free| && 0 < need < free[i].size
    ensures Insert(Rest(free, i, need), Carve(free[i], need)) == free
  {
    SplitSpanPlace(free, i, need);
    SplitSpanInsert(free, i, need);
  }

  /** `UndoSplitSpan` once the place of the carved top is known. */
  lemma SplitSpanInsert(free: seq<Span>, i: nat, need: int)
    requires i < |free| && 0 < need < free[i].size
    requires var s := free[i];
             var b := Carve(s, need);
             var rest := free[..i] + [Span(s.addr, s.size - need)] + free[i + 1..];
             && Below(rest, b.addr) == i + 1
             && End(rest[i]) == b.addr
             && !(i + 1 < |rest| && End(b) == rest[i + 1].addr)
    ensures Insert(Rest(free, i, need), Carve(free[i], need)) == free
  {
    var s := free[i];
    var rest := free[..i] + [Span(s.addr, s.size - need)] + free[i + 1..];
    assert Rest(free, i, need) == rest;
    InsertJoinsPrev(rest, Carve(s, need), i + 1);
    assert rest[..i + 1 - 1] == rest[..i];
    SplitSpanJoined(free, i, need);
  }

  /** Where the carved top of a split span goes back: right after the
      part left behind, which it touches, and with a gap to the next. */
  lemma SplitSpanPlace(free: seq<Span>, i: nat, need: int)
    requires Ordered(free) && i < |free| && 0 < need < free[i].size
    ensures var s := free[i];
            var b := Carve(s, need);
            var rest := free[..i] + [Span(s.addr, s.size - need)] + free[i + 1..];
            && Below(rest, b.addr) == i + 1
            && End(rest[i]) == b.addr
            && !(i + 1 < |rest| && End(b) == rest[i + 1].addr)
  {
    var s := free[i];
    var b := Carve(s, need);
    var rest := free[..i] + [Span(s.addr, s.size - need)] + free[i + 1..];
    forall j | 0 <= j < i + 1
      ensures rest[j].addr < b.addr
    {
      if j < i {
        assert rest[j] == free[j];
      }
    }
    if i + 1 < |rest| {
      assert rest[i + 1] == free[i + 1];
      assert End(b) == End(s) < free[i + 1].addr;
    }
    BelowAt(rest, b.addr, i + 1);
    assert rest[i] == Span(s.addr, s.size - need);
  }

  /** Splicing the rejoined span in gives the list back. */
  lemma SplitSpanJoined(free: seq<Span>, i: nat, need: int)
    requires i < |free| && 0 < need < free[i].size
    ensures var s := free[i];
            var t := Span(s.addr, s.size - need);
            var rest := free[..i] + [t] + free[i + 1..];
            rest[..i] + [Span(t.addr, t.size + need)] + rest[i + 1..] == free
  {
    var s := free[i];
    var t := Span(s.addr, s.size - need);
    var rest := free[..i] + [t] + free[i + 1..];
    assert rest[..i] == free[..i];
    assert rest[i + 1..] == free[i + 1..];
    assert free == free[..i] + [s] + free[i + 1..];
  }

  /** Freeing a pointer right after malloc returned it restores the
      allocator exactly: the same free list, the same blocks, the same
      counters. */
  lemma MallocThenFree(a: Allocator, n: nat)
    requires Heap(a) && Malloc(a, n).ptr.Some?
    ensures Owned(Malloc(a, n).state, Malloc(a, n).ptr.value)
    ensures Free(Malloc(a, n).state, Malloc(a, n).ptr.value) == a
  {
    var need := H + RoundUp(n);
    var i := FirstFit(a.free, need);
    var b := Carve(a.free[i], need);
    var r := Malloc(a, n);
    CarveLive(a.free, a.live, i, need, Region(a));
    assert r.state.live == a.live + [b];
    assert LiveIndex(r.state.live, Payload(b)) == |a.live|;
    assert (a.live + [b])[..|a.live|] + (a.live + [b])[|a.live| + 1..] == a.live;
    InsertUndoesCarve(a.free, i, need);
  }

  /** A pointer malloc returns is owned by the state it returns, whatever
      state it started from. */
  lemma MallocOwns(a: Allocator, n: nat)
    requires Malloc(a, n).ptr.Some?
    ensures Owned(Malloc(a, n).state, Malloc(a, n).ptr.value)
  {
    var need := H + RoundUp(n);
    var i := FirstFit(a.free, need);
    var b := Carve(a.free[i], need);
    var live' := a.live + [b];
    assert live'[|a.live|] == b;
    LiveIndexAtMost(live', |a.live|, Payload(b));
  }

  lemma FreeKeepsAllOwned(a: Allocator, p: int, ps: seq<int>)
    requires Owned(a, p)
    requires forall k :: 0 <= k < |ps| ==> Owned(a, ps[k]) && ps[k] != p
    ensures forall k :: 0 <= k < |ps| ==> Owned(Free(a, p), ps[k])
  {
    forall k | 0 <= k < |ps|
      ensures Owned(Free(a, p), ps[k])
    {
      FreeKeepsOwned(a, p, ps[k]);
    }
  }

  /** Free the pointers of `ps`, first to last. */
  function FreeEach(a: Allocator, ps: seq<int>): (r: Allocator)
    requires Heap(a)
    requires forall k :: 0 <= k < |ps| ==> Owned(a, ps[k])
    requires forall k, l :: 0 <= k < l < |ps| ==> ps[k] != ps[l]
    ensures Heap(r)
    ensures r.blocksAllocated == a.blocksAllocated - |ps|
    ensures r.base == a.base && r.size == a.size
    decreases |ps|
  {
    if ps == [] then a
    else
      FreeHeap(a, ps[0]);
      FreeKeepsAllOwned(a, ps[0], ps[1..]);
      FreeEach(Free(a, ps[0]), ps[1..])
  }

  /** Ordered spans inside a span `r`, with their gaps, take up at most
      `r`: their bytes plus one per gap. */
  lemma {:induction false} OrderedFits(s: seq<Span>, r: Span)
    requires Ordered(s) && s != []
    requires forall i :: 0 <= i < |s| ==> Within(s[i], r)
    ensures Total(s) + |s| - 1 <= r.size
  {
    if |s| > 1 {
      var r' := Span(End(s[0]) + 1, End(r) - End(s[0]) - 1);
      OrderedSlice(s, 1, |s|);
      forall i | 0 <= i < |s[1..]|
        ensures Within(s[1..][i], r')
      {
        assert s[1..][i] == s[i + 1];
      }
      OrderedFits(s[1..], r');
    }
  }

  /** With no block live, the counters are zero and the free list is the
      whole region again, as one span. */
  lemma NothingLive(a: Allocator)
    requires Heap(a) && a.blocksAllocated == 0
    ensures a.bytesAllocated == 0
    ensures a.size > 0 ==> a.free == [Region(a)]
    ensures a.size == 0 ==> a.free == []
  {
    assert a.live == [];
    if a.free != [] {
      OrderedFits(a.free, Region(a));
      TotalNonNegative(a.free);
      assert |a.free| == 1;
      assert a.free[1..] == [];
    } else {
      assert a.size == 0;
    }
  }

  /** Freeing every live block, in any order, brings both counters back
      to zero and leaves the whole region as a single free span. */
  lemma FreeAllInAnyOrder(a: Allocator, ps: seq<int>, r: Allocator)
    requires Heap(a)
    requires forall k :: 0 <= k < |ps| ==> Owned(a, ps[k])
    requires forall k, l :: 0 <= k < l < |ps| ==> ps[k] != ps[l]
    requires |ps| == a.blocksAllocated
    requires r == FreeEach(a, ps)
    ensures r.blocksAllocated == 0
    ensures r.bytesAllocated == 0
    ensures a.size > 0 ==> r.free == [Span(a.base + HeaderSize, a.size)]
  {
    NothingLive(r);
  }

  /** The free list `private_malloc` leaves as written. The new header is
      placed `need` bytes below the span's end and written before the
      exact-fit test, which then reads the span's size back: a span left
      holding exactly one more such block is unlinked with those bytes
      still in it, and a span used up entirely is unlinked too, because
      its header and the new one are the same bytes. Unlinking the head
      makes its null predecessor the head, which cuts off the whole list.
      Everywhere else it agrees with `Rest`. */
  function RestAsWritten(s: seq<Span>, i: nat, need: int): (r: seq<Span>)
    requires i < |s|
    ensures s[i].size - need != need && (s[i].size != need || i > 0) ==> r == Rest(s, i, need)
    ensures (s[i].size - need == need || s[i].size == need) && i == 0 ==> r == []
    ensures s[i].size - need == need && i > 0 ==> r == s[..i] + s[i + 1..]
  {
    var left := s[i].size - need;
    if left == need || left == 0 then (if i == 0 then [] else s[..i] + s[i + 1..])
    else s[..i] + [Span(s[i].addr, left)] + s[i + 1..]
  }

  /** `private_malloc` as written: the block, the pointer and the counters
      are those of `Malloc`; only the free list differs. */
  function MallocAsWritten(a: Allocator, n: nat): (r: Allocation)
    ensures r.ptr == Malloc(a, n).ptr
    ensures r.state == Malloc(a, n).state.(free := r.state.free)
    ensures r.ptr.None? ==> r.state == a
  {
    var need := H + RoundUp(n);
    var i := FirstFit(a.free, need);
    if i == |a.free| then Allocation(a, None)
    else
      var b := Carve(a.free[i], need);
      Allocation(a.(free := RestAsWritten(a.free, i, need), live := a.live + [b],
                    bytesAllocated := a.bytesAllocated + RoundUp(n),
                    blocksAllocated := a.blocksAllocated + 1),
                 Some(Payload(b)))
  }

  /** Two inputs on which the exact-fit test goes wrong. In a 64-byte
      segment an 8-byte request leaves 32 free bytes, exactly one more
      block: as written the free list empties and the next 8-byte request
      fails, where the corrected allocator serves it. And when the head
      span of a longer list is used up exactly, as written the spans after
      it are lost, where the corrected list keeps them. */
  lemma ExactFitAsWritten()
    ensures var a := Create(0, 2 * (H + W));
            var m := MallocAsWritten(a, W);
            && m.ptr.Some? && m.state.free == []
            && MallocAsWritten(m.state, W).ptr.None?
            && Malloc(Malloc(a, W).state, W).ptr.Some?
    ensures var s := [Span(HeaderSize, H + W), Span(256, 64)];
            RestAsWritten(s, 0, H + W) == [] && Rest(s, 0, H + W) == [Span(256, 64)]
  {
    var a := Create(0, 2 * (H + W));
    assert a.free == [Span(HeaderSize, 2 * (H + W))];
    assert FirstFit(a.free, H + W) == 0;
    var c := Malloc(a, W);
    assert c.state.free == [Span(HeaderSize, H + W)];
    assert FirstFit(c.state.free, H + W) == 0;
  }

  /** As written, a request that uses up the head span exactly empties the
      free list, losing every span after the head; the corrected
      allocator keeps them. */
  lemma UsedUpHeadAsWritten(a: Allocator, n: nat)
    requires a.free != [] && a.free[0].size == H + RoundUp(n)
    ensures MallocAsWritten(a, n).ptr.Some?
    ensures MallocAsWritten(a, n).state.free == []
    ensures Malloc(a, n).state.free == a.free[1..]
  {
    assert FirstFit(a.free, H + RoundUp(n)) == 0;
  }

  /** Malloc from a free list of one span larger than the request: the
      block is cut off the span's top and the span stays, smaller. */
  lemma MallocOneSpan(a: Allocator, n: nat, r: Allocation)
    requires |a.free| == 1 && a.free[0].size > H + RoundUp(n)
    requires r == Malloc(a, n)
    ensures r.ptr == Some(End(a.free[0]) - RoundUp(n))
    ensures r.state.free == [Span(a.free[0].addr, a.free[0].size - H - RoundUp(n))]
    ensures r.state.live == a.live + [Span(End(a.free[0]) - H - RoundUp(n), H + RoundUp(n))]
  {
    MallocFirstFit(a, n, 0);
  }

  /** The allocations of the allocator's coalescing test, from the state
      `Create(base, 1024)` leaves (one free span of 1024 bytes, nothing
      live): requests of 11, 17, 2, 6 and 341 bytes are cut, one below the
      other, off the top of the span, whose lowest 504 bytes stay free. */
  lemma CoalescingMallocs(a: Allocator, m0: Allocation, m1: Allocation, m2: Allocation, m3: Allocation, m4: Allocation)
    requires a.free == [Span(HeaderSize, 1024)] && a.live == []
    requires m0 == Malloc(a, 11) && m1 == Malloc(m0.state, 17)
    requires m2 == Malloc(m1.state, 2) && m3 == Malloc(m2.state, 6) && m4 == Malloc(m3.state, 341)
    ensures m4.state.free == [Span(HeaderSize, 504)]
    ensures m4.state.live == [Span(1080, 40), Span(1032, 48), Span(1000, 32), Span(968, 32), Span(600, 368)]
  {
    assert RoundUp(11) == 16 && RoundUp(17) == 24 && RoundUp(2) == 8 && RoundUp(6) == 8 && RoundUp(341) == 344;
    MallocOneSpan(a, 11, m0);
    MallocOneSpan(m0.state, 17, m1);
    MallocOneSpan(m1.state, 2, m2);
    MallocOneSpan(m2.state, 6, m3);
    MallocOneSpan(m3.state, 341, m4);
  }
}
