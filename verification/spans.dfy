/** Address ranges of segment memory and the address-ordered, coalesced
    free list kept by the shared-memory allocator (`private_free` in
    `src/allocator_shm.c`). A span is a block: the address of its
    `struct __node__` header and its total size, header included. */
module Spans {

  datatype Span = Span(addr: int, size: int)

  /** One past the last byte of the span. */
  function End(s: Span): int
  {
    s.addr + s.size
  }

  predicate Contains(s: Span, x: int)
  {
    s.addr <= x < End(s)
  }

  predicate Disjoint(s: Span, t: Span)
  {
    End(s) <= t.addr || End(t) <= s.addr
  }

  /** Span `s` lies inside span `r`. */
  predicate Within(s: Span, r: Span)
  {
    r.addr <= s.addr && End(s) <= End(r)
  }

  /** The free-list shape after every completed free: non-empty spans in
      increasing address order with a gap between any two of them, so no
      two free blocks are byte-contiguous. */
  predicate Ordered(s: seq<Span>)
  {
    && (forall i :: 0 <= i < |s| ==> s[i].size > 0)
    && (forall i, j :: 0 <= i < j < |s| ==> End(s[i]) < s[j].addr)
  }

  /** Sum of the span sizes. */
  function Total(s: seq<Span>): int
  {
    if s == [] then 0 else s[0].size + Total(s[1..])
  }

  /** Some span of `s` holds byte `x`. */
  predicate Covered(s: seq<Span>, x: int)
  {
    exists i :: 0 <= i < |s| && Contains(s[i], x)
  }

  lemma TotalAppend(a: seq<Span>, b: seq<Span>)
    ensures Total(a + b) == Total(a) + Total(b)
  {
    if a == [] {
      assert a + b == b;
    } else {
      assert (a + b)[1..] == a[1..] + b;
      TotalAppend(a[1..], b);
    }
  }

  lemma TotalSplit(s: seq<Span>, p: nat, q: nat)
    requires p <= q <= |s|
    ensures Total(s) == Total(s[..p]) + Total(s[p..q]) + Total(s[q..])
  {
    assert s == s[..p] + s[p..q] + s[q..];
    TotalAppend(s[..p] + s[p..q], s[q..]);
    TotalAppend(s[..p], s[p..q]);
  }

  lemma CoveredAppend(a: seq<Span>, b: seq<Span>, x: int)
    ensures Covered(a + b, x) <==> Covered(a, x) || Covered(b, x)
  {
    if Covered(a + b, x) {
      var i :| 0 <= i < |a + b| && Contains((a + b)[i], x);
      if i < |a| {
        assert Contains(a[i], x);
      } else {
        assert Contains(b[i - |a|], x);
      }
    }
    if Covered(a, x) {
      var i :| 0 <= i < |a| && Contains(a[i], x);
      assert (a + b)[i] == a[i];
    }
    if Covered(b, x) {
      var i :| 0 <= i < |b| && Contains(b[i], x);
      assert (a + b)[|a| + i] == b[i];
    }
  }

  /** The number of leading spans that start below `x`: where a block at
      `x` belongs in address order. */
  function Below(s: seq<Span>, x: int): (k: nat)
    ensures k <= |s|
    ensures forall i :: 0 <= i < k ==> s[i].addr < x
    ensures k < |s| ==> x <= s[k].addr
  {
    if s == [] || x <= s[0].addr then 0 else 1 + Below(s[1..], x)
  }

  /** Reinsert the block `b` into the free list at its address position,
      merging it with a byte-contiguous predecessor and/or successor. */
  function Insert(s: seq<Span>, b: Span): seq<Span>
  {
    var k := Below(s, b.addr);
    var joinPrev := k > 0 && End(s[k - 1]) == b.addr;
    var joinNext := k < |s| && End(b) == s[k].addr;
    if joinPrev && joinNext then
      s[..k - 1] + [Span(s[k - 1].addr, s[k - 1].size + b.size + s[k].size)] + s[k + 1..]
    else if joinPrev then
      s[..k - 1] + [Span(s[k - 1].addr, s[k - 1].size + b.size)] + s[k..]
    else if joinNext then
      s[..k] + [Span(b.addr, b.size + s[k].size)] + s[k + 1..]
    else
      s[..k] + [b] + s[k..]
  }

  /** How many neighbours `b` merges with when freed into `s`. */
  function Merges(s: seq<Span>, b: Span): nat
  {
    var k := Below(s, b.addr);
    (if k > 0 && End(s[k - 1]) == b.addr then 1 else 0)
    + (if k < |s| && End(b) == s[k].addr then 1 else 0)
  }

  /** The free-list walk of `private_free`: advance while the current span
      lies below the freed block. */
  method ScanInsertPoint(s: seq<Span>, x: int) returns (k: nat)
    requires Ordered(s)
    ensures k <= |s|
    ensures forall i :: 0 <= i < k ==> s[i].addr < x
    ensures forall i :: k <= i < |s| ==> x <= s[i].addr
    ensures k == Below(s, x)
  {
    k := 0;
    while k < |s| && s[k].addr < x
      invariant k <= |s|
      invariant k == |s| - |s[k..]|
      invariant forall i :: 0 <= i < k ==> s[i].addr < x
      invariant Below(s, x) == k + Below(s[k..], x)
    {
      assert s[k..][1..] == s[k + 1..];
      k := k + 1;
    }
    assert k < |s| ==> s[k..][0] == s[k];
    forall i | k <= i < |s|
      ensures x <= s[i].addr
    {
      if i > k {
        assert End(s[k]) < s[i].addr;
      }
    }
  }

  lemma OrderedConcat(pre: seq<Span>, m: Span, post: seq<Span>)
    requires Ordered(pre) && Ordered(post) && m.size > 0
    requires forall i :: 0 <= i < |pre| ==> End(pre[i]) < m.addr
    requires forall j :: 0 <= j < |post| ==> End(m) < post[j].addr
    ensures Ordered(pre + [m] + post)
  {
    var r := pre + [m] + post;
    forall i | 0 <= i < |r|
      ensures r[i].size > 0
    {
      if i < |pre| {
        assert r[i] == pre[i];
      } else if i > |pre| {
        assert r[i] == post[i - |pre| - 1];
      }
    }
    forall i, j | 0 <= i < j < |r|
      ensures End(r[i]) < r[j].addr
    {
      if j < |pre| {
        assert r[i] == pre[i] && r[j] == pre[j];
      } else if j == |pre| {
        assert r[i] == pre[i];
      } else if i > |pre| {
        assert r[i] == post[i - |pre| - 1] && r[j] == post[j - |pre| - 1];
      } else if i == |pre| {
        assert r[j] == post[j - |pre| - 1];
      } else {
        assert r[i] == pre[i] && r[j] == post[j - |pre| - 1];
      }
    }
  }

  lemma OrderedSlice(s: seq<Span>, p: nat, q: nat)
    requires Ordered(s) && p <= q <= |s|
    ensures Ordered(s[p..q])
  {
    var t := s[p..q];
    forall i, j | 0 <= i < j < |t|
      ensures End(t[i]) < t[j].addr
    {
      assert t[i] == s[p + i] && t[j] == s[p + j];
    }
  }

  /** Where a disjoint block sits relative to the spans of an ordered
      list: everything below it ends at or before it, everything from its
      insert position on starts at or after its end. */
  lemma DisjointSides(s: seq<Span>, b: Span)
    requires Ordered(s) && b.size > 0
    requires forall i :: 0 <= i < |s| ==> Disjoint(s[i], b)
    ensures forall i :: 0 <= i < Below(s, b.addr) ==> End(s[i]) <= b.addr
    ensures forall i :: Below(s, b.addr) <= i < |s| ==> End(b) <= s[i].addr
  {
    var k := Below(s, b.addr);
    forall i | k <= i < |s|
      ensures End(b) <= s[i].addr
    {
      if i > k {
        assert End(s[k]) < s[i].addr;
      }
    }
  }

  /** The first span index replaced by the merged span. */
  function From(s: seq<Span>, b: Span): (p: nat)
    ensures p <= Below(s, b.addr)
  {
    var k := Below(s, b.addr);
    if k > 0 && End(s[k - 1]) == b.addr then k - 1 else k
  }

  /** One past the last span index replaced by the merged span. */
  function Upto(s: seq<Span>, b: Span): (q: nat)
    ensures Below(s, b.addr) <= q <= |s|
  {
    var k := Below(s, b.addr);
    if k < |s| && End(b) == s[k].addr then k + 1 else k
  }

  /** The span `b` becomes once merged with its contiguous neighbours. */
  function Merged(s: seq<Span>, b: Span): Span
  {
    var k := Below(s, b.addr);
    var joinPrev := k > 0 && End(s[k - 1]) == b.addr;
    var joinNext := k < |s| && End(b) == s[k].addr;
    Span(if joinPrev then s[k - 1].addr else b.addr,
         (if joinPrev then s[k - 1].size else 0) + b.size + (if joinNext then s[k].size else 0))
  }

  /** The neighbours `b` merges with when freed into `s`, in order. */
  function Neighbours(s: seq<Span>, b: Span): seq<Span>
  {
    var k := Below(s, b.addr);
    (if k > 0 && End(s[k - 1]) == b.addr then [s[k - 1]] else [])
    + (if k < |s| && End(b) == s[k].addr then [s[k]] else [])
  }

  lemma TotalPair(x: Span, y: Span)
    ensures Total([x, y]) == x.size + y.size
  {
    assert [x, y][1..] == [y];
    assert [y][1..] == [];
    assert Total([y]) == y.size;
  }

  /** The spans `Insert` replaces are exactly the merged neighbours. */
  lemma Window(s: seq<Span>, b: Span)
    ensures s[From(s, b)..Upto(s, b)] == Neighbours(s, b)
    ensures Total(Neighbours(s, b)) + b.size == Merged(s, b).size
  {
    var k := Below(s, b.addr);
    var joinPrev := k > 0 && End(s[k - 1]) == b.addr;
    var joinNext := k < |s| && End(b) == s[k].addr;
    var t := s[From(s, b)..Upto(s, b)];
    if joinPrev && joinNext {
      assert t == [s[k - 1], s[k]];
      assert Neighbours(s, b) == [s[k - 1], s[k]];
      TotalPair(s[k - 1], s[k]);
    } else if joinPrev {
      assert t == [s[k - 1]];
      assert Neighbours(s, b) == [s[k - 1]];
    } else if joinNext {
      assert t == [s[k]];
      assert Neighbours(s, b) == [s[k]];
    } else {
      assert t == [];
      assert Neighbours(s, b) == [];
    }
  }

  /** `Insert` replaces the neighbours it merges (none, one or both) by the
      merged span and leaves every other span in place. */
  lemma InsertSplice(s: seq<Span>, b: Span)
    ensures Insert(s, b) == s[..From(s, b)] + [Merged(s, b)] + s[Upto(s, b)..]
    ensures Upto(s, b) - From(s, b) == Merges(s, b)
  {
  }

  /** Bytes of the merged span: those of the merged neighbours and of `b`. */
  lemma MergedContains(s: seq<Span>, b: Span, x: int)
    requires Ordered(s) && b.size > 0
    ensures Contains(Merged(s, b), x) <==> Covered(Neighbours(s, b), x) || Contains(b, x)
  {
    var k := Below(s, b.addr);
    var joinPrev := k > 0 && End(s[k - 1]) == b.addr;
    var joinNext := k < |s| && End(b) == s[k].addr;
    var pre: seq<Span> := if joinPrev then [s[k - 1]] else [];
    var post: seq<Span> := if joinNext then [s[k]] else [];
    assert Neighbours(s, b) == pre + post;
    CoveredAppend(pre, post, x);
    assert Covered(pre, x) <==> joinPrev && Contains(s[k - 1], x) by {
      if joinPrev && Contains(s[k - 1], x) { assert pre[0] == s[k - 1]; }
      if Covered(pre, x) { var i :| 0 <= i < |pre| && Contains(pre[i], x); }
    }
    assert Covered(post, x) <==> joinNext && Contains(s[k], x) by {
      if joinNext && Contains(s[k], x) { assert post[0] == s[k]; }
      if Covered(post, x) { var i :| 0 <= i < |post| && Contains(post[i], x); }
    }
    var m := Merged(s, b);
    assert m.addr == if joinPrev then s[k - 1].addr else b.addr;
    assert End(m) == if joinNext then End(s[k]) else End(b);
    assert joinPrev ==> End(s[k - 1]) == b.addr;
    assert joinNext ==> End(b) == s[k].addr;
  }

  /** Freeing a block that overlaps no free span keeps the list ordered
      and coalesced. */
  lemma InsertOrdered(s: seq<Span>, b: Span)
    requires Ordered(s) && b.size > 0
    requires forall i :: 0 <= i < |s| ==> Disjoint(s[i], b)
    ensures Ordered(Insert(s, b))
  {
    InsertSplice(s, b);
    var p, q := From(s, b), Upto(s, b);
    OrderedSlice(s, 0, p);
    OrderedSlice(s, q, |s|);
    MergedGaps(s, b);
    OrderedConcat(s[..p], Merged(s, b), s[q..]);
  }

  /** The merged span keeps a gap to every span left below and above it. */
  lemma MergedGaps(s: seq<Span>, b: Span)
    requires Ordered(s) && b.size > 0
    requires forall i :: 0 <= i < |s| ==> Disjoint(s[i], b)
    ensures Merged(s, b).size > 0
    ensures forall i :: 0 <= i < |s[..From(s, b)]| ==> End(s[..From(s, b)][i]) < Merged(s, b).addr
    ensures forall j :: 0 <= j < |s[Upto(s, b)..]| ==> End(Merged(s, b)) < s[Upto(s, b)..][j].addr
  {
    var k := Below(s, b.addr);
    DisjointSides(s, b);
    var p, q, m := From(s, b), Upto(s, b), Merged(s, b);
    var joinPrev := k > 0 && End(s[k - 1]) == b.addr;
    var joinNext := k < |s| && End(b) == s[k].addr;
    forall i | 0 <= i < |s[..p]|
      ensures End(s[..p][i]) < m.addr
    {
      assert s[..p][i] == s[i];
      if joinPrev || i < k - 1 {
        assert End(s[i]) < s[k - 1].addr;
      }
    }
    forall j | 0 <= j < |s[q..]|
      ensures End(m) < s[q..][j].addr
    {
      assert s[q..][j] == s[q + j];
      if joinNext || q + j > k {
        assert End(s[k]) < s[q + j].addr;
      }
    }
  }

  /** Freeing adds exactly the block's bytes to the free total. */
  lemma InsertTotal(s: seq<Span>, b: Span)
    ensures Total(Insert(s, b)) == Total(s) + b.size
  {
    InsertSplice(s, b);
    var p, q, m := From(s, b), Upto(s, b), Merged(s, b);
    Window(s, b);
    TotalSplit(s, p, q);
    TotalAppend(s[..p] + [m], s[q..]);
    TotalAppend(s[..p], [m]);
    assert Total([m]) == m.size;
  }

  /** After freeing, a byte is free exactly when it was free before or
      belongs to the block. */
  lemma InsertCovers(s: seq<Span>, b: Span, x: int)
    requires Ordered(s) && b.size > 0
    ensures Covered(Insert(s, b), x) <==> Covered(s, x) || Contains(b, x)
  {
    InsertSplice(s, b);
    var p, q := From(s, b), Upto(s, b);
    CoveredSplice(s, p, q, Merged(s, b), x);
    CoveredThirds(s, p, q, x);
    Window(s, b);
    MergedContains(s, b, x);
  }

  /** A byte is covered by a splice when it is covered by the part kept
      on either side or lies in the span spliced in. */
  lemma CoveredSplice(s: seq<Span>, p: nat, q: nat, m: Span, x: int)
    requires p <= q <= |s|
    ensures Covered(s[..p] + [m] + s[q..], x) <==> Covered(s[..p], x) || Contains(m, x) || Covered(s[q..], x)
  {
    CoveredAppend(s[..p] + [m], s[q..], x);
    CoveredAppend(s[..p], [m], x);
    assert Covered([m], x) <==> Contains(m, x) by {
      if Contains(m, x) { assert [m][0] == m; }
    }
  }

  /** Cutting a list in three parts splits what it covers. */
  lemma CoveredThirds(s: seq<Span>, p: nat, q: nat, x: int)
    requires p <= q <= |s|
    ensures Covered(s, x) <==> Covered(s[..p], x) || Covered(s[p..q], x) || Covered(s[q..], x)
  {
    assert s == s[..p] + s[p..q] + s[q..];
    CoveredAppend(s[..p] + s[p..q], s[q..], x);
    CoveredAppend(s[..p], s[p..q], x);
  }

  /** Freeing a block that overlaps no free span keeps the list ordered and
      coalesced, adds exactly the block's bytes, covers exactly the old
      free bytes plus the block, and shortens the list by one span per
      neighbour merged. */
  lemma InsertSpec(s: seq<Span>, b: Span)
    requires Ordered(s) && b.size > 0
    requires forall i :: 0 <= i < |s| ==> Disjoint(s[i], b)
    ensures Ordered(Insert(s, b))
    ensures Total(Insert(s, b)) == Total(s) + b.size
    ensures |Insert(s, b)| == |s| + 1 - Merges(s, b)
    ensures forall x :: Covered(Insert(s, b), x) <==> Covered(s, x) || Contains(b, x)
  {
    InsertOrdered(s, b);
    InsertTotal(s, b);
    InsertSplice(s, b);
    forall x
      ensures Covered(Insert(s, b), x) <==> Covered(s, x) || Contains(b, x)
    {
      InsertCovers(s, b, x);
    }
  }

  /** The neighbours merged are spans of the list. */
  lemma NeighbourIn(s: seq<Span>, b: Span, j: nat)
    requires j < |Neighbours(s, b)|
    ensures From(s, b) + j < |s| && Neighbours(s, b)[j] == s[From(s, b) + j]
  {
    Window(s, b);
  }

  /** The merged span stays inside any span holding the list and the
      block. */
  lemma InsertWithin(s: seq<Span>, b: Span, r: Span)
    requires Ordered(s) && b.size > 0 && Within(b, r)
    requires forall i :: 0 <= i < |s| ==> Within(s[i], r)
    ensures forall i :: 0 <= i < |Insert(s, b)| ==> Within(Insert(s, b)[i], r)
  {
    InsertSplice(s, b);
    SpliceIndex(s, From(s, b), Upto(s, b), Merged(s, b));
  }

  /** Where each span of a splice comes from. */
  lemma SpliceIndex(s: seq<Span>, p: nat, q: nat, m: Span)
    requires p <= q <= |s|
    ensures var t := s[..p] + [m] + s[q..];
            && |t| == |s| - (q - p) + 1
            && (forall i :: 0 <= i < p ==> t[i] == s[i])
            && t[p] == m
            && (forall i :: p < i < |t| ==> t[i] == s[q + i - p - 1])
  {
  }

  /** A span clear of every free span and of the freed block is clear of
      every span of the list after the free. */
  lemma InsertDisjoint(s: seq<Span>, b: Span, l: Span)
    requires Ordered(s) && b.size > 0 && l.size > 0
    requires forall i :: 0 <= i < |s| ==> Disjoint(s[i], l)
    requires Disjoint(b, l)
    ensures forall i :: 0 <= i < |Insert(s, b)| ==> Disjoint(Insert(s, b)[i], l)
  {
    InsertSplice(s, b);
    MergedDisjoint(s, b, l);
    SpliceIndex(s, From(s, b), Upto(s, b), Merged(s, b));
  }

  /** The merged span is clear of a span that its parts are clear of. */
  lemma MergedDisjoint(s: seq<Span>, b: Span, l: Span)
    requires Ordered(s) && b.size > 0 && l.size > 0
    requires forall i :: 0 <= i < |s| ==> Disjoint(s[i], l)
    requires Disjoint(b, l)
    ensures Disjoint(Merged(s, b), l)
  {
    var m := Merged(s, b);
    MergedClearAt(s, b, l, if m.addr < l.addr then l.addr else m.addr);
  }

  /** A byte of the merged span lies in `b` or in a neighbour, so it is
      not a byte of a span clear of both. */
  lemma MergedClearAt(s: seq<Span>, b: Span, l: Span, x: int)
    requires Ordered(s) && b.size > 0
    requires forall i :: 0 <= i < |s| ==> Disjoint(s[i], l)
    requires Disjoint(b, l)
    ensures Contains(Merged(s, b), x) ==> !Contains(l, x)
  {
    MergedContains(s, b, x);
    if Covered(Neighbours(s, b), x) {
      var j :| 0 <= j < |Neighbours(s, b)| && Contains(Neighbours(s, b)[j], x);
      NeighbourIn(s, b, j);
    }
  }

  /** `Below` is determined by where the addresses cross `x`. */
  lemma {:induction false} BelowAt(s: seq<Span>, x: int, k: nat)
    requires k <= |s|
    requires forall j :: 0 <= j < k ==> s[j].addr < x
    requires k < |s| ==> x <= s[k].addr
    ensures Below(s, x) == k
  {
    if k > 0 {
      if k < |s| {
        assert s[1..][k - 1] == s[k];
      }
      forall j | 0 <= j < k - 1
        ensures s[1..][j].addr < x
      {
        assert s[1..][j] == s[j + 1];
      }
      BelowAt(s[1..], x, k - 1);
    }
  }

  /** A block contiguous with neither neighbour goes in as it is, at its
      address position. */
  lemma InsertAlone(s: seq<Span>, b: Span, k: nat)
    requires Below(s, b.addr) == k
    requires !(0 < k && End(s[k - 1]) == b.addr)
    requires !(k < |s| && End(b) == s[k].addr)
    ensures Insert(s, b) == s[..k] + [b] + s[k..]
  {
  }

  /** A block contiguous with its predecessor only is absorbed by it. */
  lemma InsertJoinsPrev(s: seq<Span>, b: Span, k: nat)
    requires Below(s, b.addr) == k && 0 < k
    requires End(s[k - 1]) == b.addr
    requires !(k < |s| && End(b) == s[k].addr)
    ensures Insert(s, b) == s[..k - 1] + [Span(s[k - 1].addr, s[k - 1].size + b.size)] + s[k..]
  {
  }

  /** The frees of the allocator's coalescing test: with the free list at
      one span [96, 600) and live blocks at 1080, 1032, 1000, 968 and 600,
      freeing the first, third, fifth, second and fourth leaves 2, 3, 3, 2
      and 1 spans, the last being the whole 1024-byte region. */
  lemma CoalescingFrees()
    ensures var f1 := Insert([Span(96, 504)], Span(1080, 40));
            var f2 := Insert(f1, Span(1000, 32));
            var f3 := Insert(f2, Span(600, 368));
            var f4 := Insert(f3, Span(1032, 48));
            var f5 := Insert(f4, Span(968, 32));
            |f1| == 2 && |f2| == 3 && |f3| == 3 && |f4| == 2 && f5 == [Span(96, 1024)]
  {
    var f1 := Insert([Span(96, 504)], Span(1080, 40));
    assert Below([Span(96, 504)], 1080) == 1;
    assert f1 == [Span(96, 504), Span(1080, 40)];
    assert Below(f1, 1000) == 1;
    var f2 := Insert(f1, Span(1000, 32));
    assert f2 == [Span(96, 504), Span(1000, 32), Span(1080, 40)];
    assert Below(f2, 600) == 1;
    var f3 := Insert(f2, Span(600, 368));
    assert f3 == [Span(96, 872), Span(1000, 32), Span(1080, 40)];
    assert Below(f3, 1032) == 2;
    var f4 := Insert(f3, Span(1032, 48));
    assert f4 == [Span(96, 872), Span(1000, 120)];
    assert Below(f4, 968) == 1;
  }
}
