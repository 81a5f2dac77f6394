/** The intrusive doubly linked list that lives in a segment
    (`src/shared_in_list.c`). The caller owns the nodes; the list only
    links them. A list is named: its shared header is a block of the
    segment, registered under the list's name so that other processes can
    attach to it.

    The list is modelled by the order of its node addresses from head to
    tail together with the count field the header keeps; the offset links
    themselves are the subject of `OffsetPtr`. */
module SharedList {
  import opened Base
  import opened Segment
  import opened Registry
  import opened Spans

  /** `sizeof(struct shared_data)`: head and tail links, the count, a
      32-byte semaphore and the one-byte null sentinel, padded to 8. */
  const DataSize: nat := 64

  /** Longest name `ipt_shared_in_list_attach` accepts. */
  const MaxName: nat := 128

  datatype List = List(nodes: seq<int>, count: int)

  predicate Distinct(s: seq<int>)
  {
    forall i, j :: 0 <= i < j < |s| ==> s[i] != s[j]
  }

  /** A node is linked at most once and the count field counts the
      nodes. */
  predicate WellFormed(l: List)
  {
    Distinct(l.nodes) && l.count == |l.nodes|
  }

  /** The header right after creation: both links at the sentinel and
      the count zeroed. */
  const Empty: List := List([], 0)

  /** Position of `n` in `s`. */
  function IndexOf(s: seq<int>, n: int): (i: nat)
    requires n in s
    ensures i < |s| && s[i] == n
    ensures forall j :: 0 <= j < i ==> s[j] != n
  {
    if s[0] == n then 0 else 1 + IndexOf(s[1..], n)
  }

  /** Cutting one element out of a sequence and putting it back at the
      same place gives the sequence back. */
  lemma CutAt(s: seq<int>, i: nat)
    requires i < |s|
    ensures var rest := s[..i] + s[i + 1..];
            |rest| == |s| - 1 && s == rest[..i] + [s[i]] + rest[i..]
  {
    var rest := s[..i] + s[i + 1..];
    assert rest[..i] == s[..i] && rest[i..] == s[i + 1..];
  }

  /** `head`: the first node, or NULL when the head link is the
      sentinel. */
  function Head(l: List): (r: Option<int>)
    ensures r.None? <==> l.nodes == []
    ensures r.Some? ==> r.value in l.nodes && IndexOf(l.nodes, r.value) == 0
  {
    if l.nodes == [] then None else Some(l.nodes[0])
  }

  /** `tail`: the last node, or NULL for an empty list. */
  function Tail(l: List): (r: Option<int>)
    ensures r.None? <==> l.nodes == []
    ensures r.Some? ==> r.value in l.nodes && r.value == l.nodes[|l.nodes| - 1]
  {
    if l.nodes == [] then None else Some(l.nodes[|l.nodes| - 1])
  }

  /** `next`: the node linked after `n`; NULL for a NULL argument and for
      the last node. */
  function Next(l: List, n: Option<int>): (r: Option<int>)
    requires n.Some? ==> n.value in l.nodes
    ensures n.None? ==> r.None?
    ensures n.Some? && Distinct(l.nodes) ==> (r.None? <==> n.value == l.nodes[|l.nodes| - 1])
    ensures r.Some? ==> exists i :: 0 <= i < |l.nodes| - 1 && l.nodes[i] == n.value && l.nodes[i + 1] == r.value
  {
    if n.None? then None
    else
      var i := IndexOf(l.nodes, n.value);
      if i + 1 < |l.nodes| then Some(l.nodes[i + 1]) else None
  }

  /** `add_tail`: link `n` after the current tail. The node must not be
      linked already: the list writes its links into the node itself. */
  function AddTail(l: List, n: int): (r: List)
    requires n !in l.nodes
    ensures r.nodes == l.nodes + [n] && r.count == l.count + 1
    ensures WellFormed(l) ==> WellFormed(r)
    ensures Tail(r) == Some(n)
    ensures Head(r) == if l.nodes == [] then Some(n) else Head(l)
    ensures forall m :: m in r.nodes <==> m in l.nodes || m == n
  {
    List(l.nodes + [n], l.count + 1)
  }

  /** `add_head` as its interface documents it: link `n` before the
      current head. */
  function AddHead(l: List, n: int): (r: List)
    requires n !in l.nodes
    ensures r.nodes == [n] + l.nodes && r.count == l.count + 1
    ensures WellFormed(l) ==> WellFormed(r)
    ensures Head(r) == Some(n)
    ensures Tail(r) == if l.nodes == [] then Some(n) else Tail(l)
    ensures forall m :: m in r.nodes <==> m in l.nodes || m == n
  {
    List([n] + l.nodes, l.count + 1)
  }

  /** `add_head` as written: both guards compare a link with the value it
      was just given, so they always hold. The node becomes head and tail
      with no neighbours, and the count still goes up. */
  function AddHeadAsWritten(l: List, n: int): (r: List)
    ensures r.nodes == [n]
    ensures r.count == l.count + 1
  {
    List([n], l.count + 1)
  }

  /** `remove`: unlink `n`, moving the head or tail link when `n` sits at
      an end, and decrement the count. `n` must be linked. */
  function Remove(l: List, n: int): (r: List)
    requires n in l.nodes
    ensures WellFormed(l) ==> WellFormed(r) && n !in r.nodes
    ensures forall m :: m != n ==> (m in r.nodes <==> m in l.nodes)
    ensures |r.nodes| == |l.nodes| - 1 && r.count == l.count - 1
    ensures exists i :: 0 <= i <= |r.nodes| && l.nodes == r.nodes[..i] + [n] + r.nodes[i..]
  {
    var i := IndexOf(l.nodes, n);
    CutAt(l.nodes, i);
    List(l.nodes[..i] + l.nodes[i + 1..], l.count - 1)
  }

  /** `ipt_shared_in_list_find`: the first node, from the head, that
      `compare` reports equal (zero). */
  function FindNode(nodes: seq<int>, compare: int -> int): (r: Option<int>)
    ensures r.None? <==> forall i :: 0 <= i < |nodes| ==> compare(nodes[i]) != 0
    ensures r.Some? ==> exists i :: (0 <= i < |nodes| && nodes[i] == r.value && compare(r.value) == 0
                                     && forall j :: 0 <= j < i ==> compare(nodes[j]) != 0)
  {
    if nodes == [] then None
    else if compare(nodes[0]) == 0 then Some(nodes[0])
    else
      var r := FindNode(nodes[1..], compare);
      FindShift(nodes, compare, r);
      r
  }

  /** What `FindNode` promises about the nodes after the head carries over to
      the whole list when the head does not match. */
  lemma FindShift(nodes: seq<int>, compare: int -> int, r: Option<int>)
    requires nodes != [] && compare(nodes[0]) != 0
    requires r.None? <==> forall i :: 0 <= i < |nodes[1..]| ==> compare(nodes[1..][i]) != 0
    requires r.Some? ==> exists i :: (0 <= i < |nodes[1..]| && nodes[1..][i] == r.value && compare(r.value) == 0
                                      && forall j :: 0 <= j < i ==> compare(nodes[1..][j]) != 0)
    ensures r.None? <==> forall i :: 0 <= i < |nodes| ==> compare(nodes[i]) != 0
    ensures r.Some? ==> exists i :: (0 <= i < |nodes| && nodes[i] == r.value && compare(r.value) == 0
                                     && forall j :: 0 <= j < i ==> compare(nodes[j]) != 0)
  {
    if r.Some? {
      var i :| 0 <= i < |nodes[1..]| && nodes[1..][i] == r.value && compare(r.value) == 0
               && forall j :: 0 <= j < i ==> compare(nodes[1..][j]) != 0;
      assert nodes[i + 1] == r.value;
      forall j | 0 <= j < i + 1 ensures compare(nodes[j]) != 0 {
        if j > 0 { assert nodes[j] == nodes[1..][j - 1]; }
      }
    } else {
      forall i | 0 <= i < |nodes| ensures compare(nodes[i]) != 0 {
        if i > 0 { assert nodes[i] == nodes[1..][i - 1]; }
      }
    }
  }

  /** `ipt_shared_in_list_for_each`: walk from the head link along the
      next links until the sentinel. The result is the sequence of nodes
      handed to the functor, in call order: every node once, head to
      tail. */
  method ForEach(l: List) returns (visited: seq<int>)
    requires WellFormed(l)
    ensures visited == l.nodes
  {
    visited := [];
    var cur := Head(l);
    while cur.Some?
      invariant |visited| <= |l.nodes|
      invariant visited == l.nodes[..|visited|]
      invariant cur == if |visited| < |l.nodes| then Some(l.nodes[|visited|]) else None
      decreases |l.nodes| - |visited|
    {
      var k := |visited|;
      visited := visited + [cur.value];
      cur := Next(l, cur);
      if cur.Some? {
        var i :| 0 <= i < |l.nodes| - 1 && l.nodes[i] == l.nodes[k] && l.nodes[i + 1] == cur.value;
        assert i == k;
      }
    }
  }

  /** Removing head after head until the list is empty (the first half of
      `ipt_shared_in_list_destroy`). */
  function Drain(l: List): (r: List)
    requires WellFormed(l)
    ensures r == Empty
    decreases |l.nodes|
  {
    if l.nodes == [] then l else Drain(Remove(l, l.nodes[0]))
  }

  /** Adding at either end and then removing the same node gives the list
      back. */
  lemma AddThenRemove(l: List, n: int)
    requires n !in l.nodes
    ensures Remove(AddTail(l, n), n) == l
    ensures Remove(AddHead(l, n), n) == l
  {
    TailThenRemove(l, n);
    HeadThenRemove(l, n);
  }

  lemma TailThenRemove(l: List, n: int)
    requires n !in l.nodes
    ensures Remove(AddTail(l, n), n) == l
  {
    var t := AddTail(l, n).nodes;
    assert t == l.nodes + [n];
    assert IndexOf(t, n) == |l.nodes|;
    assert t[..|l.nodes|] + t[|l.nodes| + 1..] == l.nodes;
  }

  lemma HeadThenRemove(l: List, n: int)
    requires n !in l.nodes
    ensures Remove(AddHead(l, n), n) == l
  {
    var h := AddHead(l, n).nodes;
    assert h == [n] + l.nodes;
    assert h[..0] + h[1..] == l.nodes;
  }

  /** Removing the head leaves the rest in order, so the head's old
      successor becomes the head. */
  lemma RemoveHead(l: List)
    requires WellFormed(l) && l.nodes != []
    ensures Remove(l, l.nodes[0]).nodes == l.nodes[1..]
    ensures Head(Remove(l, l.nodes[0])) == Next(l, Head(l))
  {
  }

  /** As written, `add_head` on a non-empty list drops every node it held
      while the count goes on counting them. */
  lemma AddHeadLosesNodes(l: List, n: int)
    requires WellFormed(l) && l.nodes != []
    ensures !WellFormed(AddHeadAsWritten(l, n))
    ensures forall m :: m in l.nodes && m != n ==> m !in AddHeadAsWritten(l, n).nodes
  {
  }

  /** A handle on a list: its shared header block and the name it is
      registered under. */
  datatype Handle = Handle(data: int, name: string)

  /** `ipt_shared_in_list_create` with the check on registration that the
      code evidently means: an empty name, a name already registered or a
      failed header allocation give NULL, and so does a failed
      registration, after giving the header block back. */
  function Create(a: Allocator, name: string): (r: (Allocator, Option<Handle>))
    requires Valid(a)
    ensures r.1.None? ==> r.0 == a
    ensures name == [] || Find(a, name).Some? ==> r.1.None?
    ensures r.1.Some? ==> r.1.value.name == name && Find(r.0, name) == Some(r.1.value.data)
    ensures Valid(r.0)
  {
    if name == [] || Find(a, name).Some? then (a, None)
    else
      var m := Malloc(a, DataSize);
      if m.ptr.None? then (a, None)
      else
        MallocValid(a, DataSize);
        var g := Register(m.state, Some(name), Some(m.ptr.value));
        RegisterFailureChangesNothing(m.state, Some(name), Some(m.ptr.value));
        RegisterValid(m.state, Some(name), Some(m.ptr.value));
        if g.status != 0 then
          MallocThenFree(a, DataSize);
          (Free(g.state, m.ptr.value), None)
        else
          RegisterThenFind(m.state, name, m.ptr.value, name);
          (g.state, Some(Handle(m.ptr.value, name)))
  }

  /** `ipt_shared_in_list_create` as written. Registration reports failure
      with 1, but the code only gives up on a negative result, so a list
      whose registration failed is still returned. The handle's name
      buffer is never filled in: `junk` stands for whatever bytes it
      happens to hold. */
  function CreateAsWritten(a: Allocator, name: string, junk: string): (r: (Allocator, Option<Handle>))
    requires Valid(a)
    ensures r.1.None? ==> r.0 == a
    ensures r.1.Some? ==> r.1.value.name == junk
    ensures Valid(r.0)
  {
    if name == [] || Find(a, name).Some? then (a, None)
    else
      var m := Malloc(a, DataSize);
      if m.ptr.None? then (a, None)
      else
        MallocValid(a, DataSize);
        var g := Register(m.state, Some(name), Some(m.ptr.value));
        RegisterValid(m.state, Some(name), Some(m.ptr.value));
        (g.state, Some(Handle(m.ptr.value, junk)))
  }

  /** `ipt_shared_in_list_attach`: an empty name, one longer than
      `MaxName` or one nobody registered gives NULL; otherwise a handle on
      the registered header. */
  function Attach(a: Allocator, name: string): (r: Option<Handle>)
    ensures r.Some? <==> 0 < |name| <= MaxName && Find(a, name).Some?
    ensures r.Some? ==> r.value == Handle(Find(a, name).value, name)
  {
    if name == [] || |name| > MaxName then None
    else
      var f := Find(a, name);
      if f.None? then None else Some(Handle(f.value, name))
  }

  /** `ipt_shared_in_list_destroy`: unlink every node (the nodes
      themselves are the caller's), deregister the handle's name and free
      the header. Freeing a pointer the allocator does not own is left
      undefined by the code; the model leaves the allocator as it is. */
  function Destroy(a: Allocator, h: Handle, l: List): (r: (Allocator, List))
    requires Valid(a) && WellFormed(l)
    ensures r.1 == Empty
    ensures Valid(r.0)
    ensures Find(r.0, h.name).None?
  {
    var d := Deregister(a, h.name);
    DeregisterValid(a, h.name, h.name);
    if Owned(d.0, h.data) && !Referenced(d.0, h.data) then
      FreeValid(d.0, h.data);
      FreeIgnoresLookup(d.0, h.data, h.name);
      (Free(d.0, h.data), Drain(l))
    else (d.0, Drain(l))
  }

  /** Freeing leaves every name lookup alone. */
  lemma FreeIgnoresLookup(a: Allocator, p: int, name: string)
    requires Owned(a, p)
    ensures Find(Free(a, p), name) == Find(a, name)
  {
  }

  /** A successful create can be attached to under the same name (when the
      name is short enough for attach), and destroying it puts the
      allocator back exactly as it was before the create. */
  lemma CreateThenDestroy(a: Allocator, name: string, l: List)
    requires Valid(a) && WellFormed(l) && Create(a, name).1.Some?
    ensures |name| <= MaxName ==> Attach(Create(a, name).0, name) == Create(a, name).1
    ensures Destroy(Create(a, name).0, Create(a, name).1.value, l) == (a, Empty)
  {
    CreateUndone(a, name);
    HeaderUndone(a, DataSize);
    CreateShape(a, name);
  }

  /** A successful create registers the header it allocated. */
  lemma CreateShape(a: Allocator, name: string)
    requires Valid(a) && Create(a, name).1.Some?
    ensures var al := Malloc(a, DataSize);
            && al.ptr.Some?
            && Register(al.state, Some(name), Some(al.ptr.value)).status == 0
            && Create(a, name) == (Register(al.state, Some(name), Some(al.ptr.value)).state, Some(Handle(al.ptr.value, name)))
  {
  }

  /** A successful create leaves every other name's lookup alone. */
  lemma CreateKeepsNames(a: Allocator, name: string, other: string)
    requires Valid(a) && Create(a, name).1.Some? && other != name
    ensures Find(Create(a, name).0, other) == Find(a, other)
  {
    var al := Malloc(a, DataSize);
    assert al.ptr.Some? by {
      CreateShape(a, name);
    }
    var g := Register(al.state, Some(name), Some(al.ptr.value));
    assert Create(a, name).0 == g.state && g.status == 0 by {
      CreateShape(a, name);
    }
    HeaderKeepsNames(a, al, g, name, other);
  }

  lemma HeaderKeepsNames(a: Allocator, al: Allocation, g: Registration, name: string, other: string)
    requires al == Malloc(a, DataSize) && al.ptr.Some?
    requires g == Register(al.state, Some(name), Some(al.ptr.value)) && g.status == 0
    requires other != name
    ensures Find(g.state, other) == Find(a, other)
  {
    assert Find(al.state, other) == Find(a, other) by {
      assert al.state.registry == a.registry;
    }
    RegisterThenFind(al.state, name, al.ptr.value, other);
  }

  /** A block owned before a successful create, and not held by the
      registry, stays so, and is not the new header. */
  lemma CreateKeepsOwned(a: Allocator, name: string, p: int)
    requires Valid(a) && Create(a, name).1.Some?
    requires Owned(a, p) && !Referenced(a, p)
    ensures Owned(Create(a, name).0, p) && !Referenced(Create(a, name).0, p)
    ensures Create(a, name).1.value.data != p
  {
    var al := Malloc(a, DataSize);
    CreateShape(a, name);
    var st := Register(al.state, Some(name), Some(al.ptr.value)).state;
    assert Owned(st, p) && !Referenced(st, p) && al.ptr.value != p by {
      HeaderKeepsOwned(a, DataSize, p);
      RegisterFresh(al.state, name, al.ptr.value, p);
    }
  }

  /** A fresh header leaves every owned block that the registry does not
      hold owned and unheld, and is not one of them. */
  lemma HeaderKeepsOwned(a: Allocator, n: nat, p: int)
    requires Valid(a) && Malloc(a, n).ptr.Some? && Owned(a, p) && !Referenced(a, p)
    ensures var al := Malloc(a, n);
            && Valid(al.state) && Owned(al.state, p) && !Referenced(al.state, p) && al.ptr.value != p
  {
    MallocValid(a, n);
    MallocKeepsOwned(a, n, p);
    assert Malloc(a, n).state.registry == a.registry;
  }

  /** Deregistering the name of a successful create gives back the state
      right after its header was allocated. */
  lemma CreateUndone(a: Allocator, name: string)
    requires Valid(a) && Create(a, name).1.Some?
    ensures var al := Malloc(a, DataSize);
            && al.ptr.Some?
            && Deregister(Create(a, name).0, name) == (al.state, Some(al.ptr.value))
  {
    var al := Malloc(a, DataSize);
    CreateShape(a, name);
    MallocValid(a, DataSize);
    RegisterThenDeregister(al.state, name, al.ptr.value);
  }

  /** A freshly allocated header is a block the registry does not hold,
      and freeing it restores the state before the allocation. */
  lemma HeaderUndone(a: Allocator, n: nat)
    requires Valid(a) && Malloc(a, n).ptr.Some?
    ensures var al := Malloc(a, n);
            && Owned(al.state, al.ptr.value) && !Referenced(al.state, al.ptr.value)
            && Valid(al.state) && Free(al.state, al.ptr.value) == a
  {
    var al := Malloc(a, n);
    MallocValid(a, n);
    MallocThenFree(a, n);
    UnownedUnreferenced(a, al.ptr.value);
    assert al.state.registry == a.registry;
  }

  /** Once the name is free and the header allocated, the as-written
      create hands out a handle whatever registration reports, while the
      corrected one does so exactly when registration succeeds. */
  lemma CreateAfterHeader(a: Allocator, name: string, junk: string)
    requires Valid(a) && name != [] && Find(a, name).None? && Malloc(a, DataSize).ptr.Some?
    ensures var al := Malloc(a, DataSize);
            var g := Register(al.state, Some(name), Some(al.ptr.value));
            CreateAsWritten(a, name, junk) == (g.state, Some(Handle(al.ptr.value, junk)))
  {
  }

  lemma CreateAfterHeaderCorrected(a: Allocator, name: string)
    requires Valid(a) && name != [] && Find(a, name).None? && Malloc(a, DataSize).ptr.Some?
    ensures var al := Malloc(a, DataSize);
            var g := Register(al.state, Some(name), Some(al.ptr.value));
            g.status == 0 <==> Create(a, name).1.Some?
  {
  }

  /** Destroying a list made by the as-written create deregisters the
      unset name instead of the list's own: when those bytes spell no
      registered name, the list's entry survives, still pointing at the
      header that destroy has just freed. */
  lemma DestroyLeavesStaleEntry(a: Allocator, name: string, junk: string)
    requires Valid(a)
    requires CreateAsWritten(a, name, junk).1.Some?
    requires Find(CreateAsWritten(a, name, junk).0, name).Some?
    requires Find(CreateAsWritten(a, name, junk).0, junk).None?
    ensures var c := CreateAsWritten(a, name, junk);
            var d := Destroy(c.0, c.1.value, Empty);
            && Find(d.0, name) == Some(c.1.value.data)
            && !Owned(d.0, c.1.value.data)
  {
    var al := Malloc(a, DataSize);
    var p := al.ptr.value;
    CreateAfterHeader(a, name, junk);
    HeaderUndone(a, DataSize);
    var g := Register(al.state, Some(name), Some(p));
    assert g.status == 0 by {
      RegisterFailureChangesNothing(al.state, Some(name), Some(p));
    }
    RegisterFresh(al.state, name, p, p);
    RegisterValid(al.state, Some(name), Some(p));
    RegisterThenFind(al.state, name, p, name);
    FreeIgnoresLookup(g.state, p, name);
    FreeDisowns(g.state, p);
  }

  /** When the only free span is 88 bytes, the 64-byte header and its
      block header take all of it, and the entry registration needs next
      cannot be allocated. A fresh 88-byte segment is such a state. */
  lemma HeaderFillsSegment(a: Allocator, name: string)
    requires Valid(a) && |a.free| == 1 && a.free[0].size == H + DataSize
    ensures Malloc(a, DataSize).ptr.Some?
    ensures Malloc(a, DataSize).state.free == []
    ensures Register(Malloc(a, DataSize).state, Some(name), Some(Malloc(a, DataSize).ptr.value)).state
            == Malloc(a, DataSize).state
  {
    assert RoundUp(DataSize) == DataSize;
    MallocFirstFit(a, DataSize, 0);
    assert a.free[..0] + a.free[1..] == [];
    assert Malloc(Malloc(a, DataSize).state, RegObjSize).ptr.None?;
  }

  /** In such a state the as-written create still hands out a list,
      whatever its name, and attach can never find it. */
  lemma UnregisteredListCreated(a: Allocator, name: string, junk: string)
    requires Valid(a) && |a.free| == 1 && a.free[0].size == H + DataSize
    requires name != [] && Find(a, name).None?
    ensures var c := CreateAsWritten(a, name, junk);
            && c.1.Some?
            && Find(c.0, name).None?
            && Attach(c.0, name).None?
  {
    HeaderFillsSegment(a, name);
    CreateAfterHeader(a, name, junk);
    var m := Malloc(a, DataSize).state;
    assert CreateAsWritten(a, name, junk).0 == m;
  }

  /** The corrected create refuses there and leaves the state as it
      was. */
  lemma FailedRegistrationRefused(a: Allocator, name: string)
    requires Valid(a) && |a.free| == 1 && a.free[0].size == H + DataSize
    requires name != [] && Find(a, name).None?
    ensures Create(a, name) == (a, None)
  {
    HeaderFillsSegment(a, name);
    CreateAfterHeaderCorrected(a, name);
  }

  /** A fresh 88-byte segment is such a state. */
  lemma FreshSegmentFits()
    ensures var a := Segment.Create(0, 88);
            Valid(a) && |a.free| == 1 && a.free[0].size == H + DataSize
  {
  }
}
