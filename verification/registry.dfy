/** The named-object registry the allocator keeps inside the segment
    (`register_object`, `find_registered_object`, `deregister_object` in
    `src/allocator_shm.c`). Registration allocates two blocks from the same
    segment: the `struct reg_obj` entry and a copy of the name. */
module Registry {
  import opened Base
  import opened Spans
  import opened Segment

  /** `sizeof(struct reg_obj)`: a list node (prev, next, size) plus the
      item and name links. */
  const RegObjSize: nat := 40

  /** Index of the first entry, from the head, registered under `name`,
      or `|reg|`. */
  function Lookup(reg: seq<Entry>, name: string): (i: nat)
    ensures i <= |reg|
    ensures i < |reg| ==> reg[i].name == name
    ensures forall j :: 0 <= j < i ==> reg[j].name != name
  {
    if reg == [] then 0
    else if reg[0].name == name then 0
    else 1 + Lookup(reg[1..], name)
  }

  /** `find_registered_object`: the item registered under `name`, if any. */
  function Find(a: Allocator, name: string): (r: Option<int>)
    ensures r.None? <==> forall j :: 0 <= j < |a.registry| ==> a.registry[j].name != name
    ensures r.Some? ==> exists j :: 0 <= j < |a.registry| && a.registry[j] == Entry(name, r.value, a.registry[j].obj, a.registry[j].nameCopy)
  {
    var i := Lookup(a.registry, name);
    if i == |a.registry| then None else Some(a.registry[i].item)
  }

  datatype Registration = Registration(state: Allocator, status: int)

  /** `register_object` (C strings and pointers may be NULL, hence the
      options). It returns 1 and changes nothing for a missing name or
      item or a name already registered, or when either allocation fails;
      on success it returns 0 with the entry appended at the tail. When
      the name copy cannot be allocated, the entry block already taken is
      given back. */
  function Register(a: Allocator, name: Option<string>, item: Option<int>): (r: Registration)
    ensures r.status == 0 || r.status == 1
    ensures name.None? || item.None? ==> r == Registration(a, 1)
    ensures name.Some? && Find(a, name.value).Some? ==> r == Registration(a, 1)
    ensures r.status == 0 ==>
              && name.Some? && item.Some?
              && |r.state.registry| == |a.registry| + 1
              && r.state.registry[..|a.registry|] == a.registry
              && r.state.registry[|a.registry|].name == name.value
              && r.state.registry[|a.registry|].item == item.value
              && r.state.blocksAllocated == a.blocksAllocated + 2
              && r.state.bytesAllocated == a.bytesAllocated + RegObjSize + RoundUp(|name.value| + 1)
  {
    if name.None? || item.None? || Find(a, name.value).Some? then Registration(a, 1)
    else
      var m1 := Malloc(a, RegObjSize);
      if m1.ptr.None? then Registration(a, 1)
      else
        var m2 := Malloc(m1.state, |name.value| + 1);
        if m2.ptr.None? then
          MallocOwns(a, RegObjSize);
          Registration(Free(m1.state, m1.ptr.value), 1)
        else
          var e := Entry(name.value, item.value, m1.ptr.value, m2.ptr.value);
          Registration(m2.state.(registry := m2.state.registry + [e]), 0)
  }

  /** `deregister_object`: unlink the first entry under `name`, free its
      name copy and then the entry itself, and hand back the item; `None`
      and no change for an unknown name. */
  function Deregister(a: Allocator, name: string): (r: (Allocator, Option<int>))
    requires RegistryOk(a)
    ensures r.1.None? <==> Find(a, name).None?
    ensures r.1.None? ==> r.0 == a
    ensures r.1 == Find(a, name)
  {
    var i := Lookup(a.registry, name);
    if i == |a.registry| then (a, None)
    else
      var e := a.registry[i];
      FreeKeepsOwned(a, e.nameCopy, e.obj);
      var a1 := Free(a, e.nameCopy);
      var a2 := Free(a1, e.obj);
      (a2.(registry := a.registry[..i] + a.registry[i + 1..]), Some(e.item))
  }

  /** Freeing does not look at the registry. */
  lemma FreeIgnoresRegistry(a: Allocator, p: int, reg: seq<Entry>)
    requires Owned(a, p)
    ensures Free(a.(registry := reg), p) == Free(a, p).(registry := reg)
  {
  }

  /** A failed registration leaves the allocator exactly as it was, even
      when the entry block had already been taken. */
  lemma RegisterFailureChangesNothing(a: Allocator, name: Option<string>, item: Option<int>)
    requires Heap(a)
    ensures Register(a, name, item).status == 1 ==> Register(a, name, item).state == a
  {
    if name.Some? && item.Some? && Find(a, name.value).None? {
      var m1 := Malloc(a, RegObjSize);
      if m1.ptr.Some? {
        MallocThenFree(a, RegObjSize);
      }
    }
  }

  /** After a successful registration the name finds the item, and every
      other name finds what it found before. */
  lemma RegisterThenFind(a: Allocator, name: string, item: int, other: string)
    requires Register(a, Some(name), Some(item)).status == 0
    ensures Find(Register(a, Some(name), Some(item)).state, name) == Some(item)
    ensures other != name ==> Find(Register(a, Some(name), Some(item)).state, other) == Find(a, other)
  {
    var reg := Register(a, Some(name), Some(item)).state.registry;
    assert reg == a.registry + [reg[|a.registry|]];
    LookupAppend(a.registry, reg[|a.registry|], name);
    LookupAppend(a.registry, reg[|a.registry|], other);
  }

  /** Looking a name up after an entry is appended: earlier entries win,
      and the new entry is found when nothing before it matches. */
  lemma LookupAppend(reg: seq<Entry>, e: Entry, name: string)
    ensures Lookup(reg + [e], name) ==
              if Lookup(reg, name) < |reg| then Lookup(reg, name)
              else if e.name == name then |reg| else |reg| + 1
  {
    var i := Lookup(reg, name);
    var r := reg + [e];
    if i < |reg| {
      assert r[i] == reg[i];
      assert forall j :: 0 <= j < i ==> r[j] == reg[j];
    } else {
      assert forall j :: 0 <= j < |reg| ==> r[j] == reg[j];
      assert r[|reg|] == e;
    }
  }

  /** A pointer the allocator does not own is not one the registry
      holds. */
  lemma UnownedUnreferenced(a: Allocator, p: int)
    requires RegistryOk(a) && !Owned(a, p)
    ensures !Referenced(a, p)
  {
  }

  /** Appending an entry under a new name whose two blocks are owned,
      distinct and held by no other entry keeps the registry invariant. */
  lemma RegistryAppend(a: Allocator, e: Entry)
    requires RegistryOk(a)
    requires Lookup(a.registry, e.name) == |a.registry|
    requires Owned(a, e.obj) && Owned(a, e.nameCopy) && e.obj != e.nameCopy
    requires !Referenced(a, e.obj) && !Referenced(a, e.nameCopy)
    ensures RegistryOk(a.(registry := a.registry + [e]))
  {
    var reg := a.registry + [e];
    assert forall k :: 0 <= k < |reg| ==> reg[k] == if k < |a.registry| then a.registry[k] else e;
  }

  /** Dropping an entry keeps the registry invariant, and nothing else
      holds that entry's blocks afterwards. */
  lemma RegistryRemove(a: Allocator, i: nat)
    requires RegistryOk(a) && i < |a.registry|
    ensures var a0 := a.(registry := a.registry[..i] + a.registry[i + 1..]);
            && RegistryOk(a0)
            && !Referenced(a0, a.registry[i].obj)
            && !Referenced(a0, a.registry[i].nameCopy)
  {
    RemoveKeepsOk(a, i);
    RemoveUnreferences(a, i);
  }

  /** The entry at index `k` of a registry with entry `i` removed. */
  function Skip(k: nat, i: nat): nat
  {
    if k < i then k else k + 1
  }

  lemma RemovedEntries(reg: seq<Entry>, i: nat)
    requires i < |reg|
    ensures var rest := reg[..i] + reg[i + 1..];
            |rest| == |reg| - 1 && forall k :: 0 <= k < |rest| ==> Skip(k, i) < |reg| && rest[k] == reg[Skip(k, i)]
  {
  }

  lemma RemoveKeepsOk(a: Allocator, i: nat)
    requires RegistryOk(a) && i < |a.registry|
    ensures RegistryOk(a.(registry := a.registry[..i] + a.registry[i + 1..]))
  {
    var reg := a.registry;
    var rest := reg[..i] + reg[i + 1..];
    RemovedEntries(reg, i);
    forall k, l | 0 <= k < l < |rest|
      ensures rest[k].name != rest[l].name
      ensures rest[k].obj != rest[l].obj && rest[k].obj != rest[l].nameCopy
      ensures rest[k].nameCopy != rest[l].obj && rest[k].nameCopy != rest[l].nameCopy
    {
      assert Skip(k, i) < Skip(l, i);
    }
  }

  lemma RemoveUnreferences(a: Allocator, i: nat)
    requires RegistryOk(a) && i < |a.registry|
    ensures !Referenced(a.(registry := a.registry[..i] + a.registry[i + 1..]), a.registry[i].obj)
    ensures !Referenced(a.(registry := a.registry[..i] + a.registry[i + 1..]), a.registry[i].nameCopy)
  {
    var reg := a.registry;
    var rest := reg[..i] + reg[i + 1..];
    RemovedEntries(reg, i);
    forall k | 0 <= k < |rest|
      ensures rest[k].obj != reg[i].obj && rest[k].nameCopy != reg[i].obj
      ensures rest[k].obj != reg[i].nameCopy && rest[k].nameCopy != reg[i].nameCopy
    {
      assert Skip(k, i) != i;
    }
  }

  /** Registration keeps both allocator invariants. */
  lemma RegisterValid(a: Allocator, name: Option<string>, item: Option<int>)
    requires Valid(a)
    ensures Valid(Register(a, name, item).state)
  {
    RegisterFailureChangesNothing(a, name, item);
    if Register(a, name, item).status == 0 {
      RegisterSuccessValid(a, name.value, item.value);
    }
  }

  lemma RegisterSuccessValid(a: Allocator, name: string, item: int)
    requires Valid(a) && Register(a, Some(name), Some(item)).status == 0
    ensures Valid(Register(a, Some(name), Some(item)).state)
  {
    var m1 := Malloc(a, RegObjSize);
    var m2 := Malloc(m1.state, |name| + 1);
    var e := Entry(name, item, m1.ptr.value, m2.ptr.value);
    var s := m2.state.(registry := m2.state.registry + [e]);
    assert Register(a, Some(name), Some(item)).state == s;
    MallocTwice(a, RegObjSize, |name| + 1);
    RegistryAppend(m2.state, e);
    HeapIgnoresRegistry(m2.state, s.registry);
  }

  /** A successful registration took two blocks, the entry's and then the
      name copy's, and appended the entry holding them. */
  lemma RegisterShape(a: Allocator, name: string, item: int)
    requires Register(a, Some(name), Some(item)).status == 0
    ensures var m1 := Malloc(a, RegObjSize);
            var m2 := Malloc(m1.state, |name| + 1);
            && m1.ptr.Some? && m2.ptr.Some?
            && Register(a, Some(name), Some(item)).state
               == m2.state.(registry := a.registry + [Entry(name, item, m1.ptr.value, m2.ptr.value)])
  {
  }

  /** A block owned before a successful registration, and not held by the
      registry, stays owned and unheld: registration only adds its own two
      new blocks. */
  lemma RegisterFresh(a: Allocator, name: string, item: int, p: int)
    requires Valid(a) && Owned(a, p) && !Referenced(a, p)
    requires Register(a, Some(name), Some(item)).status == 0
    ensures Owned(Register(a, Some(name), Some(item)).state, p)
    ensures !Referenced(Register(a, Some(name), Some(item)).state, p)
  {
    RegisterShape(a, name, item);
    var m1 := Malloc(a, RegObjSize);
    FreshSteps(a, m1, Malloc(m1.state, |name| + 1), name, item, p);
  }

  /** `RegisterFresh` with the two allocations named. */
  lemma FreshSteps(a: Allocator, m1: Allocation, m2: Allocation, name: string, item: int, p: int)
    requires Heap(a) && Owned(a, p) && !Referenced(a, p)
    requires m1 == Malloc(a, RegObjSize) && m1.ptr.Some?
    requires m2 == Malloc(m1.state, |name| + 1) && m2.ptr.Some?
    ensures Owned(m2.state, p)
    ensures !Referenced(m2.state.(registry := a.registry + [Entry(name, item, m1.ptr.value, m2.ptr.value)]), p)
  {
    FreshStep(a, m1, RegObjSize, p);
    FreshStep(m1.state, m2, |name| + 1, p);
    ReferencedAppend(m2.state, a.registry, Entry(name, item, m1.ptr.value, m2.ptr.value), p);
  }

  /** One successful malloc keeps an owned block owned and hands out a
      different one. */
  lemma FreshStep(a: Allocator, m: Allocation, n: nat, p: int)
    requires Heap(a) && Owned(a, p)
    requires m == Malloc(a, n) && m.ptr.Some?
    ensures Heap(m.state) && Owned(m.state, p) && m.ptr.value != p
  {
    MallocFresh(a, n);
    MallocKeepsOwned(a, n, p);
  }

  /** Appending an entry makes `p` held only if the entry holds it. */
  lemma ReferencedAppend(a: Allocator, reg: seq<Entry>, e: Entry, p: int)
    requires !Referenced(a.(registry := reg), p) && e.obj != p && e.nameCopy != p
    ensures !Referenced(a.(registry := reg + [e]), p)
  {
    var reg' := reg + [e];
    assert forall k :: 0 <= k < |reg'| ==> reg'[k] == if k < |reg| then reg[k] else e;
  }

  /** Two successful mallocs in a row hand out two distinct blocks that
      the registry does not hold. */
  lemma MallocTwice(a: Allocator, n1: nat, n2: nat)
    requires Valid(a)
    requires Malloc(a, n1).ptr.Some? && Malloc(Malloc(a, n1).state, n2).ptr.Some?
    ensures var m1 := Malloc(a, n1);
            var m2 := Malloc(m1.state, n2);
            && Valid(m2.state)
            && m2.state.registry == a.registry
            && Owned(m2.state, m1.ptr.value) && Owned(m2.state, m2.ptr.value)
            && m1.ptr.value != m2.ptr.value
            && !Referenced(m2.state, m1.ptr.value) && !Referenced(m2.state, m2.ptr.value)
  {
    var m1 := Malloc(a, n1);
    var m2 := Malloc(m1.state, n2);
    MallocValid(a, n1);
    MallocValid(m1.state, n2);
    MallocTwiceDistinct(a, m1, m2, n1, n2);
  }

  lemma MallocTwiceDistinct(a: Allocator, m1: Allocation, m2: Allocation, n1: nat, n2: nat)
    requires RegistryOk(a) && RegistryOk(m1.state)
    requires m1 == Malloc(a, n1) && m1.ptr.Some? && !Owned(a, m1.ptr.value) && Owned(m1.state, m1.ptr.value)
    requires m2 == Malloc(m1.state, n2) && m2.ptr.Some? && !Owned(m1.state, m2.ptr.value)
    ensures && Owned(m2.state, m1.ptr.value)
            && m1.ptr.value != m2.ptr.value
            && !Referenced(m2.state, m1.ptr.value) && !Referenced(m2.state, m2.ptr.value)
  {
    MallocKeepsOwned(m1.state, n2, m1.ptr.value);
    UnownedUnreferenced(a, m1.ptr.value);
    UnownedUnreferenced(m1.state, m2.ptr.value);
  }

  lemma HeapIgnoresRegistry(a: Allocator, reg: seq<Entry>)
    requires Heap(a)
    ensures Heap(a.(registry := reg))
  {
  }

  /** The pattern every create follows: allocate a block of `n` bytes and
      register it under `name`. Both steps keep the invariants, the block
      is owned and freeing it restores `a`, and a failed registration
      leaves the allocator as malloc left it. */
  lemma AllocateAndRegister(a: Allocator, n: nat, m: Allocation, g: Registration, name: string)
    requires Valid(a) && m == Malloc(a, n) && m.ptr.Some?
    requires g == Register(m.state, Some(name), Some(m.ptr.value))
    ensures Valid(m.state) && Owned(m.state, m.ptr.value) && Free(m.state, m.ptr.value) == a
    ensures Valid(g.state)
    ensures g.status != 0 ==> g.state == m.state
    ensures Find(a, name).Some? ==> g.status != 0
  {
    MallocValid(a, n);
    MallocThenFree(a, n);
    RegisterFailureChangesNothing(m.state, Some(name), Some(m.ptr.value));
    RegisterValid(m.state, Some(name), Some(m.ptr.value));
  }

  /** Registering and then deregistering the same name gives the item back
      and restores the allocator exactly: same registry, same free list,
      same counters. */
  lemma RegisterThenDeregister(a: Allocator, name: string, item: int)
    requires Valid(a)
    requires Register(a, Some(name), Some(item)).status == 0
    ensures RegistryOk(Register(a, Some(name), Some(item)).state)
    ensures Deregister(Register(a, Some(name), Some(item)).state, name) == (a, Some(item))
  {
    RegisterValid(a, Some(name), Some(item));
    var m1 := Malloc(a, RegObjSize);
    MallocValid(a, RegObjSize);
    UndoRegistration(a, m1, Malloc(m1.state, |name| + 1), name, item);
  }

  /** The two steps of `RegisterThenDeregister`, with the intermediate
      allocator states named. */
  lemma UndoRegistration(a: Allocator, m1: Allocation, m2: Allocation, name: string, item: int)
    requires Heap(a) && Heap(m1.state)
    requires m1 == Malloc(a, RegObjSize) && m1.ptr.Some?
    requires m2 == Malloc(m1.state, |name| + 1) && m2.ptr.Some?
    requires m2.state.registry == a.registry
    requires Lookup(a.registry, name) == |a.registry|
    requires RegistryOk(m2.state.(registry := a.registry + [Entry(name, item, m1.ptr.value, m2.ptr.value)]))
    ensures Deregister(m2.state.(registry := a.registry + [Entry(name, item, m1.ptr.value, m2.ptr.value)]), name) == (a, Some(item))
  {
    var e := Entry(name, item, m1.ptr.value, m2.ptr.value);
    MallocThenFree(m1.state, |name| + 1);
    MallocThenFree(a, RegObjSize);
    LookupAppend(a.registry, e, name);
    DeregisterLast(m2.state, a.registry, e);
  }

  /** Deregistering the name of the last entry, when no earlier entry has
      it, frees its two blocks and drops the entry. */
  lemma DeregisterLast(b: Allocator, reg: seq<Entry>, e: Entry)
    requires RegistryOk(b.(registry := reg + [e]))
    requires Lookup(reg + [e], e.name) == |reg|
    requires Owned(b, e.nameCopy) && Owned(Free(b, e.nameCopy), e.obj)
    ensures Deregister(b.(registry := reg + [e]), e.name) == (Free(Free(b, e.nameCopy), e.obj).(registry := reg), Some(e.item))
  {
    var reg' := reg + [e];
    assert reg'[..|reg|] + reg'[|reg| + 1..] == reg;
    FreeIgnoresRegistry(b, e.nameCopy, reg');
    FreeIgnoresRegistry(Free(b, e.nameCopy), e.obj, reg');
  }

  /** Deregistering keeps both invariants, leaves the name unregistered and
      every other name's lookup unchanged; a known name costs the two
      blocks registration took. */
  lemma DeregisterValid(a: Allocator, name: string, other: string)
    requires Valid(a)
    ensures Valid(Deregister(a, name).0)
    ensures Find(Deregister(a, name).0, name).None?
    ensures other != name ==> Find(Deregister(a, name).0, other) == Find(a, other)
    ensures Find(a, name).Some? ==> Deregister(a, name).0.blocksAllocated == a.blocksAllocated - 2
  {
    var i := Lookup(a.registry, name);
    if i < |a.registry| {
      DeregisterAt(a, name, i);
      RemoveThenFreeValid(a, i);
      LookupRemove(a.registry, i, name);
      LookupRemove(a.registry, i, other);
    }
  }

  /** Deregistering the entry at `i`: the entry leaves the registry, then
      its name copy and its block are freed. */
  lemma DeregisterAt(a: Allocator, name: string, i: nat)
    requires RegistryOk(a) && i == Lookup(a.registry, name) && i < |a.registry|
    ensures var e := a.registry[i];
            var a0 := a.(registry := a.registry[..i] + a.registry[i + 1..]);
            && Owned(a0, e.nameCopy) && Owned(Free(a0, e.nameCopy), e.obj)
            && Deregister(a, name).0 == Free(Free(a0, e.nameCopy), e.obj)
  {
    var e := a.registry[i];
    var rest := a.registry[..i] + a.registry[i + 1..];
    FreeKeepsOwned(a, e.nameCopy, e.obj);
    FreeIgnoresRegistry(a, e.nameCopy, rest);
    FreeIgnoresRegistry(Free(a, e.nameCopy), e.obj, rest);
  }

  /** Removing the entry at `i` and freeing its two blocks keeps both
      invariants. */
  lemma RemoveThenFreeValid(a: Allocator, i: nat)
    requires Valid(a) && i < |a.registry|
    ensures var e := a.registry[i];
            var a0 := a.(registry := a.registry[..i] + a.registry[i + 1..]);
            && Owned(a0, e.nameCopy) && Owned(Free(a0, e.nameCopy), e.obj)
            && Valid(Free(Free(a0, e.nameCopy), e.obj))
  {
    var e := a.registry[i];
    var a0 := a.(registry := a.registry[..i] + a.registry[i + 1..]);
    RegistryRemove(a, i);
    FreeValid(a0, e.nameCopy);
    FreeKeepsOwned(a0, e.nameCopy, e.obj);
    FreeValid(Free(a0, e.nameCopy), e.obj);
  }

  /** Looking a name up after the entry at `i`, the first one under its
      name, is removed. */
  lemma LookupRemove(reg: seq<Entry>, i: nat, name: string)
    requires i < |reg| && Lookup(reg, reg[i].name) == i
    requires forall j, k :: 0 <= j < k < |reg| ==> reg[j].name != reg[k].name
    ensures var rest := reg[..i] + reg[i + 1..];
            && (name == reg[i].name ==> Lookup(rest, name) == |rest|)
            && (name != reg[i].name ==>
                  (Lookup(rest, name) < |rest| <==> Lookup(reg, name) < |reg|)
                  && (Lookup(reg, name) < |reg| ==> rest[Lookup(rest, name)] == reg[Lookup(reg, name)]))
  {
    var rest := reg[..i] + reg[i + 1..];
    assert forall k :: 0 <= k < |rest| ==> rest[k] == reg[if k < i then k else k + 1];
    var j := Lookup(reg, name);
    if name != reg[i].name && j < |reg| {
      var j' := if j < i then j else j - 1;
      assert rest[j'] == reg[j];
      assert Lookup(rest, name) == j';
    }
  }

  /** `register_object` as written: when the name copy cannot be allocated
      it returns 1 but keeps the entry block it has already taken. It
      agrees with `Register` on the status, and on the state whenever it
      succeeds or fails before allocating. */
  function RegisterAsWritten(a: Allocator, name: Option<string>, item: Option<int>): (r: Registration)
    ensures r.status == Register(a, name, item).status
    ensures r.status == 0 ==> r == Register(a, name, item)
    ensures name.None? || item.None? || Find(a, name.value).Some? ==> r == Register(a, name, item)
  {
    if name.None? || item.None? || Find(a, name.value).Some? then Registration(a, 1)
    else
      var m1 := Malloc(a, RegObjSize);
      if m1.ptr.None? then Registration(a, 1)
      else
        var m2 := Malloc(m1.state, |name.value| + 1);
        if m2.ptr.None? then Registration(m1.state, 1)
        else
          var e := Entry(name.value, item.value, m1.ptr.value, m2.ptr.value);
          Registration(m2.state.(registry := m2.state.registry + [e]), 0)
  }

  /** When the entry block is granted but the name copy is not, the
      registration as written fails yet leaves one more block allocated,
      owned and held by no entry, so nothing can ever free it; the
      corrected registration leaves the allocator as it was. */
  lemma RegisterLeaks(a: Allocator, name: string, item: int, m1: Allocation, w: Registration)
    requires Valid(a) && Find(a, name).None?
    requires m1 == Malloc(a, RegObjSize) && m1.ptr.Some?
    requires Malloc(m1.state, |name| + 1).ptr.None?
    requires w == RegisterAsWritten(a, Some(name), Some(item))
    ensures w.status == 1 && w.state.blocksAllocated == a.blocksAllocated + 1
    ensures Owned(w.state, m1.ptr.value) && !Owned(a, m1.ptr.value)
    ensures !Referenced(w.state, m1.ptr.value)
    ensures Register(a, Some(name), Some(item)) == Registration(a, 1)
  {
    LeakedBlock(a, m1);
    assert w.state == m1.state;
  }

  /** The entry block of a registration whose name copy fails: new, owned,
      held by no entry, and freeing it would restore the allocator. */
  lemma LeakedBlock(a: Allocator, m1: Allocation)
    requires Valid(a)
    requires m1 == Malloc(a, RegObjSize) && m1.ptr.Some?
    ensures Owned(m1.state, m1.ptr.value) && !Owned(a, m1.ptr.value)
    ensures !Referenced(m1.state, m1.ptr.value)
    ensures Free(m1.state, m1.ptr.value) == a
  {
    MallocFresh(a, RegObjSize);
    UnownedUnreferenced(a, m1.ptr.value);
    MallocThenFree(a, RegObjSize);
  }

  /** A concrete leaking registration: in a 64-byte segment the 40-byte
      entry block takes the whole span, and the copy of a one-character
      name finds no room. */
  lemma RegisterLeaksExample()
    ensures var a := Create(0, H + RegObjSize);
            && RegisterAsWritten(a, Some("x"), Some(7)).status == 1
            && RegisterAsWritten(a, Some("x"), Some(7)).state.blocksAllocated == 1
            && Register(a, Some("x"), Some(7)).state == a
  {
    var a := Create(0, H + RegObjSize);
    assert a.free == [Span(HeaderSize, H + RegObjSize)];
    assert FirstFit(a.free, H + RoundUp(RegObjSize)) == 0;
    var m1 := Malloc(a, RegObjSize);
    assert m1.state.free == [];
  }
}
