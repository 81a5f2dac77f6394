/** The shared queue (`src/shared_queue.c`): a shared list of nodes plus a
    doorbell. The doorbell is a named pipe that every attached process
    shares; a byte in it tells readers that the list has something. At
    most one byte is meant to be outstanding: the `active` flag in the
    queue's shared data records that one has been written and not yet
    consumed.

    The pipe is modelled by the number of bytes in it, `pending`. Whether
    a `write` or `read` on it succeeds, and whether the pipe becomes
    readable in time, are inputs. */
module SharedQueue {
  import opened Base
  import opened Segment
  import opened Registry
  import SharedList

  /** The queue's shared data: the node list, the `active_doorbell` flag,
      the `writes`, `reads` and `high_water` counters, and the bytes
      waiting in the pipe. */
  datatype Queue = Queue(
    list: SharedList.List,
    active: bool,
    writeCount: int,
    readCount: int,
    highWater: int,
    pending: nat)

  /** The state `ipt_shared_queue_create` leaves: the shared data zeroed,
      an empty list and an empty pipe. */
  const Initial: Queue := Queue(SharedList.Empty, false, 0, 0, 0, 0)

  /** The counters agree with the pipe: `high_water` is the difference of
      writes and reads, which is the number of bytes in the pipe; an
      active doorbell has its byte in the pipe; the list is well formed. */
  predicate Consistent(q: Queue)
  {
    && SharedList.WellFormed(q.list)
    && q.highWater == q.writeCount - q.readCount
    && q.pending == q.writeCount - q.readCount
    && (q.active ==> q.pending >= 1)
  }

  /** No wakeup can be lost: whenever the list holds something, a doorbell
      is active and its byte is in the pipe. */
  predicate Armed(q: Queue)
  {
    q.list.nodes != [] ==> q.active && q.pending >= 1
  }

  /** The single-signal state: the doorbell is active exactly when the
      list holds something, and then exactly one byte is in the pipe. */
  predicate Single(q: Queue)
  {
    && (q.active <==> q.list.nodes != [])
    && q.pending == (if q.active then 1 else 0)
  }

  /** `update_doorbell`: when no doorbell is active and the list holds
      something, write one byte; only a write that succeeds sets the flag
      and counts. */
  function UpdateDoorbell(q: Queue, writeOk: bool): (r: Queue)
    ensures r.list == q.list && r.readCount == q.readCount
    ensures r != q <==> !q.active && q.list.nodes != [] && writeOk
    ensures r != q ==> r.active && r.writeCount == q.writeCount + 1 && r.highWater == q.highWater + 1
                       && r.pending == q.pending + 1
  {
    if !q.active && q.list.nodes != [] && writeOk then
      q.(active := true, writeCount := q.writeCount + 1, highWater := q.highWater + 1, pending := q.pending + 1)
    else q
  }

  /** `enqueue`: append the node at the tail and ring the doorbell if
      needed. */
  function Enqueue(q: Queue, n: int, writeOk: bool): (r: Queue)
    requires n !in q.list.nodes
    ensures r.list.nodes == q.list.nodes + [n]
    ensures r.readCount == q.readCount
    ensures q.active ==> r.writeCount == q.writeCount && r.pending == q.pending
  {
    UpdateDoorbell(q.(list := SharedList.AddTail(q.list, n)), writeOk)
  }

  /** `dequeue`. The read blocks until a byte is in the pipe, so the
      model asks for one. A failed read returns NULL and changes nothing.
      Otherwise the byte is consumed, the flag cleared and `reads`
      counted; then the head, if there is one, is unlinked and returned,
      and the doorbell rung again for what remains. */
  function Dequeue(q: Queue, readOk: bool, writeOk: bool): (r: (Queue, Option<int>))
    requires q.pending > 0
    ensures !readOk ==> r == (q, None)
    ensures readOk ==> r.0.readCount == q.readCount + 1
    ensures readOk && q.list.nodes != [] ==>
              r.1 == Some(q.list.nodes[0]) && r.0.list.nodes == q.list.nodes[1..]
    ensures readOk && q.list.nodes == [] ==> r.1.None? && r.0.list == q.list
  {
    if !readOk then (q, None)
    else
      var q1 := q.(active := false, readCount := q.readCount + 1, highWater := q.highWater - 1,
                   pending := q.pending - 1);
      var h := SharedList.Head(q1.list);
      if h.None? then (q1, None)
      else
        var q2 := q1.(list := SharedList.Remove(q1.list, h.value));
        (UpdateDoorbell(q2, writeOk), h)
  }

  /** `dequeue_timed`: NULL when the pipe does not become readable in
      time, otherwise a dequeue. */
  function DequeueTimed(q: Queue, ready: bool, readOk: bool, writeOk: bool): (r: (Queue, Option<int>))
    requires ready ==> q.pending > 0
    ensures !ready ==> r == (q, None)
    ensures ready ==> r == Dequeue(q, readOk, writeOk)
  {
    if !ready then (q, None) else Dequeue(q, readOk, writeOk)
  }

  /** What `ipt_shared_queue_attach` does to the shared data: clear the
      flag and run the doorbell check again, so that a reader and a writer
      can start in either order. */
  function Prime(q: Queue, writeOk: bool): (r: Queue)
    ensures r.list == q.list
    ensures r.active ==> writeOk && q.list.nodes != [] && r.pending == q.pending + 1
    ensures !r.active ==> r.pending == q.pending
  {
    UpdateDoorbell(q.(active := false), writeOk)
  }

  /** The initial state is consistent, armed and single. */
  lemma InitialState()
    ensures Consistent(Initial) && Armed(Initial) && Single(Initial)
  {
    assert Initial.list.nodes == [];
  }

  /** Every operation keeps the counters consistent with the pipe,
      whatever the inputs. */
  lemma OperationsConsistent(q: Queue, n: int, readOk: bool, writeOk: bool)
    requires Consistent(q)
    ensures n !in q.list.nodes ==> Consistent(Enqueue(q, n, writeOk))
    ensures q.pending > 0 ==> Consistent(Dequeue(q, readOk, writeOk).0)
    ensures Consistent(Prime(q, writeOk))
  {
    if q.pending > 0 && readOk && q.list.nodes != [] {
      var q1 := q.(active := false, readCount := q.readCount + 1, highWater := q.highWater - 1,
                   pending := q.pending - 1);
      SharedList.RemoveHead(q1.list);
    }
  }

  /** With writes that succeed, no operation loses a wakeup, and a
      reader finding a byte in an armed queue finds a node or an empty
      list consistently. */
  lemma OperationsArmed(q: Queue, n: int, readOk: bool)
    requires Consistent(q) && Armed(q)
    ensures n !in q.list.nodes ==> Armed(Enqueue(q, n, true))
    ensures q.pending > 0 ==> Armed(Dequeue(q, readOk, true).0)
    ensures Armed(Prime(q, true))
  {
  }

  /** With writes that succeed and no attach, the queue stays in the
      single-signal state: one byte in the pipe exactly while the list
      holds something. */
  lemma OperationsSingle(q: Queue, n: int, readOk: bool)
    requires Consistent(q) && Single(q)
    ensures n !in q.list.nodes ==> Single(Enqueue(q, n, true))
    ensures q.pending > 0 ==> Single(Dequeue(q, readOk, true).0)
  {
  }

  /** Attaching while a doorbell is active writes a second byte: the
      single-signal state does not survive an attach. */
  lemma PrimeWritesSecondByte(q: Queue)
    requires Consistent(q) && Single(q) && q.list.nodes != []
    ensures Prime(q, true).pending == 2
    ensures !Single(Prime(q, true))
  {
  }

  /** Enqueue each node of `ns` in turn, with writes that succeed. */
  function EnqueueAll(q: Queue, ns: seq<int>): (r: Queue)
    requires forall i :: 0 <= i < |ns| ==> ns[i] !in q.list.nodes
    requires SharedList.Distinct(ns)
    ensures r.list.nodes == q.list.nodes + ns
    ensures r.readCount == q.readCount
    decreases |ns|
  {
    if ns == [] then q
    else
      var q1 := Enqueue(q, ns[0], true);
      assert forall i :: 0 <= i < |ns[1..]| ==> ns[1..][i] !in q1.list.nodes by {
        forall i | 0 <= i < |ns[1..]| ensures ns[1..][i] !in q1.list.nodes {
          assert ns[1..][i] == ns[i + 1];
        }
      }
      var r := EnqueueAll(q1, ns[1..]);
      assert q.list.nodes + [ns[0]] + ns[1..] == q.list.nodes + ns;
      r
  }

  /** Edge triggering: K enqueues on an idle queue, with no dequeue in
      between, write exactly one doorbell byte. */
  lemma {:induction false} EnqueuesCoalesce(q: Queue, ns: seq<int>)
    requires Consistent(q) && q.list.nodes == [] && !q.active && q.pending == 0
    requires SharedList.Distinct(ns) && ns != []
    ensures EnqueueAll(q, ns).pending == 1
    ensures EnqueueAll(q, ns).writeCount == q.writeCount + 1
    ensures EnqueueAll(q, ns).active
  {
    var q1 := Enqueue(q, ns[0], true);
    ActiveEnqueuesSilent(q1, ns[1..]);
  }

  /** Once a doorbell is active, further enqueues write nothing. */
  lemma {:induction false} ActiveEnqueuesSilent(q: Queue, ns: seq<int>)
    requires q.active
    requires forall i :: 0 <= i < |ns| ==> ns[i] !in q.list.nodes
    requires SharedList.Distinct(ns)
    ensures EnqueueAll(q, ns).pending == q.pending
    ensures EnqueueAll(q, ns).writeCount == q.writeCount
    ensures EnqueueAll(q, ns).active
    decreases |ns|
  {
    if ns != [] {
      var q1 := Enqueue(q, ns[0], true);
      assert forall i :: 0 <= i < |ns[1..]| ==> ns[1..][i] !in q1.list.nodes by {
        forall i | 0 <= i < |ns[1..]| ensures ns[1..][i] !in q1.list.nodes {
          assert ns[1..][i] == ns[i + 1];
        }
      }
      ActiveEnqueuesSilent(q1, ns[1..]);
    }
  }

  /** Dequeue `k` times with reads and writes that succeed, collecting
      what comes out. Each dequeue needs a byte in the pipe, which an
      armed queue with nodes left always has. */
  function DequeueAll(q: Queue, k: nat): (r: (Queue, seq<int>))
    requires Consistent(q) && Armed(q) && k <= |q.list.nodes|
    ensures Consistent(r.0) && Armed(r.0)
    ensures r.1 == q.list.nodes[..k]
    ensures r.0.list.nodes == q.list.nodes[k..]
    decreases k
  {
    if k == 0 then (q, [])
    else
      var d := Dequeue(q, true, true);
      OperationsConsistent(q, 0, true, true);
      OperationsArmed(q, 0, true);
      var rest := DequeueAll(d.0, k - 1);
      TakeFirst(q.list.nodes, k);
      (rest.0, [d.1.value] + rest.1)
  }

  lemma TakeFirst(s: seq<int>, k: nat)
    requires 0 < k <= |s|
    ensures s[..k] == [s[0]] + s[1..][..k - 1]
  {
  }

  /** FIFO: whatever is enqueued on an empty queue, with writes that
      succeed, comes out of the same number of dequeues in the order it
      went in. `InitialState` shows the created queue qualifies. */
  lemma Fifo(q: Queue, ns: seq<int>)
    requires Consistent(q) && Armed(q) && q.list.nodes == []
    requires SharedList.Distinct(ns)
    ensures var e := EnqueueAll(q, ns);
            Consistent(e) && Armed(e) && DequeueAll(e, |ns|).1 == ns
  {
    EnqueueAllKeeps(q, ns);
    var e := EnqueueAll(q, ns);
    AppendEmpty(ns);
    assert e.list.nodes == ns;
  }

  lemma AppendEmpty(s: seq<int>)
    ensures [] + s == s && s[..|s|] == s
  {
  }

  /** Enqueueing with writes that succeed keeps the queue consistent and
      armed. */
  lemma {:induction false} EnqueueAllKeeps(q: Queue, ns: seq<int>)
    requires Consistent(q) && Armed(q)
    requires forall i :: 0 <= i < |ns| ==> ns[i] !in q.list.nodes
    requires SharedList.Distinct(ns)
    ensures Consistent(EnqueueAll(q, ns)) && Armed(EnqueueAll(q, ns))
    decreases |ns|
  {
    if ns != [] {
      var q1 := Enqueue(q, ns[0], true);
      OperationsConsistent(q, ns[0], true, true);
      OperationsArmed(q, ns[0], true);
      assert forall i :: 0 <= i < |ns[1..]| ==> ns[1..][i] !in q1.list.nodes by {
        forall i | 0 <= i < |ns[1..]| ensures ns[1..][i] !in q1.list.nodes {
          assert ns[1..][i] == ns[i + 1];
        }
      }
      EnqueueAllKeeps(q1, ns[1..]);
    }
  }

  // ---------------------------------------------------------------------
  // Create, attach and destroy

  /** Names are refused when empty or longer than this. */
  const MaxName: nat := 128

  /** The queue's shared data block (`malloc(64)` in the code). */
  const DataSize: nat := 64

  /** The length check create and attach make. */
  predicate ValidName(name: string)
  {
    0 < |name| <= MaxName
  }

  /** The name the queue's list is registered under. */
  function ListName(name: string): string
  {
    Suffixed(name, ".sl")
  }

  /** The path of the queue's named pipe. */
  function DoorbellPath(name: string): (r: string)
    ensures |r| == |name| + 8 && r[5..|name| + 5] == name
  {
    "/tmp/" + name + ".db"
  }

  /** A queue's list is never registered under the queue's own name, and
      distinct queues get distinct list names and distinct pipes. */
  lemma NamesDistinct(x: string, y: string)
    ensures ListName(x) != x
    ensures ListName(x) == ListName(y) ==> x == y
    ensures DoorbellPath(x) == DoorbellPath(y) ==> x == y
  {
    SuffixedDistinct(x, y, ".sl");
    if DoorbellPath(x) == DoorbellPath(y) {
      assert x == DoorbellPath(x)[5..|x| + 5];
    }
  }

  /** A process's handle on a queue: the shared data, the name and the
      handle on the queue's list. */
  datatype QueueHandle = QueueHandle(data: int, name: string, list: SharedList.Handle)

  /** What create leaves: the allocator, the set of named pipes that exist
      in the file system, and the handle when create succeeds. */
  datatype Created = Created(alloc: Allocator, pipes: set<string>, handle: Option<QueueHandle>)

  /** `ipt_shared_queue_create` with the error handling the code evidently
      means. `mkfifo` fails when the pipe already exists; whether `open`
      succeeds is an input. The shared data is allocated and registered
      under the name, then the list is created under `ListName(name)`.
      Every failure undoes what was done before it, so a failed create
      leaves allocator and file system exactly as they were. */
  function Create(a: Allocator, pipes: set<string>, name: string, openOk: bool): (r: Created)
    requires Valid(a)
    ensures Valid(r.alloc)
    ensures r.handle.None? ==> r.alloc == a && r.pipes == pipes
    ensures !ValidName(name) || DoorbellPath(name) in pipes || !openOk ==> r.handle.None?
    ensures Find(a, name).Some? || Find(a, ListName(name)).Some? ==> r.handle.None?
    ensures r.handle.Some? ==>
              && r.handle.value.name == name
              && r.handle.value.list.name == ListName(name)
              && Find(r.alloc, name) == Some(r.handle.value.data)
              && Find(r.alloc, ListName(name)) == Some(r.handle.value.list.data)
              && r.pipes == pipes + {DoorbellPath(name)}
  {
    if !ValidName(name) || DoorbellPath(name) in pipes || !openOk then Created(a, pipes, None)
    else
      var m := Malloc(a, DataSize);
      if m.ptr.None? then Created(a, pipes, None)
      else
        var g := Register(m.state, Some(name), Some(m.ptr.value));
        AllocateAndRegister(a, DataSize, m, g, name);
        if g.status != 0 then Created(Free(g.state, m.ptr.value), pipes, None)
        else CreateList(a, m, g, pipes, name)
  }

  /** The rest of `Create` once the shared data is registered as `g`:
      create the list, or undo the registration and the allocation. */
  function CreateList(a: Allocator, m: Allocation, g: Registration, pipes: set<string>, name: string): (r: Created)
    requires Valid(a) && m == Malloc(a, DataSize) && m.ptr.Some?
    requires Valid(m.state) && Owned(m.state, m.ptr.value) && Free(m.state, m.ptr.value) == a
    requires g == Register(m.state, Some(name), Some(m.ptr.value)) && g.status == 0 && Valid(g.state)
    ensures Valid(r.alloc)
    ensures r.handle.None? ==> r.alloc == a && r.pipes == pipes
    ensures Find(a, ListName(name)).Some? ==> r.handle.None?
    ensures r.handle.Some? ==>
              && r.handle.value.name == name
              && r.handle.value.list.name == ListName(name)
              && Find(r.alloc, name) == Some(r.handle.value.data)
              && Find(r.alloc, ListName(name)) == Some(r.handle.value.list.data)
              && r.pipes == pipes + {DoorbellPath(name)}
  {
    var p := m.ptr.value;
    NamesDistinct(name, name);
    RegisterThenFind(m.state, name, p, ListName(name));
    var l := SharedList.Create(g.state, ListName(name));
    if l.1.None? then
      RegisterThenDeregister(m.state, name, p);
      Created(Free(Deregister(g.state, name).0, p), pipes, None)
    else
      RegisterThenFind(m.state, name, p, name);
      SharedList.CreateKeepsNames(g.state, ListName(name), name);
      Created(l.0, pipes + {DoorbellPath(name)}, Some(QueueHandle(p, name, l.1.value)))
  }

  /** `ipt_shared_queue_create` as written. Registration reports failure
      with 1 but the code tests for a negative result, so a failed
      registration goes on to create the list. When the list cannot be
      created the shared data is freed but its registration is kept, and
      the named pipe made at the start is left in the file system. The
      list itself is made by the corrected list create, so that only the
      queue's own error handling differs from `Create`. */
  function CreateAsWritten(a: Allocator, pipes: set<string>, name: string, openOk: bool): (r: Created)
    requires Valid(a)
    ensures r.handle.None? && r.pipes != pipes ==> r.pipes == pipes + {DoorbellPath(name)}
    ensures r.handle.Some? ==> Find(r.alloc, ListName(name)) == Some(r.handle.value.list.data)
  {
    if !ValidName(name) || DoorbellPath(name) in pipes || !openOk then Created(a, pipes, None)
    else
      var m := Malloc(a, DataSize);
      if m.ptr.None? then Created(a, pipes, None)
      else
        var p := m.ptr.value;
        MallocValid(a, DataSize);
        var g := Register(m.state, Some(name), Some(p));
        RegisterValid(m.state, Some(name), Some(p));
        var l := SharedList.Create(g.state, ListName(name));
        if l.1.None? then
          if Owned(g.state, p) then Created(Free(g.state, p), pipes + {DoorbellPath(name)}, None)
          else Created(g.state, pipes + {DoorbellPath(name)}, None)
        else Created(l.0, pipes + {DoorbellPath(name)}, Some(QueueHandle(p, name, l.1.value)))
  }

  /** `ipt_shared_queue_destroy`: destroy the list, deregister the name,
      free the shared data and remove the named pipe. Freeing a pointer
      the allocator does not own is left undefined by the code; the model
      leaves the allocator as it is then. */
  function Destroy(a: Allocator, pipes: set<string>, h: QueueHandle, q: Queue): (r: (Allocator, set<string>))
    requires Valid(a) && SharedList.WellFormed(q.list)
    ensures Valid(r.0)
    ensures Find(r.0, h.name).None? && Find(r.0, h.list.name).None?
    ensures r.1 == pipes - {DoorbellPath(h.name)}
  {
    var l := SharedList.Destroy(a, h.list, q.list);
    var d := Deregister(l.0, h.name);
    DeregisterValid(l.0, h.name, h.list.name);
    if Owned(d.0, h.data) && !Referenced(d.0, h.data) then
      FreeValid(d.0, h.data);
      SharedList.FreeIgnoresLookup(d.0, h.data, h.name);
      SharedList.FreeIgnoresLookup(d.0, h.data, h.list.name);
      (Free(d.0, h.data), pipes - {DoorbellPath(h.name)})
    else (d.0, pipes - {DoorbellPath(h.name)})
  }

  /** What attach leaves: the allocator, the queue's shared state and the
      handle when attach succeeds. */
  datatype Attached = Attached(alloc: Allocator, queue: Queue, handle: Option<QueueHandle>)

  /** `ipt_shared_queue_attach` with the error handling the code evidently
      means: the pipe must exist and open, the name must be registered and
      the list must attach under `ListName(name)`; on success the doorbell
      is primed. A failed attach changes nothing, and no attach touches
      the allocator. */
  function Attach(a: Allocator, pipes: set<string>, q: Queue, name: string, openOk: bool, writeOk: bool): (r: Attached)
    ensures r.alloc == a && r.queue.list == q.list
    ensures r.handle.Some? <==>
              && ValidName(name) && openOk && DoorbellPath(name) in pipes
              && Find(a, name).Some? && SharedList.Attach(a, ListName(name)).Some?
    ensures r.handle.Some? ==> r.handle.value.data == Find(a, name).value && r.handle.value.name == name
    ensures r.handle.None? ==> r.queue == q
    ensures Consistent(q) ==> Consistent(r.queue)
    ensures Armed(q) && writeOk ==> Armed(r.queue)
  {
    if !ValidName(name) || !openOk || DoorbellPath(name) !in pipes then Attached(a, q, None)
    else
      var f := Find(a, name);
      if f.None? then Attached(a, q, None)
      else
        var l := SharedList.Attach(a, ListName(name));
        if l.None? then Attached(a, q, None)
        else
          Attached(a, Prime(q, writeOk), Some(QueueHandle(f.value, name, l.value)))
  }

  /** `ipt_shared_queue_attach` as written: when the list does not attach,
      the code frees the shared data it found, although that block belongs
      to the queue's creator and stays registered. */
  function AttachAsWritten(a: Allocator, pipes: set<string>, q: Queue, name: string, openOk: bool, writeOk: bool): (r: Attached)
    ensures r.handle == Attach(a, pipes, q, name, openOk, writeOk).handle
    ensures r.queue == Attach(a, pipes, q, name, openOk, writeOk).queue
    ensures r.alloc != a ==> Find(a, name).Some? && SharedList.Attach(a, ListName(name)).None?
  {
    if !ValidName(name) || !openOk || DoorbellPath(name) !in pipes then Attached(a, q, None)
    else
      var f := Find(a, name);
      if f.None? then Attached(a, q, None)
      else
        var l := SharedList.Attach(a, ListName(name));
        if l.None? then
          if Owned(a, f.value) then Attached(Free(a, f.value), q, None) else Attached(a, q, None)
        else Attached(a, Prime(q, writeOk), Some(QueueHandle(f.value, name, l.value)))
  }

  /** A successful create allocated the shared data, registered it and
      then created the list. */
  lemma CreateShape(a: Allocator, pipes: set<string>, name: string, openOk: bool)
    requires Valid(a) && Create(a, pipes, name, openOk).handle.Some?
    ensures var m := Malloc(a, DataSize);
            && m.ptr.Some?
            && var g := Register(m.state, Some(name), Some(m.ptr.value));
            && g.status == 0 && Valid(g.state)
            && var l := SharedList.Create(g.state, ListName(name));
            && l.1.Some?
            && ValidName(name) && openOk && DoorbellPath(name) !in pipes
            && Create(a, pipes, name, openOk)
               == Created(l.0, pipes + {DoorbellPath(name)}, Some(QueueHandle(m.ptr.value, name, l.1.value)))
  {
    var m := Malloc(a, DataSize);
    MallocValid(a, DataSize);
    RegisterValid(m.state, Some(name), Some(m.ptr.value));
  }

  /** The shared data of a successful create is a block the allocator
      owns and the registry does not hold. */
  lemma CreateOwnsData(a: Allocator, pipes: set<string>, name: string, openOk: bool)
    requires Valid(a) && Create(a, pipes, name, openOk).handle.Some?
    ensures var c := Create(a, pipes, name, openOk);
            Owned(c.alloc, c.handle.value.data) && !Referenced(c.alloc, c.handle.value.data)
  {
    CreateShape(a, pipes, name, openOk);
    var m := Malloc(a, DataSize);
    var p := m.ptr.value;
    var g := Register(m.state, Some(name), Some(p));
    assert Valid(g.state) && Owned(g.state, p) && !Referenced(g.state, p) by {
      SharedList.HeaderUndone(a, DataSize);
      RegisterFresh(m.state, name, p, p);
      RegisterSuccessValid(m.state, name, p);
    }
    SharedList.CreateKeepsOwned(g.state, ListName(name), p);
  }

  /** A successful create registers two names, the queue's and its
      list's, and leaves every other name as it was. */
  lemma CreateKeepsNames(a: Allocator, pipes: set<string>, name: string, openOk: bool, other: string)
    requires Valid(a) && Create(a, pipes, name, openOk).handle.Some?
    requires other != name && other != ListName(name)
    ensures Find(Create(a, pipes, name, openOk).alloc, other) == Find(a, other)
  {
    var m := Malloc(a, DataSize);
    assert m.ptr.Some? && Valid(Register(m.state, Some(name), Some(m.ptr.value)).state) by {
      CreateShape(a, pipes, name, openOk);
    }
    var g := Register(m.state, Some(name), Some(m.ptr.value));
    var l := SharedList.Create(g.state, ListName(name));
    assert g.status == 0 && l.1.Some? && Create(a, pipes, name, openOk).alloc == l.0 by {
      CreateShape(a, pipes, name, openOk);
    }
    KeepsNamesSteps(a, m, g, l, name, other);
  }

  lemma KeepsNamesSteps(a: Allocator, m: Allocation, g: Registration, l: (Allocator, Option<SharedList.Handle>),
                        name: string, other: string)
    requires Valid(a) && m == Malloc(a, DataSize) && m.ptr.Some?
    requires g == Register(m.state, Some(name), Some(m.ptr.value)) && g.status == 0 && Valid(g.state)
    requires l == SharedList.Create(g.state, ListName(name)) && l.1.Some?
    requires other != name && other != ListName(name)
    ensures Find(l.0, other) == Find(a, other)
  {
    assert Find(m.state, other) == Find(a, other) by {
      assert m.state.registry == a.registry;
    }
    RegisterThenFind(m.state, name, m.ptr.value, other);
    SharedList.CreateKeepsNames(g.state, ListName(name), other);
  }

  /** Destroying what create made, whatever nodes the list holds by then,
      gives back the allocator and the file system exactly as they were
      before the create. */
  lemma CreateThenDestroy(a: Allocator, pipes: set<string>, name: string, openOk: bool, q: Queue)
    requires Valid(a) && SharedList.WellFormed(q.list)
    requires Create(a, pipes, name, openOk).handle.Some?
    ensures var c := Create(a, pipes, name, openOk);
            Destroy(c.alloc, c.pipes, c.handle.value, q) == (a, pipes)
  {
    CreateShape(a, pipes, name, openOk);
    var m := Malloc(a, DataSize);
    var p := m.ptr.value;
    var g := Register(m.state, Some(name), Some(p));
    var l := SharedList.Create(g.state, ListName(name));
    assert Deregister(g.state, name) == (m.state, Some(p)) by {
      MallocValid(a, DataSize);
      RegisterThenDeregister(m.state, name, p);
    }
    assert SharedList.Destroy(l.0, l.1.value, q.list) == (g.state, SharedList.Empty) by {
      SharedList.CreateThenDestroy(g.state, ListName(name), q.list);
    }
    assert Owned(m.state, p) && !Referenced(m.state, p) && Free(m.state, p) == a by {
      SharedList.HeaderUndone(a, DataSize);
    }
    DestroySteps(l.0, pipes + {DoorbellPath(name)}, QueueHandle(p, name, l.1.value), q, g.state, m.state);
    AddThenRemovePath(pipes, DoorbellPath(name));
  }

  lemma AddThenRemovePath(pipes: set<string>, path: string)
    requires path !in pipes
    ensures (pipes + {path}) - {path} == pipes
  {
  }

  /** Destroy is the list's destroy, then the deregistration, then the
      free of the shared data. */
  lemma DestroySteps(a: Allocator, pipes: set<string>, h: QueueHandle, q: Queue, b: Allocator, c: Allocator)
    requires Valid(a) && SharedList.WellFormed(q.list)
    requires SharedList.Destroy(a, h.list, q.list).0 == b
    requires Deregister(b, h.name).0 == c && Owned(c, h.data) && !Referenced(c, h.data)
    ensures Destroy(a, pipes, h, q) == (Free(c, h.data), pipes - {DoorbellPath(h.name)})
  {
  }

  /** After a successful create, attach finds the same shared data and
      the same list exactly when the list's name is short enough for the
      list's attach: a queue whose name has more than `MaxName - 3`
      characters can be created but never attached. */
  lemma CreateThenAttach(a: Allocator, pipes: set<string>, name: string, openOk: bool, q: Queue, writeOk: bool)
    requires Valid(a) && Create(a, pipes, name, openOk).handle.Some?
    ensures var c := Create(a, pipes, name, openOk);
            var t := Attach(c.alloc, c.pipes, q, name, true, writeOk);
            && (|name| + 3 <= MaxName ==> t.handle == c.handle)
            && (|name| + 3 > MaxName ==> t.handle.None?)
  {
    CreateShape(a, pipes, name, openOk);
    var m := Malloc(a, DataSize);
    var g := Register(m.state, Some(name), Some(m.ptr.value));
    assert Valid(g.state) by {
      MallocValid(a, DataSize);
      RegisterSuccessValid(m.state, name, m.ptr.value);
    }
    SharedList.CreateThenDestroy(g.state, ListName(name), SharedList.Empty);
  }

  /** The as-written create, when the list cannot be created (here
      because its name is already taken), returns NULL but leaves the
      queue's name registered to a block it has freed, and leaves the
      named pipe behind, so that no later create under the name can
      succeed. The corrected create leaves everything as it was. */
  lemma CreateLeaksOnListFailure(a: Allocator, pipes: set<string>, name: string)
    requires Valid(a) && ValidName(name) && DoorbellPath(name) !in pipes
    requires Find(a, name).None? && Find(a, ListName(name)).Some?
    requires Malloc(a, DataSize).ptr.Some?
    requires Register(Malloc(a, DataSize).state, Some(name), Some(Malloc(a, DataSize).ptr.value)).status == 0
    ensures var c := CreateAsWritten(a, pipes, name, true);
            && c.handle.None?
            && Find(c.alloc, name) == Some(Malloc(a, DataSize).ptr.value)
            && !Owned(c.alloc, Malloc(a, DataSize).ptr.value)
            && DoorbellPath(name) in c.pipes
            && forall b: Allocator | Valid(b) :: CreateAsWritten(b, c.pipes, name, true).handle.None?
    ensures Create(a, pipes, name, true) == Created(a, pipes, None)
  {
    var m := Malloc(a, DataSize);
    var p := m.ptr.value;
    var g := Register(m.state, Some(name), Some(p));
    assert Valid(g.state) && Owned(g.state, p) && Find(g.state, name) == Some(p) by {
      SharedList.HeaderUndone(a, DataSize);
      RegisterFresh(m.state, name, p, p);
      RegisterSuccessValid(m.state, name, p);
      RegisterThenFind(m.state, name, p, name);
    }
    assert Find(g.state, ListName(name)).Some? by {
      NamesDistinct(name, name);
      RegisterThenFind(m.state, name, p, ListName(name));
    }
    SharedList.FreeIgnoresLookup(g.state, p, name);
    FreeDisowns(g.state, p);
  }

  /** The as-written attach, given a queue whose name is too long for its
      list to attach, frees the creator's shared data: the name still
      finds the block, and the allocator no longer owns it. The corrected
      attach leaves the allocator alone. */
  lemma AttachFreesLiveQueue(a: Allocator, pipes: set<string>, name: string, openOk: bool, q: Queue, writeOk: bool)
    requires Valid(a) && Create(a, pipes, name, openOk).handle.Some?
    requires |name| + 3 > MaxName
    ensures var c := Create(a, pipes, name, openOk);
            var t := AttachAsWritten(c.alloc, c.pipes, q, name, true, writeOk);
            && t.handle.None?
            && Find(t.alloc, name) == Some(c.handle.value.data)
            && !Owned(t.alloc, c.handle.value.data)
    ensures var c := Create(a, pipes, name, openOk);
            Attach(c.alloc, c.pipes, q, name, true, writeOk).alloc == c.alloc
  {
    var c := Create(a, pipes, name, openOk);
    CreateOwnsData(a, pipes, name, openOk);
    SharedList.FreeIgnoresLookup(c.alloc, c.handle.value.data, name);
    FreeDisowns(c.alloc, c.handle.value.data);
  }
}
