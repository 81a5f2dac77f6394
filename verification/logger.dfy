/** The logger (`src/logger.c`): category and level masks in a shared
    block, a shared queue of messages allocated from the same segment,
    and the syslog priority of a message. The header that declares the
    mask bits and the message record, `logger.h`, is not part of this
    model: levels are the eight syslog severities, categories are bit
    positions, and the size of a message record is a parameter. Time
    stamps and `printf`-style formatting are not modelled: the formatted
    text is an input. */
module Logger {
  import opened Base
  import opened Segment
  import opened Registry
  import SharedList
  import SharedQueue

  /** The eight levels, most severe first (section 4.1.1 of RFC 3164). */
  datatype Level = Emerg | Alert | Crit | Error | Warning | Notice | Info | Debug

  /** A category is a bit position of `ipt_log_category_mask_t`. */
  type Category = nat

  /** The syslog severity of a level: 0 for the most severe. */
  function Severity(l: Level): (s: nat)
    ensures s < 8
    ensures s == 0 <==> l == Emerg
    ensures s == 7 <==> l == Debug
  {
    match l
    case Emerg => 0
    case Alert => 1
    case Crit => 2
    case Error => 3
    case Warning => 4
    case Notice => 5
    case Info => 6
    case Debug => 7
  }

  /** Distinct levels have distinct severities. */
  lemma SeverityInjective(l: Level, m: Level)
    ensures Severity(l) == Severity(m) ==> l == m
  {
  }

  /** Facility 1, user-level messages. */
  const UserFacility: nat := 1

  /** `syslog_priority`: facility times eight plus the severity of the
      most severe level the message carries; a message that carries none
      gets the severity of debug. */
  function Priority(levels: set<Level>): (r: int)
    ensures UserFacility * 8 <= r <= UserFacility * 8 + 7
    ensures levels == {} ==> r == UserFacility * 8 + 7
    ensures forall l :: l in levels ==> r <= UserFacility * 8 + Severity(l)
    ensures levels != {} ==> exists l :: l in levels && r == UserFacility * 8 + Severity(l)
  {
    if Emerg in levels then 1 * 8 + 0
    else if Alert in levels then 1 * 8 + 1
    else if Crit in levels then 1 * 8 + 2
    else if Error in levels then 1 * 8 + 3
    else if Warning in levels then 1 * 8 + 4
    else if Notice in levels then 1 * 8 + 5
    else if Info in levels then 1 * 8 + 6
    else if Debug in levels then 1 * 8 + 7
    else 1 * 8 + 7
  }

  /** Adding a less severe level does not change the priority; adding a
      more severe one raises it to that level's. */
  lemma PriorityMonotone(levels: set<Level>, l: Level)
    requires levels != {}
    ensures Severity(l) >= Priority(levels) - 8 ==> Priority(levels + {l}) == Priority(levels)
    ensures Severity(l) < Priority(levels) - 8 ==> Priority(levels + {l}) == 8 + Severity(l)
  {
    var p := Priority(levels);
    var k :| k in levels && p == 8 + Severity(k);
    var q := Priority(levels + {l});
    var j :| j in levels + {l} && q == 8 + Severity(j);
    assert q <= 8 + Severity(k) && q <= 8 + Severity(l);
  }

  /** The logger's shared block: the enabled categories and levels. */
  datatype Masks = Masks(categories: set<Category>, levels: set<Level>)

  /** The block as create leaves it, zeroed: nothing enabled. */
  const Silent: Masks := Masks({}, {})

  /** The filter of `enqueue`: some category and some level of the
      message must be enabled. */
  predicate Enabled(m: Masks, categories: set<Category>, levels: set<Level>)
  {
    m.categories * categories != {} && m.levels * levels != {}
  }

  /** `is_category_set` and `is_level_set` return `mask & arg`: the
      enabled bits among those asked about. */
  function IsCategorySet(m: Masks, c: set<Category>): (r: set<Category>)
    ensures r <= c && r <= m.categories
    ensures forall x :: x in c && x in m.categories ==> x in r
  {
    m.categories * c
  }

  function IsLevelSet(m: Masks, l: set<Level>): (r: set<Level>)
    ensures r <= l && r <= m.levels
    ensures forall x :: x in l && x in m.levels ==> x in r
  {
    m.levels * l
  }

  /** `set_category` and `set_level` OR their argument into the mask. */
  function SetCategory(m: Masks, c: set<Category>): (r: Masks)
    ensures r.levels == m.levels
    ensures IsCategorySet(r, c) == c
    ensures forall x :: x in m.categories ==> x in r.categories
    ensures forall x :: x in r.categories ==> x in m.categories || x in c
  {
    m.(categories := m.categories + c)
  }

  function SetLevel(m: Masks, l: set<Level>): (r: Masks)
    ensures r.categories == m.categories
    ensures IsLevelSet(r, l) == l
    ensures forall x :: x in m.levels ==> x in r.levels
    ensures forall x :: x in r.levels ==> x in m.levels || x in l
  {
    m.(levels := m.levels + l)
  }

  /** `unset_category` and `unset_level` as written: the masked value is
      computed and discarded, so the mask does not change. */
  function UnsetCategoryAsWritten(m: Masks, c: set<Category>): (r: Masks)
    ensures IsCategorySet(r, c) == IsCategorySet(m, c)
  {
    m
  }

  function UnsetLevelAsWritten(m: Masks, l: set<Level>): (r: Masks)
    ensures IsLevelSet(r, l) == IsLevelSet(m, l)
  {
    m
  }

  /** What the two functions are evidently meant to do: clear the given
      bits and keep the rest. */
  function UnsetCategory(m: Masks, c: set<Category>): (r: Masks)
    ensures r.levels == m.levels
    ensures IsCategorySet(r, c) == {}
    ensures forall x :: x in m.categories && x !in c ==> x in r.categories
    ensures r.categories <= m.categories
  {
    m.(categories := m.categories - c)
  }

  function UnsetLevel(m: Masks, l: set<Level>): (r: Masks)
    ensures r.categories == m.categories
    ensures IsLevelSet(r, l) == {}
    ensures forall x :: x in m.levels && x !in l ==> x in r.levels
    ensures r.levels <= m.levels
  {
    m.(levels := m.levels - l)
  }

  /** Setting and then unsetting as written leaves the bits enabled, so a
      message with those bits still passes the filter; the corrected
      unset turns the filter off for them again. */
  lemma UnsetHasNoEffect(m: Masks, c: set<Category>, l: set<Level>)
    requires c != {} && l != {}
    ensures var s := SetLevel(SetCategory(m, c), l);
            && Enabled(UnsetLevelAsWritten(UnsetCategoryAsWritten(s, c), l), c, l)
            && !Enabled(UnsetLevel(UnsetCategory(s, c), l), c, l)
  {
    var s := SetLevel(SetCategory(m, c), l);
    var x :| x in c;
    assert x in s.categories * c;
    var y :| y in l;
    assert y in s.levels * l;
    assert UnsetCategory(s, c).categories * c == {};
  }

  /** Unsetting what was just set gives back the masks as they were, when
      those bits were clear before. */
  lemma SetThenUnset(m: Masks, c: set<Category>, l: set<Level>)
    requires m.categories * c == {} && m.levels * l == {}
    ensures UnsetLevel(UnsetCategory(SetLevel(SetCategory(m, c), l), c), l) == m
  {
    forall x | x in m.categories
      ensures x !in c
    {
      assert x !in m.categories * c;
    }
    forall x | x in m.levels
      ensures x !in l
    {
      assert x !in m.levels * l;
    }
    assert (m.categories + c) - c == m.categories;
    assert (m.levels + l) - l == m.levels;
  }

  /** The originator can hold 31 characters. */
  const OriginatorLength: nat := 31
  /** `MAX_MESSAGE_SIZE` less the terminating zero. */
  const MessageLength: nat := 255

  /** A queued message: its node (the block holding it), its masks, the
      originator and the text. */
  datatype Message = Message(node: int, categories: set<Category>, levels: set<Level>, originator: string, text: string)

  /** The originator `enqueue` stores: `"unknown"` for NULL, otherwise the
      first 31 characters of the name, or all of it when it is shorter. */
  function Originator(originator: Option<string>): (r: string)
    ensures |r| <= OriginatorLength
    ensures originator.None? ==> r == "unknown"
    ensures originator.Some? ==> r <= originator.value
    ensures originator.Some? ==> |r| == if |originator.value| < OriginatorLength then |originator.value| else OriginatorLength
    ensures originator.Some? && |originator.value| <= OriginatorLength ==> r == originator.value
  {
    if originator.None? then "unknown" else Truncate(originator.value, OriginatorLength)
  }

  /** What `enqueue` leaves: the allocator, the queue, the message queued
      and the status. */
  datatype Logged = Logged(alloc: Allocator, queue: SharedQueue.Queue, message: Option<Message>, status: int)

  /** Every node in the queue is a block of the allocator. */
  predicate Live(a: Allocator, q: SharedQueue.Queue)
  {
    forall n :: n in q.list.nodes ==> Owned(a, n)
  }

  /** `enqueue`: -1 and nothing done when the message's category or level
      is not enabled or its record cannot be allocated; otherwise the
      record is allocated (`size` is `sizeof(ipt_logger_message_t)`),
      filled in and appended to the queue, and 0 is returned. `text` is
      the formatted message; whether the doorbell write succeeds is an
      input. */
  function Enqueue(a: Allocator, m: Masks, q: SharedQueue.Queue, categories: set<Category>, levels: set<Level>,
                   originator: Option<string>, text: string, size: nat, writeOk: bool): (r: Logged)
    requires Valid(a) && Live(a, q)
    ensures r.status == 0 || r.status == -1
    ensures r.status == 0 <==> Enabled(m, categories, levels) && Malloc(a, size).ptr.Some?
    ensures r.status == -1 ==> r.alloc == a && r.queue == q && r.message.None?
    ensures Valid(r.alloc) && Live(r.alloc, r.queue)
    ensures r.status == 0 ==>
              && r.message.Some?
              && !Owned(a, r.message.value.node)
              && r.queue.list.nodes == q.list.nodes + [r.message.value.node]
              && r.message.value.categories == categories && r.message.value.levels == levels
              && r.message.value.originator == Originator(originator)
              && r.message.value.text == Truncate(text, MessageLength)
  {
    if !Enabled(m, categories, levels) then Logged(a, q, None, -1)
    else
      var al := Malloc(a, size);
      if al.ptr.None? then Logged(a, q, None, -1)
      else
        var p := al.ptr.value;
        MallocValid(a, size);
        KeepsLive(a, size, q);
        var msg := Message(p, categories, levels, Originator(originator), Truncate(text, MessageLength));
        Logged(al.state, SharedQueue.Enqueue(q, p, writeOk), Some(msg), 0)
  }

  /** An allocation keeps every queued node a live block. */
  lemma KeepsLive(a: Allocator, n: nat, q: SharedQueue.Queue)
    requires Live(a, q)
    ensures Live(Malloc(a, n).state, q)
  {
    forall x | x in q.list.nodes
      ensures Owned(Malloc(a, n).state, x)
    {
      MallocKeepsOwned(a, n, x);
    }
  }

  /** A freshly created logger drops every message until something is
      enabled. */
  lemma SilentDropsAll(a: Allocator, q: SharedQueue.Queue, categories: set<Category>, levels: set<Level>,
                       originator: Option<string>, text: string, size: nat, writeOk: bool)
    requires Valid(a) && Live(a, q)
    ensures Enqueue(a, Silent, q, categories, levels, originator, text, size, writeOk) == Logged(a, q, None, -1)
  {
  }

  /** Once a category and a level are set, a message carrying them passes
      the filter, whatever was enabled before. */
  lemma SetEnables(m: Masks, c: Category, l: Level, categories: set<Category>, levels: set<Level>)
    requires c in categories && l in levels
    ensures Enabled(SetLevel(SetCategory(m, {c}), {l}), categories, levels)
  {
    assert c in SetLevel(SetCategory(m, {c}), {l}).categories * categories;
    assert l in SetLevel(SetCategory(m, {c}), {l}).levels * levels;
  }

  // ---------------------------------------------------------------------
  // Create and attach

  /** Logger names need `strlen + 1 <= 256` bytes. */
  const NameLimit: nat := 256

  /** `sizeof(shared_data_t)` on LP64: two enum masks and a 32-byte
      semaphore. */
  const SharedSize: nat := 40

  /** The check create and attach make of the name (NULL is `None`). */
  predicate ValidName(name: Option<string>)
  {
    name.Some? && |name.value| + 1 <= NameLimit
  }

  /** The name of the logger's queue. */
  function QueueName(name: string): string
  {
    Suffixed(name, ".sq")
  }

  /** Distinct loggers get distinct queues, and a logger's queue is not
      registered under the logger's own name. */
  lemma QueueNamesDistinct(x: string, y: string)
    ensures QueueName(x) != x
    ensures QueueName(x) == QueueName(y) ==> x == y
  {
    SuffixedDistinct(x, y, ".sq");
  }

  /** A process's handle on a logger: its shared block, its name and its
      queue. */
  datatype LoggerHandle = LoggerHandle(data: int, name: string, queue: SharedQueue.QueueHandle)

  /** What create leaves: the allocator, the named pipes and the handle. */
  datatype Created = Created(alloc: Allocator, pipes: set<string>, handle: Option<LoggerHandle>)

  /** `ipt_logger_create` with the error handling the code evidently
      means: a NULL or over-long name or a failed allocation gives NULL;
      so does a failed registration (for instance under a name already
      registered), after giving the block back; and when the queue cannot
      be created the name is deregistered before the block is freed.
      Every failure leaves allocator and file system as they were. */
  function Create(a: Allocator, pipes: set<string>, name: Option<string>, openOk: bool): (r: Created)
    requires Valid(a)
    ensures Valid(r.alloc)
    ensures r.handle.None? ==> r.alloc == a && r.pipes == pipes
    ensures !ValidName(name) || Find(a, name.value).Some? ==> r.handle.None?
    ensures r.handle.Some? ==>
              && r.handle.value.name == name.value
              && r.handle.value.queue.name == QueueName(name.value)
              && Find(r.alloc, name.value) == Some(r.handle.value.data)
              && Find(r.alloc, QueueName(name.value)) == Some(r.handle.value.queue.data)
              && r.pipes == pipes + {SharedQueue.DoorbellPath(QueueName(name.value))}
  {
    if !ValidName(name) then Created(a, pipes, None)
    else
      var m := Malloc(a, SharedSize);
      if m.ptr.None? then Created(a, pipes, None)
      else CreateInBlock(a, m, pipes, name.value, openOk)
  }

  /** The rest of `Create` once the shared block `m` is allocated:
      register it under the name, then create the queue. */
  function CreateInBlock(a: Allocator, m: Allocation, pipes: set<string>, n: string, openOk: bool): (r: Created)
    requires Valid(a) && m == Malloc(a, SharedSize) && m.ptr.Some?
    ensures Valid(r.alloc)
    ensures r.handle.None? ==> r.alloc == a && r.pipes == pipes
    ensures Find(a, n).Some? ==> r.handle.None?
    ensures r.handle.Some? ==>
              && r.handle.value.name == n
              && r.handle.value.queue.name == QueueName(n)
              && Find(r.alloc, n) == Some(r.handle.value.data)
              && Find(r.alloc, QueueName(n)) == Some(r.handle.value.queue.data)
              && r.pipes == pipes + {SharedQueue.DoorbellPath(QueueName(n))}
  {
    var p := m.ptr.value;
    var g := Registry.Register(m.state, Some(n), Some(p));
    AllocateAndRegister(a, SharedSize, m, g, n);
    if g.status != 0 then Created(Free(g.state, p), pipes, None)
    else CreateQueue(a, m, g, pipes, n, openOk)
  }

  /** The rest of `Create` once the block is registered as `g`: create the
      queue, or undo the registration and the allocation. */
  function CreateQueue(a: Allocator, m: Allocation, g: Registration, pipes: set<string>, n: string, openOk: bool): (r: Created)
    requires Valid(a) && m == Malloc(a, SharedSize) && m.ptr.Some?
    requires Valid(m.state) && Owned(m.state, m.ptr.value) && Free(m.state, m.ptr.value) == a
    requires g == Registry.Register(m.state, Some(n), Some(m.ptr.value)) && g.status == 0 && Valid(g.state)
    ensures Valid(r.alloc)
    ensures r.handle.None? ==> r.alloc == a && r.pipes == pipes
    ensures r.handle.Some? ==>
              && r.handle.value.name == n
              && r.handle.value.queue.name == QueueName(n)
              && Find(r.alloc, n) == Some(r.handle.value.data)
              && Find(r.alloc, QueueName(n)) == Some(r.handle.value.queue.data)
              && r.pipes == pipes + {SharedQueue.DoorbellPath(QueueName(n))}
  {
    var p := m.ptr.value;
    var c := SharedQueue.Create(g.state, pipes, QueueName(n), openOk);
    if c.handle.None? then
      RegisterThenDeregister(m.state, n, p);
      Created(Free(Deregister(g.state, n).0, p), pipes, None)
    else
      QueueKeepsName(m.state, g, c, n, p, pipes, openOk);
      Created(c.alloc, c.pipes, Some(LoggerHandle(p, n, c.handle.value)))
  }

  /** The logger's own registration survives the creation of its queue. */
  lemma QueueKeepsName(m: Allocator, g: Registration, c: SharedQueue.Created, n: string, p: int,
                       pipes: set<string>, openOk: bool)
    requires g == Registry.Register(m, Some(n), Some(p)) && g.status == 0 && Valid(g.state)
    requires c == SharedQueue.Create(g.state, pipes, QueueName(n), openOk) && c.handle.Some?
    ensures Find(c.alloc, n) == Some(p)
  {
    RegisterThenFind(m, n, p, n);
    QueueNamesDistinct(n, n);
    assert SharedQueue.ListName(QueueName(n)) != n by {
      assert |SharedQueue.ListName(QueueName(n))| == |n| + 6;
    }
    SharedQueue.CreateKeepsNames(g.state, pipes, QueueName(n), openOk, n);
  }

  /** `ipt_logger_create` as written. Registration reports failure with 1
      but the code tests for a negative result, so a failed registration
      goes on to create the queue; when the queue cannot be created, the
      shared block is freed but its registration is kept. The queue is
      made by the corrected queue create, so that only the logger's own
      error handling differs from `Create`. */
  function CreateAsWritten(a: Allocator, pipes: set<string>, name: Option<string>, openOk: bool): (r: Created)
    requires Valid(a)
    ensures r.handle.None? ==> r.pipes == pipes
    ensures r.handle.Some? ==> ValidName(name) && r.handle.value.name == name.value
                               && r.handle.value.queue.name == QueueName(name.value)
  {
    if !ValidName(name) then Created(a, pipes, None)
    else
      var n := name.value;
      var m := Malloc(a, SharedSize);
      if m.ptr.None? then Created(a, pipes, None)
      else
        var p := m.ptr.value;
        MallocValid(a, SharedSize);
        var g := Registry.Register(m.state, Some(n), Some(p));
        RegisterValid(m.state, Some(n), Some(p));
        var c := SharedQueue.Create(g.state, pipes, QueueName(n), openOk);
        if c.handle.None? then
          if Owned(g.state, p) then Created(Free(g.state, p), pipes, None) else Created(g.state, pipes, None)
        else Created(c.alloc, c.pipes, Some(LoggerHandle(p, n, c.handle.value)))
  }

  /** When the logger's queue cannot be created (here because the
      logger's name leaves no room for the queue's suffixes, or the pipe
      does not open), the as-written create returns NULL but leaves the
      name registered to the block it has just freed. The corrected
      create leaves everything as it was. */
  lemma CreateLeavesDanglingName(a: Allocator, pipes: set<string>, name: string, openOk: bool)
    requires Valid(a) && |name| + 1 <= NameLimit && Find(a, name).None?
    requires Malloc(a, SharedSize).ptr.Some?
    requires Registry.Register(Malloc(a, SharedSize).state, Some(name), Some(Malloc(a, SharedSize).ptr.value)).status == 0
    requires !openOk || |name| + 3 > SharedQueue.MaxName
    ensures var c := CreateAsWritten(a, pipes, Some(name), openOk);
            var p := Malloc(a, SharedSize).ptr.value;
            && c.handle.None?
            && Find(c.alloc, name) == Some(p)
            && !Owned(c.alloc, p)
    ensures Create(a, pipes, Some(name), openOk) == Created(a, pipes, None)
  {
    var m := Malloc(a, SharedSize);
    var g := Registry.Register(m.state, Some(name), Some(m.ptr.value));
    AllocateAndRegister(a, SharedSize, m, g, name);
    DanglingAsWritten(a, CreateAsWritten(a, pipes, Some(name), openOk), m, g, pipes, name, openOk);
    QueueFailureRefused(a, m, g, pipes, name, openOk);
  }

  /** The as-written half of `CreateLeavesDanglingName`. */
  lemma DanglingAsWritten(a: Allocator, c: Created, m: Allocation, g: Registration, pipes: set<string>, name: string, openOk: bool)
    requires Valid(a) && c == CreateAsWritten(a, pipes, Some(name), openOk) && |name| + 1 <= NameLimit
    requires m == Malloc(a, SharedSize) && m.ptr.Some? && Valid(m.state)
    requires g == Registry.Register(m.state, Some(name), Some(m.ptr.value)) && g.status == 0 && Valid(g.state)
    requires !openOk || |name| + 3 > SharedQueue.MaxName
    ensures c.handle.None?
    ensures Find(c.alloc, name) == Some(m.ptr.value)
    ensures !Owned(c.alloc, m.ptr.value)
  {
    var p := m.ptr.value;
    assert Owned(g.state, p) && Find(g.state, name) == Some(p) by {
      SharedList.HeaderUndone(a, SharedSize);
      RegisterFresh(m.state, name, p, p);
      RegisterThenFind(m.state, name, p, name);
    }
    assert SharedQueue.Create(g.state, pipes, QueueName(name), openOk).handle.None?;
    assert c == Created(Free(g.state, p), pipes, None);
    SharedList.FreeIgnoresLookup(g.state, p, name);
    FreeDisowns(g.state, p);
  }

  /** The corrected half of `CreateLeavesDanglingName`. */
  lemma QueueFailureRefused(a: Allocator, m: Allocation, g: Registration, pipes: set<string>, name: string, openOk: bool)
    requires Valid(a) && |name| + 1 <= NameLimit
    requires m == Malloc(a, SharedSize) && m.ptr.Some? && Valid(m.state)
    requires Owned(m.state, m.ptr.value) && Free(m.state, m.ptr.value) == a
    requires g == Registry.Register(m.state, Some(name), Some(m.ptr.value)) && g.status == 0 && Valid(g.state)
    requires !openOk || |name| + 3 > SharedQueue.MaxName
    ensures Create(a, pipes, Some(name), openOk) == Created(a, pipes, None)
  {
    assert SharedQueue.Create(g.state, pipes, QueueName(name), openOk).handle.None?;
    assert CreateQueue(a, m, g, pipes, name, openOk).handle.None?;
  }

  /** `ipt_logger_attach`: a NULL or over-long name, a name nobody
      registered or a queue that does not attach gives NULL. The queue's
      attach primes its doorbell; the allocator is never changed. */
  function Attach(a: Allocator, pipes: set<string>, q: SharedQueue.Queue, name: Option<string>,
                  openOk: bool, writeOk: bool): (r: (SharedQueue.Queue, Option<LoggerHandle>))
    ensures r.1.Some? <==>
              && ValidName(name) && Find(a, name.value).Some?
              && SharedQueue.Attach(a, pipes, q, QueueName(name.value), openOk, writeOk).handle.Some?
    ensures r.1.Some? ==> r.1.value.data == Find(a, name.value).value && r.1.value.name == name.value
    ensures r.1.None? ==> r.0 == q
  {
    if !ValidName(name) then (q, None)
    else
      var n := name.value;
      var f := Find(a, n);
      if f.None? then (q, None)
      else
        var t := SharedQueue.Attach(a, pipes, q, QueueName(n), openOk, writeOk);
        if t.handle.None? then (q, None)
        else (t.queue, Some(LoggerHandle(f.value, n, t.handle.value)))
  }

  /** Attach finds what create made when the names are short enough for
      every suffix: the same shared block and the same queue. */
  lemma CreateThenAttach(a: Allocator, pipes: set<string>, name: string, openOk: bool,
                         q: SharedQueue.Queue, writeOk: bool)
    requires Valid(a) && Create(a, pipes, Some(name), openOk).handle.Some?
    requires |name| + 6 <= SharedQueue.MaxName
    ensures var c := Create(a, pipes, Some(name), openOk);
            Attach(c.alloc, c.pipes, q, Some(name), true, writeOk).1 == c.handle
  {
    var c := Create(a, pipes, Some(name), openOk);
    var h := c.handle.value;
    QueueAttaches(a, pipes, name, openOk, c, q, writeOk);
  }

  lemma QueueAttaches(a: Allocator, pipes: set<string>, name: string, openOk: bool, c: Created,
                      q: SharedQueue.Queue, writeOk: bool)
    requires Valid(a) && c == Create(a, pipes, Some(name), openOk) && c.handle.Some?
    requires |name| + 6 <= SharedQueue.MaxName
    ensures SharedQueue.Attach(c.alloc, c.pipes, q, QueueName(name), true, writeOk).handle == Some(c.handle.value.queue)
  {
    var m := Malloc(a, SharedSize);
    var g := Registry.Register(m.state, Some(name), Some(m.ptr.value));
    assert m.ptr.Some? && g.status == 0 && Valid(g.state) by {
      MallocValid(a, SharedSize);
      RegisterValid(m.state, Some(name), Some(m.ptr.value));
      RegisterFailureChangesNothing(m.state, Some(name), Some(m.ptr.value));
    }
    var qc := SharedQueue.Create(g.state, pipes, QueueName(name), openOk);
    assert qc.handle.Some? && c.alloc == qc.alloc && c.pipes == qc.pipes && c.handle.value.queue == qc.handle.value;
    SharedQueue.CreateThenAttach(g.state, pipes, QueueName(name), openOk, q, writeOk);
  }
}
