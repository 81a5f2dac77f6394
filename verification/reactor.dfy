/** The reactor's bookkeeping (`src/reactor.c`): a table of 16 event
    handler slots and a table of 16 timer slots, both searched from the
    lowest index. Handlers are identified by their address (an `int`), the
    descriptor a handler reports is a function parameter, the clock's
    reading is an input, and the callbacks themselves are not run: where
    the code would call `handle_close`, the model reports that it would. */
module Reactor {
  import opened Base
  import opened Time

  /** `MAX_NUMBER_EHS` and `MAX_NUMBER_TMS`. */
  const Slots: nat := 16

  /** The kinds of event in `ipt_event_handler_mask_t`, one bit each. */
  datatype Event = Read | Write | Except | Signal | Timer | DontCall

  /** A mask: the set of its bits. OR-ing masks is set union and testing
      a bit is membership. */
  type Mask = set<Event>

  /** `event_node_t`. */
  datatype EventNode = EventNode(handler: int, mask: Mask, signum: int, inUse: bool)

  /** A cleared event slot (`memset` to zero). */
  const FreeEvent: EventNode := EventNode(0, {}, 0, false)

  /** `timer_node_t`. */
  datatype TimerNode = TimerNode(handler: int, inUse: bool, expire: Timespec, interval: Timespec, act: int)

  const Zero: Timespec := Timespec(0, 0)

  /** A cleared timer slot. */
  const FreeTimer: TimerNode := TimerNode(0, false, Zero, Zero, 0)

  /** The two tables of a reactor. */
  datatype Tables = Tables(ehs: seq<EventNode>, tms: seq<TimerNode>)

  /** No handler occupies two in-use slots. */
  predicate HandlersUnique(ehs: seq<EventNode>)
  {
    forall i, j :: 0 <= i < j < |ehs| && ehs[i].inUse && ehs[j].inUse ==> ehs[i].handler != ehs[j].handler
  }

  // ---------------------------------------------------------------------
  // Event handler slots

  /** `find_event_node_by_handler`: the first in-use slot of `h`. */
  function FindByHandler(ehs: seq<EventNode>, h: int): (r: Option<nat>)
    ensures r.None? <==> forall i :: 0 <= i < |ehs| ==> !(ehs[i].inUse && ehs[i].handler == h)
    ensures r.Some? ==> r.value < |ehs| && ehs[r.value].inUse && ehs[r.value].handler == h
  {
    FirstIndex(ehs, (n: EventNode) => n.inUse && n.handler == h)
  }

  /** `find_event_node_by_signum`: the first in-use slot holding `signum`. */
  function FindBySignum(ehs: seq<EventNode>, signum: int): (r: Option<nat>)
    ensures r.None? <==> forall i :: 0 <= i < |ehs| ==> !(ehs[i].inUse && ehs[i].signum == signum)
    ensures r.Some? ==> r.value < |ehs| && ehs[r.value].inUse && ehs[r.value].signum == signum
  {
    FirstIndex(ehs, (n: EventNode) => n.inUse && n.signum == signum)
  }

  /** `get_next_available_handler`: the lowest slot not in use. */
  function NextAvailable(ehs: seq<EventNode>): (r: Option<nat>)
    ensures r.None? <==> forall i :: 0 <= i < |ehs| ==> ehs[i].inUse
    ensures r.Some? ==> r.value < |ehs| && !ehs[r.value].inUse
    ensures r.Some? ==> forall i :: 0 <= i < r.value ==> ehs[i].inUse
  {
    FirstIndex(ehs, (n: EventNode) => !n.inUse)
  }

  /** Only slot `i` differs between the two tables. */
  predicate OnlySlotChanged<T(==)>(s: seq<T>, s': seq<T>, i: nat)
  {
    |s'| == |s| && forall k :: 0 <= k < |s| && k != i ==> s'[k] == s[k]
  }

  /** The slot a registration of `h` uses: the one it is in use in, or
      else the lowest free one. */
  function TargetSlot(ehs: seq<EventNode>, h: int): (r: Option<nat>)
    ensures r.Some? ==> r.value < |ehs|
  {
    var f := FindByHandler(ehs, h);
    if f.Some? then f else NextAvailable(ehs)
  }

  /** `register_handler`: a handler already in use gains the new mask
      bits; otherwise it takes the lowest free slot with exactly the given
      mask. -1 when the table is full. */
  function RegisterHandler(t: Tables, h: int, mask: Mask): (r: (Tables, int))
    ensures r.1 == 0 || r.1 == -1
    ensures r.1 == -1 <==> FindByHandler(t.ehs, h).None? && NextAvailable(t.ehs).None?
    ensures r.1 == -1 ==> r.0 == t
    ensures r.0.tms == t.tms
    ensures HandlersUnique(t.ehs) ==> HandlersUnique(r.0.ehs)
  {
    var f := FindByHandler(t.ehs, h);
    if f.Some? then
      var i := f.value;
      var ehs := t.ehs[i := t.ehs[i].(mask := t.ehs[i].mask + mask)];
      SlotUpdateUnique(t.ehs, i, ehs[i]);
      (t.(ehs := ehs), 0)
    else
      var n := NextAvailable(t.ehs);
      if n.None? then (t, -1)
      else
        var j := n.value;
        var ehs := t.ehs[j := t.ehs[j].(handler := h, inUse := true, mask := mask)];
        SlotUpdateUnique(t.ehs, j, ehs[j]);
        (t.(ehs := ehs), 0)
  }

  /** A successful registration changes only the slot it targets, which
      then holds the handler, in use, with at least the requested bits. */
  lemma RegisterHandlerSlot(t: Tables, h: int, mask: Mask)
    requires RegisterHandler(t, h, mask).1 == 0
    ensures var i := TargetSlot(t.ehs, h).value;
            var ehs := RegisterHandler(t, h, mask).0.ehs;
            && OnlySlotChanged(t.ehs, ehs, i)
            && ehs[i].inUse && ehs[i].handler == h
            && mask <= ehs[i].mask
  {
    var i := TargetSlot(t.ehs, h).value;
    var ehs := RegisterHandler(t, h, mask).0.ehs;
    if FindByHandler(t.ehs, h).Some? {
      var n := t.ehs[i].(mask := t.ehs[i].mask + mask);
      assert ehs == t.ehs[i := n];
      WriteOneSlot(t.ehs, i, n);
    } else {
      var n := t.ehs[i].(handler := h, inUse := true, mask := mask);
      assert ehs == t.ehs[i := n];
      WriteOneSlot(t.ehs, i, n);
    }
  }

  lemma WriteOneSlot<T>(s: seq<T>, i: nat, n: T)
    requires i < |s|
    ensures OnlySlotChanged(s, s[i := n], i) && s[i := n][i] == n
  {
  }


  /** Writing slot `i` keeps handlers unique when the new contents are not
      in use or name a handler no other in-use slot has. */
  lemma SlotUpdateUnique(ehs: seq<EventNode>, i: nat, n: EventNode)
    requires i < |ehs|
    ensures HandlersUnique(ehs)
            && (n.inUse ==> forall k :: 0 <= k < |ehs| && k != i && ehs[k].inUse ==> ehs[k].handler != n.handler)
            ==> HandlersUnique(ehs[i := n])
  {
  }

  /** With handlers unique, the slot a handler is in use in is the one
      found for it. */
  lemma FoundSlot(ehs: seq<EventNode>, h: int, i: nat)
    requires HandlersUnique(ehs) && i < |ehs| && ehs[i].inUse && ehs[i].handler == h
    ensures FindByHandler(ehs, h) == Some(i)
  {
  }

  /** Registering a handler that is already in use takes no new slot: its
      slot keeps everything but gains the new mask bits. */
  lemma ReRegisterMergesMask(t: Tables, h: int, mask: Mask, i: nat)
    requires HandlersUnique(t.ehs) && i < |t.ehs| && t.ehs[i].inUse && t.ehs[i].handler == h
    ensures RegisterHandler(t, h, mask).1 == 0
    ensures RegisterHandler(t, h, mask).0.ehs == t.ehs[i := t.ehs[i].(mask := t.ehs[i].mask + mask)]
  {
    FoundSlot(t.ehs, h, i);
  }

  /** A new handler takes the lowest free slot, and every slot below it is
      in use. */
  lemma NewHandlerTakesLowestSlot(t: Tables, h: int, mask: Mask, j: nat)
    requires FindByHandler(t.ehs, h).None?
    requires j < |t.ehs| && !t.ehs[j].inUse && forall k :: 0 <= k < j ==> t.ehs[k].inUse
    ensures RegisterHandler(t, h, mask).1 == 0
    ensures RegisterHandler(t, h, mask).0.ehs == t.ehs[j := t.ehs[j].(handler := h, inUse := true, mask := mask)]
  {
    assert NextAvailable(t.ehs) == Some(j);
  }

  /** `register_sig_handler`. A handler already in use gains the signal
      bit and the new signal number (whatever other slot holds that
      signal). A new handler is refused when an in-use slot holds the
      signal or the table is full; otherwise it takes the lowest free slot
      and the result is that of installing the signal action, an input
      here: the slot stays taken even when that fails. */
  function RegisterSigHandler(t: Tables, h: int, signum: int, actionResult: int): (r: (Tables, int))
    ensures r.0.tms == t.tms
    ensures FindByHandler(t.ehs, h).None? && FindBySignum(t.ehs, signum).Some? ==> r == (t, -1)
    ensures FindByHandler(t.ehs, h).None? && NextAvailable(t.ehs).None? ==> r == (t, -1)
    ensures r.0 != t ==> exists i :: && 0 <= i < |t.ehs| && OnlySlotChanged(t.ehs, r.0.ehs, i)
                                     && r.0.ehs[i].inUse && r.0.ehs[i].handler == h
                                     && r.0.ehs[i].signum == signum && Signal in r.0.ehs[i].mask
    ensures HandlersUnique(t.ehs) ==> HandlersUnique(r.0.ehs)
  {
    var f := FindByHandler(t.ehs, h);
    if f.Some? then
      var i := f.value;
      (t.(ehs := t.ehs[i := t.ehs[i].(mask := t.ehs[i].mask + {Signal}, signum := signum)]), 0)
    else if FindBySignum(t.ehs, signum).Some? then (t, -1)
    else
      var n := NextAvailable(t.ehs);
      if n.None? then (t, -1)
      else
        var j := n.value;
        (t.(ehs := t.ehs[j := EventNode(h, {Signal}, signum, true)]), actionResult)
  }

  /** An existing handler re-registered for a signal returns 0 and just
      gains the signal bit and number, even when another in-use slot
      already holds that signal. */
  lemma ExistingHandlerGainsSignal(t: Tables, h: int, signum: int, actionResult: int, i: nat)
    requires HandlersUnique(t.ehs) && i < |t.ehs| && t.ehs[i].inUse && t.ehs[i].handler == h
    ensures RegisterSigHandler(t, h, signum, actionResult)
            == (t.(ehs := t.ehs[i := t.ehs[i].(mask := t.ehs[i].mask + {Signal}, signum := signum)]), 0)
  {
    FoundSlot(t.ehs, h, i);
  }

  /** `remove_handler`: clear the first in-use slot of `h` and report 0,
      or -1 when there is none. The second result says whether
      `handle_close` is called, which the `DontCall` bit prevents. */
  function RemoveHandler(t: Tables, h: int, mask: Mask): (r: (Tables, int, bool))
    ensures r.0.tms == t.tms
    ensures r.1 == -1 <==> FindByHandler(t.ehs, h).None?
    ensures r.1 == -1 ==> r.0 == t && !r.2
    ensures r.1 == 0 ==> r.2 == (DontCall !in mask)
    ensures r.1 == 0 ==> exists i :: 0 <= i < |t.ehs| && OnlySlotChanged(t.ehs, r.0.ehs, i)
                                     && t.ehs[i].inUse && t.ehs[i].handler == h && r.0.ehs[i] == FreeEvent
    ensures HandlersUnique(t.ehs) ==> HandlersUnique(r.0.ehs) && FindByHandler(r.0.ehs, h).None?
  {
    var f := FindByHandler(t.ehs, h);
    if f.None? then (t, -1, false)
    else (t.(ehs := t.ehs[f.value := FreeEvent]), 0, DontCall !in mask)
  }

  /** Registering a handler and removing it again gives back the table,
      when the handler was new and took a slot that was already clear. */
  lemma RegisterThenRemove(t: Tables, h: int, mask: Mask, how: Mask)
    requires HandlersUnique(t.ehs) && FindByHandler(t.ehs, h).None?
    requires NextAvailable(t.ehs).Some? && t.ehs[NextAvailable(t.ehs).value] == FreeEvent
    ensures RemoveHandler(RegisterHandler(t, h, mask).0, h, how).0 == t
  {
    var j := NextAvailable(t.ehs).value;
    var r := RegisterHandler(t, h, mask).0;
    RegisterHandlerSlot(t, h, mask);
    FoundSlot(r.ehs, h, j);
    assert r.ehs[j := FreeEvent] == t.ehs;
  }

  /** A slot with read or write interest: `find_max_handle` and the
      descriptor sets look only at these. */
  predicate Watched(n: EventNode)
  {
    n.inUse && (Read in n.mask || Write in n.mask)
  }

  /** `find_max_handle`: the largest descriptor among the watched slots,
      or 0 when there is none larger. */
  method FindMaxHandle(ehs: seq<EventNode>, handleOf: int -> int) returns (m: int)
    ensures m >= 0
    ensures forall i :: 0 <= i < |ehs| && Watched(ehs[i]) ==> handleOf(ehs[i].handler) <= m
    ensures m == 0 || exists i :: 0 <= i < |ehs| && Watched(ehs[i]) && handleOf(ehs[i].handler) == m
  {
    m := 0;
    var i := 0;
    while i < |ehs|
      invariant 0 <= i <= |ehs| && m >= 0
      invariant forall k :: 0 <= k < i && Watched(ehs[k]) ==> handleOf(ehs[k].handler) <= m
      invariant m == 0 || exists k :: 0 <= k < i && Watched(ehs[k]) && handleOf(ehs[k].handler) == m
    {
      if Watched(ehs[i]) && handleOf(ehs[i].handler) > m {
        m := handleOf(ehs[i].handler);
      }
      i := i + 1;
    }
  }

  // ---------------------------------------------------------------------
  // Timer slots

  /** The expiry `schedule_timer` computes: the clock reading plus the
      delay, carrying whole seconds out of the nanoseconds with C's
      division. */
  function Expiry(now: Timespec, delay: Timespec): (r: Timespec)
    ensures Nanos(r) == Nanos(now) + Nanos(delay)
    ensures now.nsec + delay.nsec >= 0 ==> Normal(r)
  {
    var s := delay.nsec + now.nsec;
    var q := CQuot(s, NanosPerSec);
    assert (now.sec + delay.sec + q) * NanosPerSec == now.sec * NanosPerSec + delay.sec * NanosPerSec + q * NanosPerSec;
    Timespec(now.sec + delay.sec + q, CRem(s, NanosPerSec))
  }

  /** The lowest timer slot not in use. */
  function NextTimer(tms: seq<TimerNode>): (r: Option<nat>)
    ensures r.None? <==> forall i :: 0 <= i < |tms| ==> tms[i].inUse
    ensures r.Some? ==> r.value < |tms| && !tms[r.value].inUse
    ensures r.Some? ==> forall i :: 0 <= i < r.value ==> tms[i].inUse
  {
    FirstIndex(tms, (n: TimerNode) => !n.inUse)
  }

  /** `schedule_timer`. -1 when neither a one-shot delay nor an interval
      is given, when the clock cannot be read (`now` is `None`) or when no
      timer slot is free. Otherwise the lowest free slot expires after the
      one-shot delay if there is one, else after the interval, and keeps
      the interval when one is given. */
  function ScheduleTimer(t: Tables, h: int, oneShot: Option<TimeValue>, interval: Option<TimeValue>,
                         act: int, now: Option<Timespec>): (r: (Tables, int))
    ensures r.1 == 0 || r.1 == -1
    ensures r.1 == -1 <==> (oneShot.None? && interval.None?) || now.None? || NextTimer(t.tms).None?
    ensures r.1 == -1 ==> r.0 == t
    ensures r.0.ehs == t.ehs
    ensures r.1 == 0 ==>
              var j := NextTimer(t.tms).value;
              var delay := if oneShot.Some? then oneShot.value else interval.value;
              && OnlySlotChanged(t.tms, r.0.tms, j)
              && r.0.tms[j].inUse && r.0.tms[j].handler == h && r.0.tms[j].act == act
              && Nanos(r.0.tms[j].expire) == Nanos(now.value) + delay.sec * NanosPerSec + delay.usec * NanosPerMicro
              && (Normal(now.value) && delay.usec >= 0 ==> Normal(r.0.tms[j].expire))
              && (interval.Some? ==> r.0.tms[j].interval == ToTimespec(interval.value))
  {
    if (oneShot.None? && interval.None?) || now.None? then (t, -1)
    else
      var os := if oneShot.Some? then ToTimespec(oneShot.value) else Zero;
      var it := if interval.Some? then ToTimespec(interval.value) else Zero;
      var n := NextTimer(t.tms);
      if n.None? then (t, -1)
      else
        var j := n.value;
        var expire := if oneShot.Some? then Expiry(now.value, os) else Expiry(now.value, it);
        var node := t.tms[j].(handler := h, inUse := true, act := act, expire := expire,
                              interval := if interval.Some? then it else t.tms[j].interval);
        (t.(tms := t.tms[j := node]), 0)
  }

  /** `remove_timer`: clear the first in-use timer of `h` and report 0, or
      -1 when there is none. */
  function RemoveTimer(t: Tables, h: int): (r: (Tables, int))
    ensures r.0.ehs == t.ehs
    ensures r.1 == -1 <==> forall i :: 0 <= i < |t.tms| ==> !(t.tms[i].inUse && t.tms[i].handler == h)
    ensures r.1 == -1 ==> r.0 == t
    ensures r.1 == 0 ==> exists i :: 0 <= i < |t.tms| && OnlySlotChanged(t.tms, r.0.tms, i)
                                     && t.tms[i].inUse && t.tms[i].handler == h && r.0.tms[i] == FreeTimer
                                     && forall j :: 0 <= j < i ==> !(t.tms[j].inUse && t.tms[j].handler == h)
  {
    var f := FirstIndex(t.tms, (n: TimerNode) => n.inUse && n.handler == h);
    if f.None? then (t, -1) else (t.(tms := t.tms[f.value := FreeTimer]), 0)
  }

  /** The value `get_expire_time` starts its scan from, and returns when
      it finds nothing earlier. */
  const Sentinel: Timespec := Timespec(0xffffff, 0xffffff)

  /** The earliest expiry among the in-use timers. */
  function Earliest(tms: seq<TimerNode>): (r: Option<Timespec>)
    ensures r.None? <==> forall i :: 0 <= i < |tms| ==> !tms[i].inUse
    ensures r.Some? ==> exists i :: 0 <= i < |tms| && tms[i].inUse && tms[i].expire == r.value
    ensures r.Some? ==> forall i :: 0 <= i < |tms| && tms[i].inUse ==> Compare(r.value, tms[i].expire) <= 0
  {
    if tms == [] then None
    else
      var rest := Earliest(tms[1..]);
      assert forall i :: 0 < i < |tms| ==> tms[i] == tms[1..][i - 1];
      if !tms[0].inUse then rest
      else if rest.None? || Compare(tms[0].expire, rest.value) <= 0 then Some(tms[0].expire)
      else rest
  }

  /** The scan `get_expire_time` makes: walk the slots in order and keep
      an in-use timer's expiry whenever it is earlier than the one kept. */
  function Scan(tms: seq<TimerNode>, acc: Timespec): Timespec
  {
    if tms == [] then acc
    else Scan(tms[1..], if tms[0].inUse && Compare(tms[0].expire, acc) < 0 then tms[0].expire else acc)
  }

  /** The scan keeps the earliest in-use expiry when that is earlier than
      where it starts, and its starting value otherwise. */
  lemma {:induction false} ScanKeepsEarliest(tms: seq<TimerNode>, acc: Timespec)
    ensures var e := Earliest(tms);
            Scan(tms, acc) == if e.Some? && Compare(e.value, acc) < 0 then e.value else acc
  {
    if tms != [] {
      var acc' := if tms[0].inUse && Compare(tms[0].expire, acc) < 0 then tms[0].expire else acc;
      ScanKeepsEarliest(tms[1..], acc');
    }
  }

  /** `get_expire_time` as written: the sentinel when the scan found
      nothing earlier than it, otherwise the time left until the earliest
      expiry, or zero when that has passed. */
  function ExpireTimeAsWritten(t: Tables, now: Timespec): (r: Timespec)
    ensures r == Sentinel || Compare(r, Zero) >= 0
  {
    var e := Scan(t.tms, Sentinel);
    if Compare(e, Sentinel) == 0 then e else Max(Diff(e, now), Zero)
  }

  /** `get_expire_time` as its comment describes it: the sentinel only
      when no timer is in use, otherwise the time left until the earliest
      expiry, or zero when that has passed. */
  function ExpireTime(t: Tables, now: Timespec): (r: Timespec)
    ensures Earliest(t.tms).None? ==> r == Sentinel
    ensures Earliest(t.tms).Some? && Normal(now) && Normal(Earliest(t.tms).value) ==>
              && Normal(r)
              && Nanos(r) == if Nanos(Earliest(t.tms).value) <= Nanos(now) then 0
                             else Nanos(Earliest(t.tms).value) - Nanos(now)
  {
    var e := Earliest(t.tms);
    if e.None? then Sentinel
    else
      Max(Diff(e.value, now), Zero)
  }

  /** While every in-use timer expires before the sentinel, the code as
      written computes the intended wait. */
  lemma ExpireTimeAgrees(t: Tables, now: Timespec)
    requires forall i :: 0 <= i < |t.tms| && t.tms[i].inUse ==> Compare(t.tms[i].expire, Sentinel) < 0
    ensures ExpireTimeAsWritten(t, now) == ExpireTime(t, now)
  {
    ScanKeepsEarliest(t.tms, Sentinel);
  }

  /** A timer expiring after the sentinel (the monotonic clock passes
      0xffffff seconds, about 194 days, after boot) is invisible to the
      scan: with it the only timer, the code as written reports the
      sentinel, a wait of about 194 days, while the timer is due sooner. */
  lemma LateTimerIgnored(t: Tables, now: Timespec)
    requires Earliest(t.tms).Some? && Compare(Earliest(t.tms).value, Sentinel) > 0
    requires Normal(now) && Normal(Earliest(t.tms).value)
    requires Compare(now, Earliest(t.tms).value) <= 0
    requires Nanos(Earliest(t.tms).value) - Nanos(now) < Nanos(Sentinel)
    ensures ExpireTimeAsWritten(t, now) == Sentinel
    ensures Nanos(ExpireTime(t, now)) < Nanos(Sentinel)
  {
    ScanKeepsEarliest(t.tms, Sentinel);
  }

  // ---------------------------------------------------------------------
  // Creation

  /** Both tables cleared. */
  function Cleared(): (t: Tables)
    ensures |t.ehs| == Slots && |t.tms| == Slots
    ensures forall i :: 0 <= i < Slots ==> t.ehs[i] == FreeEvent && t.tms[i] == FreeTimer
  {
    Tables(seq(Slots, _ => FreeEvent), seq(Slots, _ => FreeTimer))
  }

  /** `ipt_reactor_create` once its notification pipe exists: the cleared
      tables with the reactor's own notification handler registered for
      reading, which on cleared tables takes slot 0. */
  function Create(notify: int): (t: Tables)
    ensures |t.ehs| == Slots && |t.tms| == Slots
    ensures t.ehs[0] == EventNode(notify, {Read}, 0, true)
    ensures forall i :: 0 < i < Slots ==> t.ehs[i] == FreeEvent
    ensures forall i :: 0 <= i < Slots ==> !t.tms[i].inUse
    ensures HandlersUnique(t.ehs)
  {
    var c := Cleared();
    assert FindByHandler(c.ehs, notify).None?;
    NewHandlerTakesLowestSlot(c, notify, {Read}, 0);
    RegisterHandler(c, notify, {Read}).0
  }
}
