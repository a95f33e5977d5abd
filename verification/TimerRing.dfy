/**
  Timer slots (src/timer/timer.c, src/timer/pit.c) and the ring of kernel tasks
  (src/proc/scheduler.c) as one state machine: any number of threads arming timeouts, one tick
  handler, and any number of cores running tasks, interleaved step by step.
 */
module TimerRing {
  const MAX := 0xFFFF_FFFF_FFFF_FFFF // UINT64_MAX: the slot is taken
  const SLOTS := 1024 // TIMER_MAX_TIMEOUTS
  const RING := 8192 // MAX_KERNEL_TASKS

  // ---- the ring ----

  datatype Task = Timer(slot: nat, id: nat) | Other(arg: nat)

  datatype Ring = Ring(buf: seq<Task>, head: nat, tail: nat)

  predicate RingOk(r: Ring) {
    |r.buf| == RING && r.head < RING && r.tail < RING
  }

  function Full(r: Ring): bool {
    (r.head + 1) % RING == r.tail
  }

  function Enqueued(r: Ring, t: Task): Ring
    requires RingOk(r)
  {
    r.(buf := r.buf[r.head := t], head := (r.head + 1) % RING)
  }

  function Dequeued(r: Ring): Ring {
    r.(tail := (r.tail + 1) % RING)
  }

  /** The tasks waiting, oldest first. */
  function Waiting(r: Ring): seq<Task>
    requires RingOk(r)
  {
    if r.tail <= r.head then r.buf[r.tail..r.head] else r.buf[r.tail..] + r.buf[..r.head]
  }

  lemma EnqueueAppends(r: Ring, t: Task)
    requires RingOk(r) && !Full(r)
    ensures RingOk(Enqueued(r, t)) && Waiting(Enqueued(r, t)) == Waiting(r) + [t]
  {
    var r' := Enqueued(r, t);
    if r.head + 1 < RING {
      assert r'.head == r.head + 1;
    } else {
      assert r'.head == 0;
    }
  }

  lemma DequeueDropsFirst(r: Ring)
    requires RingOk(r) && r.head != r.tail
    ensures RingOk(Dequeued(r)) && Waiting(r) == [r.buf[r.tail]] + Waiting(Dequeued(r))
  {
    var r' := Dequeued(r);
    if r.tail + 1 < RING {
      assert r'.tail == r.tail + 1;
    } else {
      assert r'.tail == 0;
    }
  }

  // ---- the tick counter ----

  /** pit_count after n ticks: it runs up to MAX and goes on at 1. */
  function After(start: nat, n: nat): nat {
    if start + n <= MAX then start + n else (start + n - 1) % MAX + 1
  }

  /** pit_count - start_time in 64 bits. */
  function Elapsed(count: nat, start: nat): nat {
    (count + MAX + 1 - start) % (MAX + 1)
  }

  lemma AfterStep(start: nat, n: nat)
    requires start <= MAX
    ensures After(start, n) < MAX ==> After(start, n + 1) == After(start, n) + 1
    ensures After(start, n) == MAX ==> After(start, n + 1) == 1
  {
    if start + n >= MAX {
      var k := start + n - 1;
      assert k % MAX + 1 < MAX ==> (k + 1) % MAX == k % MAX + 1;
      assert k % MAX + 1 == MAX ==> (k + 1) % MAX == 0;
    }
  }

  /**
    The tick handler sees a timeout expire only after its time, for every tick, exactly when the
    counter does not pass MAX before it is due.
   */
  lemma NoEarlyExpiry(start: nat, ms: nat)
    requires start <= MAX && 1 <= ms < MAX
    ensures (forall n: nat {:trigger After(start, n)} :: Elapsed(After(start, n), start) >= ms ==> n >= ms) <==>
              start + ms <= MAX + 1
  {
    if start + ms <= MAX + 1 {
      forall n: nat | Elapsed(After(start, n), start) >= ms
        ensures n >= ms
      {
        if start + n <= MAX {
          assert Elapsed(After(start, n), start) == n;
        }
      }
    } else {
      var n := ms - 1;
      assert start + n - 1 == MAX + (start + n - 1 - MAX);
      assert After(start, n) == start + n - MAX;
      assert Elapsed(After(start, n), start) == ms;
    }
  }

  // ---- the state machine ----

  /** struct timer_timeout; cb says whether the callback is not null. */
  datatype Slot = Slot(ms: nat, start: nat, cb: bool, data: nat)

  datatype Phase = Free | Claimed(thread: nat) | Armed | Fired | Queued | Held(core: nat) | Lost

  /** Bookkeeping about the current use of a slot; no step of the program depends on it. */
  datatype Book = Book(phase: Phase, id: nat, ms: nat, cb: bool, data: nat, timed: bool, since: nat, run: bool)

  /** A thread in set_timeout or set_core_wakeup_timeout. */
  datatype Armer =
    | Idle
    | Scanning(i: nat, ms: nat, cb: bool, data: nat)
    | Filling(i: nat, stores: nat, ms: nat, cb: bool, data: nat)

  /** pit_irq */
  datatype Handler =
    | AtRest | Reset | Loop(i: nat) | Check(i: nat, ms: nat) | Mark(i: nat) | Dispatch(i: nat) | Wake(i: nat)

  /** A core running tasks: about to call the callback, inside it, or about to release the slot. */
  datatype Core = Ready | Calling(slot: nat, id: nat) | Inside(slot: nat, id: nat) | Releasing(slot: nat, id: nat)

  datatype Log = Log(accepted: seq<Task>, dequeued: seq<Task>, ran: multiset<nat>, nextId: nat)

  datatype State = State(
    count: nat, ticks: nat, slots: seq<Slot>, book: seq<Book>, armers: seq<Armer>, handler: Handler, ring: Ring,
    cores: seq<Core>, log: Log)

  datatype Event =
    | Begin(t: nat, ms: nat, cb: bool, data: nat) | Try(t: nat) | Fill(t: nat) | Publish(t: nat)
    | ResetCount | Tick | Inspect | Compare | SetMark | Hand | WakeUp
    | Take(c: nat) | Call(c: nat) | Return(c: nat) | Release(c: nat)
    | Delegate(arg: nat)

  predicate Shaped(s: State) {
    |s.slots| == SLOTS && |s.book| == SLOTS && RingOk(s.ring) && s.count <= MAX
  }

  predicate Enabled(s: State, e: Event) {
    match e
    case Begin(t, ms, cb, data) => t < |s.armers| && s.armers[t].Idle? && ms <= MAX
    case Try(t) => t < |s.armers| && s.armers[t].Scanning?
    case Fill(t) => t < |s.armers| && s.armers[t].Filling? && s.armers[t].i < SLOTS && s.armers[t].stores < 3
    case Publish(t) => t < |s.armers| && s.armers[t].Filling? && s.armers[t].i < SLOTS && s.armers[t].stores == 3
    case ResetCount => s.handler.AtRest? && s.count == MAX
    case Tick => (s.handler.AtRest? && s.count < MAX) || s.handler.Reset?
    case Inspect => s.handler.Loop?
    case Compare => s.handler.Check? && s.handler.i < SLOTS
    case SetMark => s.handler.Mark? && s.handler.i < SLOTS
    case Hand => s.handler.Dispatch? && s.handler.i < SLOTS
    case WakeUp => s.handler.Wake? && s.handler.i < SLOTS
    case Take(c) => c < |s.cores| && s.cores[c].Ready? && s.ring.head != s.ring.tail
    case Call(c) => c < |s.cores| && s.cores[c].Calling? && s.cores[c].slot < SLOTS
    case Return(c) => c < |s.cores| && s.cores[c].Inside?
    case Release(c) => c < |s.cores| && s.cores[c].Releasing? && s.cores[c].slot < SLOTS
    case Delegate(arg) => true
  }

  function Put(s: State, i: nat, x: Slot, b: Book): State
    requires Shaped(s) && i < SLOTS
  {
    s.(slots := s.slots[i := x], book := s.book[i := b])
  }

  /** Claim slot i by compare-and-swap, or look at the next one. */
  function Tried(s: State, t: nat): State
    requires Shaped(s) && Enabled(s, Try(t))
  {
    var a := s.armers[t];
    if a.i >= SLOTS then s.(armers := s.armers[t := Idle])
    else if s.slots[a.i].ms != 0 then s.(armers := s.armers[t := Scanning(a.i + 1, a.ms, a.cb, a.data)])
    else
      Put(s, a.i, s.slots[a.i].(ms := MAX), Book(Claimed(t), s.log.nextId, a.ms, a.cb, a.data, false, 0, false))
      .(armers := s.armers[t := Filling(a.i, 0, a.ms, a.cb, a.data)], log := s.log.(nextId := s.log.nextId + 1))
  }

  /** The plain stores: start_time, then callback, then data or core_id. */
  function Filled(s: State, t: nat): State
    requires Shaped(s) && Enabled(s, Fill(t))
  {
    var a := s.armers[t];
    var x, b := s.slots[a.i], s.book[a.i];
    Put(s, a.i,
        if a.stores == 0 then x.(start := s.count) else if a.stores == 1 then x.(cb := a.cb) else x.(data := a.data),
        if a.stores == 0 then b.(timed := true, since := s.ticks) else b)
    .(armers := s.armers[t := a.(stores := a.stores + 1)])
  }

  function Published(s: State, t: nat): State
    requires Shaped(s) && Enabled(s, Publish(t))
  {
    var a := s.armers[t];
    Put(s, a.i, s.slots[a.i].(ms := a.ms),
        s.book[a.i].(phase := if a.ms == 0 then Free else if a.ms == MAX then Lost else Armed))
    .(armers := s.armers[t := Idle])
  }

  /** Slot i has expired: wake a core, or hand the callback to the ring; a full ring refuses it. */
  function Handed(s: State): State
    requires Shaped(s) && Enabled(s, Hand)
  {
    var i := s.handler.i;
    if !s.slots[i].cb then s.(handler := Wake(i))
    else if Full(s.ring) then Put(s, i, s.slots[i], s.book[i].(phase := Lost)).(handler := Loop(i + 1))
    else
      var t := Timer(i, s.book[i].id);
      Put(s, i, s.slots[i], s.book[i].(phase := Queued))
      .(handler := Loop(i + 1), ring := Enqueued(s.ring, t), log := s.log.(accepted := s.log.accepted + [t]))
  }

  function Taken(s: State, c: nat): State
    requires Shaped(s) && Enabled(s, Take(c))
  {
    var t := s.ring.buf[s.ring.tail];
    var s' := s.(ring := Dequeued(s.ring), log := s.log.(dequeued := s.log.dequeued + [t]));
    if t.Timer? && t.slot < SLOTS then
      Put(s', t.slot, s.slots[t.slot], s.book[t.slot].(phase := Held(c))).(cores := s.cores[c := Calling(t.slot, t.id)])
    else s'
  }

  /** pit_timer_callback tests the callback and calls it. */
  function Called(s: State, c: nat): State
    requires Shaped(s) && Enabled(s, Call(c))
  {
    var k := s.cores[c];
    if !s.slots[k.slot].cb then s.(cores := s.cores[c := Releasing(k.slot, k.id)])
    else
      Put(s, k.slot, s.slots[k.slot], s.book[k.slot].(run := true))
      .(cores := s.cores[c := Inside(k.slot, k.id)], log := s.log.(ran := s.log.ran + multiset{s.book[k.slot].id}))
  }

  function Apply(s: State, e: Event): State
    requires Shaped(s) && Enabled(s, e)
  {
    match e
    case Begin(t, ms, cb, data) => s.(armers := s.armers[t := Scanning(0, ms, cb, data)])
    case Try(t) => Tried(s, t)
    case Fill(t) => Filled(s, t)
    case Publish(t) => Published(s, t)
    case ResetCount => s.(count := 0, handler := Reset)
    case Tick => s.(count := s.count + 1, ticks := s.ticks + 1, handler := Loop(0))
    case Inspect =>
      var i := s.handler.i;
      if i >= SLOTS then s.(handler := AtRest)
      else if s.slots[i].ms == 0 || s.slots[i].ms == MAX then s.(handler := Loop(i + 1))
      else s.(handler := Check(i, s.slots[i].ms))
    case Compare =>
      var i := s.handler.i;
      s.(handler := if Elapsed(s.count, s.slots[i].start) >= s.handler.ms then Mark(i) else Loop(i + 1))
    case SetMark =>
      var i := s.handler.i;
      Put(s, i, s.slots[i].(ms := MAX), s.book[i].(phase := Fired)).(handler := Dispatch(i))
    case Hand => Handed(s)
    case WakeUp =>
      var i := s.handler.i;
      Put(s, i, s.slots[i].(ms := 0), s.book[i].(phase := Free)).(handler := Loop(i + 1))
    case Take(c) => Taken(s, c)
    case Call(c) => Called(s, c)
    case Return(c) => s.(cores := s.cores[c := Releasing(s.cores[c].slot, s.cores[c].id)])
    case Release(c) =>
      var i := s.cores[c].slot;
      Put(s, i, s.slots[i].(ms := 0), s.book[i].(phase := Free)).(cores := s.cores[c := Ready])
    case Delegate(arg) =>
      if Full(s.ring) then s
      else s.(ring := Enqueued(s.ring, Other(arg)), log := s.log.(accepted := s.log.accepted + [Other(arg)]))
  }

  ghost predicate Init(s: State) {
    && Shaped(s) && s.handler.AtRest? && s.ring.head == s.ring.tail
    && (forall i :: 0 <= i < SLOTS ==> s.slots[i].ms == 0 && s.book[i] == Book(Free, i, 0, false, 0, false, 0, false))
    && (forall t :: 0 <= t < |s.armers| ==> s.armers[t].Idle?)
    && (forall c :: 0 <= c < |s.cores| ==> s.cores[c].Ready?)
    && s.log == Log([], [], multiset{}, SLOTS)
  }

  // ---- the invariant ----

  predicate ClockOk(reset: bool, count: nat, start: nat, n: nat) {
    && start <= MAX
    && if reset then (if n == 0 then start == 0 || start == MAX else After(start, n) == MAX)
       else (if n == 0 then start == count else After(start, n) == count)
  }

  predicate SlotOk(x: Slot, b: Book, reset: bool, count: nat, ticks: nat) {
    && (b.timed ==> b.since <= ticks && ClockOk(reset, count, x.start, ticks - b.since))
    && match b.phase
       case Free => x.ms == 0
       case Armed => x.ms == b.ms && 0 < b.ms < MAX && x.cb == b.cb && x.data == b.data && b.timed && !b.run
       case Fired => x.ms == MAX && !b.run
       case Queued => x.ms == MAX && x.cb && !b.run
       case Held(c) => x.ms == MAX && x.cb
       case _ => x.ms == MAX
  }

  ghost predicate AllSlotsOk(slots: seq<Slot>, book: seq<Book>, reset: bool, count: nat, ticks: nat)
    requires |slots| == |book| == SLOTS
  {
    forall i :: 0 <= i < SLOTS ==> SlotOk(slots[i], book[i], reset, count, ticks)
  }

  predicate ArmerOk(a: Armer, t: nat, slots: seq<Slot>, book: seq<Book>)
    requires |slots| == |book| == SLOTS
  {
    match a
    case Filling(i, stores, ms, cb, data) =>
      && i < SLOTS && stores <= 3 && book[i].phase == Claimed(t) && book[i].ms == ms && book[i].cb == cb &&
         book[i].data == data
      && !book[i].run && ms <= MAX
      && (stores >= 1 ==> book[i].timed) && (stores >= 2 ==> slots[i].cb == cb) &&
         (stores >= 3 ==> slots[i].data == data)
    case Scanning(i, ms, cb, data) => ms <= MAX
    case Idle => true
  }

  predicate HandlerOk(h: Handler, count: nat, slots: seq<Slot>, book: seq<Book>)
    requires |slots| == |book| == SLOTS
  {
    match h
    case AtRest => true
    case Reset => count == 0
    case Loop(i) => true
    case Check(i, ms) => i < SLOTS && book[i].phase == Armed && slots[i].ms == ms
    case Mark(i) => i < SLOTS && book[i].phase == Armed && Elapsed(count, slots[i].start) >= slots[i].ms
    case Dispatch(i) => i < SLOTS && book[i].phase == Fired
    case Wake(i) => i < SLOTS && book[i].phase == Fired
  }

  predicate CoreOk(k: Core, c: nat, book: seq<Book>)
    requires |book| == SLOTS
  {
    match k
    case Ready => true
    case Calling(i, id) => i < SLOTS && book[i].phase == Held(c) && book[i].id == id && !book[i].run
    case Inside(i, id) => i < SLOTS && book[i].phase == Held(c) && book[i].id == id && book[i].run
    case Releasing(i, id) => i < SLOTS && book[i].phase == Held(c) && book[i].id == id && book[i].run
  }

  predicate EntryOk(t: Task, book: seq<Book>)
    requires |book| == SLOTS
  {
    t.Timer? ==> t.slot < SLOTS && book[t.slot].phase == Queued && book[t.slot].id == t.id
  }

  ghost predicate QueueOk(w: seq<Task>, book: seq<Book>)
    requires |book| == SLOTS
  {
    && (forall k :: 0 <= k < |w| ==> EntryOk(w[k], book))
    && (forall k, l :: 0 <= k < l < |w| && w[k].Timer? && w[l].Timer? ==> w[k].slot != w[l].slot)
  }

  ghost predicate IdsOk(book: seq<Book>, ran: multiset<nat>, nextId: nat) {
    && (forall i :: 0 <= i < |book| ==> book[i].id < nextId && (!book[i].run ==> book[i].id !in ran))
    && (forall i, j :: 0 <= i < j < |book| ==> book[i].id != book[j].id)
    && (forall x: nat :: ran[x] <= 1) && (forall x :: x in ran ==> x < nextId)
  }

  ghost predicate Settled(t: Task, cores: seq<Core>, ran: multiset<nat>) {
    t.Timer? ==> t.id in ran || exists c :: 0 <= c < |cores| && cores[c] == Calling(t.slot, t.id)
  }

  ghost predicate Inv(s: State) {
    && Shaped(s)
    && AllSlotsOk(s.slots, s.book, s.handler.Reset?, s.count, s.ticks)
    && (forall t :: 0 <= t < |s.armers| ==> ArmerOk(s.armers[t], t, s.slots, s.book))
    && HandlerOk(s.handler, s.count, s.slots, s.book)
    && (forall c :: 0 <= c < |s.cores| ==> CoreOk(s.cores[c], c, s.book))
    && QueueOk(Waiting(s.ring), s.book)
    && IdsOk(s.book, s.log.ran, s.log.nextId)
    && s.log.accepted == s.log.dequeued + Waiting(s.ring)
    && (forall k :: 0 <= k < |s.log.dequeued| ==> Settled(s.log.dequeued[k], s.cores, s.log.ran))
  }

  // ---- a change to slot i disturbs nobody who does not own it ----

  lemma ArmersKeep(s: State, i: nat, x: Slot, b: Book, t0: nat)
    requires Inv(s) && i < SLOTS && forall t :: 0 <= t < |s.armers| && t != t0 ==> s.book[i].phase != Claimed(t)
    ensures forall t :: 0 <= t < |s.armers| && t != t0 ==> ArmerOk(s.armers[t], t, s.slots[i := x], s.book[i := b])
  {
    forall t | 0 <= t < |s.armers| && t != t0
      ensures ArmerOk(s.armers[t], t, s.slots[i := x], s.book[i := b])
    {
      assert ArmerOk(s.armers[t], t, s.slots, s.book);
    }
  }

  lemma CoresKeep(s: State, i: nat, b: Book, c0: nat)
    requires Inv(s) && i < SLOTS && forall c :: 0 <= c < |s.cores| && c != c0 ==> s.book[i].phase != Held(c)
    ensures forall c :: 0 <= c < |s.cores| && c != c0 ==> CoreOk(s.cores[c], c, s.book[i := b])
  {
    forall c | 0 <= c < |s.cores| && c != c0
      ensures CoreOk(s.cores[c], c, s.book[i := b])
    {
      assert CoreOk(s.cores[c], c, s.book);
    }
  }

  lemma QueueKeeps(w: seq<Task>, book: seq<Book>, i: nat, b: Book)
    requires |book| == SLOTS && QueueOk(w, book) && i < SLOTS && book[i].phase != Queued
    ensures QueueOk(w, book[i := b])
  {
    forall k | 0 <= k < |w|
      ensures EntryOk(w[k], book[i := b])
    {
      assert EntryOk(w[k], book);
    }
  }

  lemma SlotsKeep(s: State, i: nat, x: Slot, b: Book)
    requires Inv(s) && i < SLOTS && SlotOk(x, b, s.handler.Reset?, s.count, s.ticks)
    ensures AllSlotsOk(s.slots[i := x], s.book[i := b], s.handler.Reset?, s.count, s.ticks)
  {
    var slots', book' := s.slots[i := x], s.book[i := b];
    forall j | 0 <= j < SLOTS
      ensures SlotOk(slots'[j], book'[j], s.handler.Reset?, s.count, s.ticks)
    {
      assert SlotOk(s.slots[j], s.book[j], s.handler.Reset?, s.count, s.ticks);
    }
  }

  lemma IdsKeep(book: seq<Book>, ran: multiset<nat>, nextId: nat, i: nat, b: Book)
    requires IdsOk(book, ran, nextId) && i < |book| && b.id == book[i].id && b.run == book[i].run
    ensures IdsOk(book[i := b], ran, nextId)
  {
  }

  // ---- armers ----

  lemma TryKeepsInv(s: State, t: nat)
    requires Inv(s) && Enabled(s, Try(t))
    ensures Inv(Tried(s, t))
  {
    var a := s.armers[t];
    assert ArmerOk(a, t, s.slots, s.book);
    if a.i < SLOTS && s.slots[a.i].ms == 0 {
      var x, b := s.slots[a.i].(ms := MAX), Book(Claimed(t), s.log.nextId, a.ms, a.cb, a.data, false, 0, false);
      assert SlotOk(s.slots[a.i], s.book[a.i], s.handler.Reset?, s.count, s.ticks);
      ArmersKeep(s, a.i, x, b, t);
      CoresKeep(s, a.i, b, |s.cores|);
      QueueKeeps(Waiting(s.ring), s.book, a.i, b);
      SlotsKeep(s, a.i, x, b);
    }
  }

  lemma FillKeepsInv(s: State, t: nat)
    requires Inv(s) && Enabled(s, Fill(t))
    ensures Inv(Filled(s, t))
  {
    var a := s.armers[t];
    assert ArmerOk(a, t, s.slots, s.book);
    var s' := Filled(s, t);
    var x, b := s'.slots[a.i], s'.book[a.i];
    assert SlotOk(s.slots[a.i], s.book[a.i], s.handler.Reset?, s.count, s.ticks);
    ArmersKeep(s, a.i, x, b, t);
    CoresKeep(s, a.i, b, |s.cores|);
    QueueKeeps(Waiting(s.ring), s.book, a.i, b);
    SlotsKeep(s, a.i, x, b);
    IdsKeep(s.book, s.log.ran, s.log.nextId, a.i, b);
  }

  lemma PublishKeepsInv(s: State, t: nat)
    requires Inv(s) && Enabled(s, Publish(t))
    ensures Inv(Published(s, t))
  {
    var a := s.armers[t];
    assert ArmerOk(a, t, s.slots, s.book);
    var s' := Published(s, t);
    var x, b := s'.slots[a.i], s'.book[a.i];
    assert SlotOk(s.slots[a.i], s.book[a.i], s.handler.Reset?, s.count, s.ticks);
    ArmersKeep(s, a.i, x, b, t);
    CoresKeep(s, a.i, b, |s.cores|);
    QueueKeeps(Waiting(s.ring), s.book, a.i, b);
    SlotsKeep(s, a.i, x, b);
    IdsKeep(s.book, s.log.ran, s.log.nextId, a.i, b);
  }

  // ---- the handler ----

  lemma CountKeepsInv(s: State, e: Event)
    requires Inv(s) && Enabled(s, e) && (e.ResetCount? || e.Tick?)
    ensures Inv(Apply(s, e))
  {
    var s' := Apply(s, e);
    forall i | 0 <= i < SLOTS
      ensures SlotOk(s'.slots[i], s'.book[i], s'.handler.Reset?, s'.count, s'.ticks)
    {
      assert SlotOk(s.slots[i], s.book[i], s.handler.Reset?, s.count, s.ticks);
      if s.book[i].timed {
        AfterStep(s.slots[i].start, s.ticks - s.book[i].since);
      }
    }
  }

  lemma LookKeepsInv(s: State, e: Event)
    requires Inv(s) && Enabled(s, e) && (e.Inspect? || e.Compare?)
    ensures Inv(Apply(s, e))
  {
    var i := s.handler.i;
    if i < SLOTS {
      assert SlotOk(s.slots[i], s.book[i], s.handler.Reset?, s.count, s.ticks);
      if s.slots[i].ms != 0 && s.slots[i].ms != MAX {
        assert s.book[i].phase == Armed;
      }
    }
  }

  lemma HandlerMoves(s: State, i: nat, x: Slot, b: Book)
    requires Inv(s) && i < SLOTS && (s.book[i].phase == Armed || s.book[i].phase == Fired)
    requires SlotOk(x, b, s.handler.Reset?, s.count, s.ticks) && b.id == s.book[i].id && b.run == s.book[i].run
    ensures forall t :: 0 <= t < |s.armers| ==> ArmerOk(s.armers[t], t, s.slots[i := x], s.book[i := b])
    ensures forall c :: 0 <= c < |s.cores| ==> CoreOk(s.cores[c], c, s.book[i := b])
    ensures QueueOk(Waiting(s.ring), s.book[i := b])
    ensures AllSlotsOk(s.slots[i := x], s.book[i := b], s.handler.Reset?, s.count, s.ticks)
    ensures IdsOk(s.book[i := b], s.log.ran, s.log.nextId)
  {
    ArmersKeep(s, i, x, b, |s.armers|);
    CoresKeep(s, i, b, |s.cores|);
    QueueKeeps(Waiting(s.ring), s.book, i, b);
    SlotsKeep(s, i, x, b);
    IdsKeep(s.book, s.log.ran, s.log.nextId, i, b);
  }

  lemma MarkKeepsInv(s: State, e: Event)
    requires Inv(s) && Enabled(s, e) && (e.SetMark? || e.WakeUp?)
    ensures Inv(Apply(s, e))
  {
    var i, s' := s.handler.i, Apply(s, e);
    assert SlotOk(s.slots[i], s.book[i], s.handler.Reset?, s.count, s.ticks);
    HandlerMoves(s, i, s'.slots[i], s'.book[i]);
  }

  lemma QueueGrows(w: seq<Task>, book: seq<Book>, i: nat, b: Book)
    requires |book| == SLOTS && QueueOk(w, book) && i < SLOTS && book[i].phase != Queued && b.phase == Queued
    ensures QueueOk(w + [Timer(i, b.id)], book[i := b])
  {
    var w', book' := w + [Timer(i, b.id)], book[i := b];
    forall k | 0 <= k < |w'|
      ensures EntryOk(w'[k], book') && (k < |w| && w'[k].Timer? ==> w'[k].slot != i)
    {
      if k < |w| {
        assert EntryOk(w[k], book);
      }
    }
  }

  lemma HandAccepted(s: State)
    requires Inv(s) && Enabled(s, Hand) && s.slots[s.handler.i].cb && !Full(s.ring)
    ensures Inv(Handed(s))
  {
    var i, s' := s.handler.i, Handed(s);
    var t, b := Timer(i, s.book[i].id), s.book[i].(phase := Queued);
    assert SlotOk(s.slots[i], s.book[i], s.handler.Reset?, s.count, s.ticks);
    HandlerMoves(s, i, s.slots[i], b);
    EnqueueAppends(s.ring, t);
    QueueGrows(Waiting(s.ring), s.book, i, b);
    assert s.log.accepted + [t] == s.log.dequeued + (Waiting(s.ring) + [t]);
  }

  lemma HandKeepsInv(s: State)
    requires Inv(s) && Enabled(s, Hand)
    ensures Inv(Handed(s))
  {
    var i, s' := s.handler.i, Handed(s);
    if s.slots[i].cb {
      if Full(s.ring) {
        assert SlotOk(s.slots[i], s.book[i], s.handler.Reset?, s.count, s.ticks);
        HandlerMoves(s, i, s'.slots[i], s'.book[i]);
      } else {
        HandAccepted(s);
      }
    }
  }

  // ---- cores ----

  lemma FirstLeaves(w: seq<Task>, w': seq<Task>, t: Task, book: seq<Book>, b: Book)
    requires |book| == SLOTS && QueueOk(w, book) && w == [t] + w'
    ensures EntryOk(t, book) && QueueOk(w', if t.Timer? then book[t.slot := b] else book)
  {
    assert w[0] == t && EntryOk(w[0], book);
    forall k | 0 <= k < |w'|
      ensures w'[k] == w[k + 1] && EntryOk(w'[k], if t.Timer? then book[t.slot := b] else book)
    {
      assert EntryOk(w[k + 1], book);
    }
  }

  lemma TakeTimer(s: State, c: nat, i: nat, id: nat, b: Book)
    requires Inv(s) && c < |s.cores| && i < SLOTS && s.book[i].phase == Queued && s.book[i].id == id &&
             b == s.book[i].(phase := Held(c))
    ensures forall t :: 0 <= t < |s.armers| ==> ArmerOk(s.armers[t], t, s.slots, s.book[i := b])
    ensures forall d :: 0 <= d < |s.cores| && d != c ==> CoreOk(s.cores[d], d, s.book[i := b])
    ensures CoreOk(Calling(i, id), c, s.book[i := b])
    ensures AllSlotsOk(s.slots, s.book[i := b], s.handler.Reset?, s.count, s.ticks)
    ensures IdsOk(s.book[i := b], s.log.ran, s.log.nextId) && HandlerOk(s.handler, s.count, s.slots, s.book[i := b])
  {
    assert s.slots[i := s.slots[i]] == s.slots;
    assert SlotOk(s.slots[i], s.book[i], s.handler.Reset?, s.count, s.ticks);
    ArmersKeep(s, i, s.slots[i], b, |s.armers|);
    CoresKeep(s, i, b, c);
    SlotsKeep(s, i, s.slots[i], b);
    IdsKeep(s.book, s.log.ran, s.log.nextId, i, b);
  }

  lemma TakeKeepsInv(s: State, c: nat)
    requires Inv(s) && Enabled(s, Take(c))
    ensures Inv(Taken(s, c))
  {
    var t := s.ring.buf[s.ring.tail];
    DequeueDropsFirst(s.ring);
    var b := if t.Timer? && t.slot < SLOTS then s.book[t.slot].(phase := Held(c)) else s.book[0];
    FirstLeaves(Waiting(s.ring), Waiting(Dequeued(s.ring)), t, s.book, b);
    assert s.log.accepted == s.log.dequeued + [t] + Waiting(Dequeued(s.ring));
    TakeSettles(s, c);
    if t.Timer? {
      TakeTimerKeepsInv(s, c, t);
    }
  }

  lemma TakeTimerKeepsInv(s: State, c: nat, t: Task)
    requires Inv(s) && Enabled(s, Take(c)) && t == s.ring.buf[s.ring.tail] && t.Timer? && EntryOk(t, s.book)
    requires RingOk(Dequeued(s.ring)) &&
             QueueOk(Waiting(Dequeued(s.ring)), s.book[t.slot := s.book[t.slot].(phase := Held(c))])
    requires s.log.accepted == s.log.dequeued + [t] + Waiting(Dequeued(s.ring))
    requires var s' := Taken(s, c);
             forall k :: 0 <= k < |s'.log.dequeued| ==> Settled(s'.log.dequeued[k], s'.cores, s'.log.ran)
    ensures Inv(Taken(s, c))
  {
    TakeTimer(s, c, t.slot, t.id, s.book[t.slot].(phase := Held(c)));
    assert s.slots[t.slot := s.slots[t.slot]] == s.slots;
  }

  lemma TakeSettles(s: State, c: nat)
    requires Inv(s) && Enabled(s, Take(c))
    ensures var s' := Taken(s, c);
            forall k :: 0 <= k < |s'.log.dequeued| ==> Settled(s'.log.dequeued[k], s'.cores, s'.log.ran)
  {
    var s', t := Taken(s, c), s.ring.buf[s.ring.tail];
    DequeueDropsFirst(s.ring);
    assert Waiting(s.ring)[0] == t && EntryOk(t, s.book);
    forall k | 0 <= k < |s'.log.dequeued|
      ensures Settled(s'.log.dequeued[k], s'.cores, s'.log.ran)
    {
      if k < |s.log.dequeued| {
        var u := s.log.dequeued[k];
        assert Settled(u, s.cores, s.log.ran);
        if u.Timer? && u.id !in s.log.ran {
          var d :| 0 <= d < |s.cores| && s.cores[d] == Calling(u.slot, u.id);
          assert s'.cores[d] == Calling(u.slot, u.id);
        }
      } else if t.Timer? {
        assert s'.cores[c] == Calling(t.slot, t.id);
      }
    }
  }

  lemma StaySettled(done: seq<Task>, cores: seq<Core>, ran: multiset<nat>, c: nat, k': Core, ran': multiset<nat>)
    requires c < |cores| && (forall k :: 0 <= k < |done| ==> Settled(done[k], cores, ran)) && ran <= ran'
    requires cores[c].Calling? ==> cores[c].id in ran'
    ensures forall k :: 0 <= k < |done| ==> Settled(done[k], cores[c := k'], ran')
  {
    forall k | 0 <= k < |done|
      ensures Settled(done[k], cores[c := k'], ran')
    {
      var u := done[k];
      assert Settled(u, cores, ran);
      if u.Timer? && u.id !in ran' {
        var d :| 0 <= d < |cores| && cores[d] == Calling(u.slot, u.id);
        assert cores[c := k'][d] == Calling(u.slot, u.id);
      }
    }
  }

  lemma CallKeepsInv(s: State, c: nat)
    requires Inv(s) && Enabled(s, Call(c))
    ensures Inv(Called(s, c))
  {
    var s', i := Called(s, c), s.cores[c].slot;
    assert CoreOk(s.cores[c], c, s.book);
    assert SlotOk(s.slots[i], s.book[i], s.handler.Reset?, s.count, s.ticks);
    var b := s'.book[i];
    ArmersKeep(s, i, s.slots[i], b, |s.armers|);
    CoresKeep(s, i, b, c);
    QueueKeeps(Waiting(s.ring), s.book, i, b);
    SlotsKeep(s, i, s.slots[i], b);
    StaySettled(s.log.dequeued, s.cores, s.log.ran, c, s'.cores[c], s'.log.ran);
  }

  lemma DoneKeepsInv(s: State, e: Event)
    requires Inv(s) && Enabled(s, e) && (e.Return? || e.Release?)
    ensures Inv(Apply(s, e))
  {
    var s', c := Apply(s, e), e.c;
    var i := s.cores[c].slot;
    assert CoreOk(s.cores[c], c, s.book);
    assert SlotOk(s.slots[i], s.book[i], s.handler.Reset?, s.count, s.ticks);
    if e.Release? {
      var x, b := s'.slots[i], s'.book[i];
      ArmersKeep(s, i, x, b, |s.armers|);
      CoresKeep(s, i, b, c);
      QueueKeeps(Waiting(s.ring), s.book, i, b);
      SlotsKeep(s, i, x, b);
      IdsKeep(s.book, s.log.ran, s.log.nextId, i, b);
    }
    StaySettled(s.log.dequeued, s.cores, s.log.ran, c, s'.cores[c], s.log.ran);
  }

  lemma DelegateKeepsInv(s: State, arg: nat)
    requires Inv(s)
    ensures Inv(Apply(s, Delegate(arg)))
  {
    if !Full(s.ring) {
      EnqueueAppends(s.ring, Other(arg));
      assert s.log.accepted + [Other(arg)] == s.log.dequeued + Waiting(Enqueued(s.ring, Other(arg)));
    }
  }

  lemma StepKeepsInv(s: State, e: Event)
    requires Inv(s) && Enabled(s, e)
    ensures Inv(Apply(s, e))
  {
    match e
    case Begin(t, ms, cb, data) =>
    case Try(t) => TryKeepsInv(s, t);
    case Fill(t) => FillKeepsInv(s, t);
    case Publish(t) => PublishKeepsInv(s, t);
    case ResetCount => CountKeepsInv(s, e);
    case Tick => CountKeepsInv(s, e);
    case Inspect => LookKeepsInv(s, e);
    case Compare => LookKeepsInv(s, e);
    case SetMark => MarkKeepsInv(s, e);
    case Hand => HandKeepsInv(s);
    case WakeUp => MarkKeepsInv(s, e);
    case Take(c) => TakeKeepsInv(s, c);
    case Call(c) => CallKeepsInv(s, c);
    case Return(c) => DoneKeepsInv(s, e);
    case Release(c) => DoneKeepsInv(s, e);
    case Delegate(arg) => DelegateKeepsInv(s, arg);
  }

  // ---- runs ----

  ghost predicate IsRun(s: State, es: seq<Event>)
    decreases |es|
  {
    es == [] || (Shaped(s) && Enabled(s, es[0]) && IsRun(Apply(s, es[0]), es[1..]))
  }

  ghost function Exec(s: State, es: seq<Event>): State
    requires IsRun(s, es)
    decreases |es|
  {
    if es == [] then s else Exec(Apply(s, es[0]), es[1..])
  }

  lemma {:induction false} RunKeepsInv(s: State, es: seq<Event>)
    requires Inv(s) && IsRun(s, es)
    ensures Inv(Exec(s, es))
    decreases |es|
  {
    if es != [] {
      StepKeepsInv(s, es[0]);
      RunKeepsInv(Apply(s, es[0]), es[1..]);
    }
  }

  lemma InitHasInv(s: State)
    requires Init(s)
    ensures Inv(s)
  {
    assert Waiting(s.ring) == [];
  }

  /** A counter that shows a timeout expired after n ticks: n is enough. */
  lemma DueInTime(start: nat, ms: nat, count: nat, n: nat)
    requires ClockOk(false, count, start, n) && 1 <= ms < MAX && start + ms <= MAX + 1 && Elapsed(count, start) >= ms
    ensures n >= ms
  {
    NoEarlyExpiry(start, ms);
    assert n == 0 ==> Elapsed(count, start) == 0;
    assert After(start, n) == count;
  }

  /**
    In every run: a slot the handler is about to fire holds exactly what its thread stored, and its
    time has passed unless the counter runs past MAX before it is due.
   */
  lemma FiresWhatWasPublishedAndNotEarly(s0: State, es: seq<Event>)
    requires Init(s0) && IsRun(s0, es)
    ensures var s := Exec(s0, es);
            s.handler.Check? || s.handler.Mark? ==>
              && s.handler.i < |s.slots| && s.handler.i < |s.book|
              && var x, b := s.slots[s.handler.i], s.book[s.handler.i];
                 && b.phase == Armed && x.ms == b.ms && x.cb == b.cb && x.data == b.data && 0 < x.ms < MAX &&
                    b.since <= s.ticks
                 && (s.handler.Mark? && x.start + x.ms <= MAX + 1 ==> s.ticks - b.since >= x.ms)
  {
    var s := Exec(s0, es);
    InitHasInv(s0);
    RunKeepsInv(s0, es);
    if s.handler.Check? || s.handler.Mark? {
      var i := s.handler.i;
      var x, b := s.slots[i], s.book[i];
      assert SlotOk(x, b, false, s.count, s.ticks);
      if s.handler.Mark? && x.start + x.ms <= MAX + 1 {
        DueInTime(x.start, x.ms, s.count, s.ticks - b.since);
      }
    }
  }

  /** In every run no arming has its callback called twice; a call about to be made is for one not yet run. */
  lemma CallbackAtMostOnce(s0: State, es: seq<Event>, id: nat, c: nat)
    requires Init(s0) && IsRun(s0, es)
    ensures var s := Exec(s0, es);
            s.log.ran[id] <= 1 && (c < |s.cores| && s.cores[c].Calling? ==> s.cores[c].id !in s.log.ran)
  {
    var s := Exec(s0, es);
    InitHasInv(s0);
    RunKeepsInv(s0, es);
    if c < |s.cores| && s.cores[c].Calling? {
      assert CoreOk(s.cores[c], c, s.book);
    }
  }

  /** Once the ring is drained and the cores are idle, every timeout the ring accepted has run exactly once. */
  lemma CallbackExactlyOnceWhenDrained(s0: State, es: seq<Event>, k: nat)
    requires Init(s0) && IsRun(s0, es)
    ensures var s := Exec(s0, es);
            s.ring.head == s.ring.tail && (forall c :: 0 <= c < |s.cores| ==> s.cores[c].Ready?) &&
            k < |s.log.accepted| && s.log.accepted[k].Timer? ==>
              s.log.ran[s.log.accepted[k].id] == 1
  {
    var s := Exec(s0, es);
    InitHasInv(s0);
    RunKeepsInv(s0, es);
    if s.ring.head == s.ring.tail && (forall c :: 0 <= c < |s.cores| ==> s.cores[c].Ready?) && k < |s.log.accepted| {
      assert s.log.accepted == s.log.dequeued;
      assert Settled(s.log.dequeued[k], s.cores, s.log.ran);
    }
  }

  /** A slot that can be claimed is out of everybody's hands: no callback on it is pending or running. */
  lemma ReclaimedOnlyAfterCallback(s0: State, es: seq<Event>, i: nat, t: nat, c: nat, k: nat)
    requires Init(s0) && IsRun(s0, es)
    ensures var s := Exec(s0, es);
            Shaped(s) && (i < SLOTS && s.slots[i].ms == 0 ==>
              && (t < |s.armers| && s.armers[t].Filling? ==> s.armers[t].i != i)
              && (c < |s.cores| && !s.cores[c].Ready? ==> s.cores[c].slot != i)
              && (k < |Waiting(s.ring)| && Waiting(s.ring)[k].Timer? ==> Waiting(s.ring)[k].slot != i)
              && (s.handler.Check? || s.handler.Mark? || s.handler.Dispatch? || s.handler.Wake? ==> s.handler.i != i))
  {
    var s := Exec(s0, es);
    InitHasInv(s0);
    RunKeepsInv(s0, es);
    if i < SLOTS && s.slots[i].ms == 0 {
      assert SlotOk(s.slots[i], s.book[i], s.handler.Reset?, s.count, s.ticks);
      assert t < |s.armers| ==> ArmerOk(s.armers[t], t, s.slots, s.book);
      assert c < |s.cores| ==> CoreOk(s.cores[c], c, s.book);
      assert k < |Waiting(s.ring)| ==> EntryOk(Waiting(s.ring)[k], s.book);
    }
  }

  /** Tasks leave the ring in the order they entered it; none is lost or invented. */
  lemma RingIsFifo(s0: State, es: seq<Event>)
    requires Init(s0) && IsRun(s0, es)
    ensures var s := Exec(s0, es); Shaped(s) && s.log.dequeued + Waiting(s.ring) == s.log.accepted
  {
    InitHasInv(s0);
    RunKeepsInv(s0, es);
  }

  lemma ArmerKeepsLost(s: State, e: Event, i: nat)
    requires Inv(s) && Enabled(s, e) && i < SLOTS && s.book[i].phase == Lost && (e.Try? || e.Fill? || e.Publish?)
    ensures Apply(s, e).book[i] == s.book[i]
  {
    assert SlotOk(s.slots[i], s.book[i], s.handler.Reset?, s.count, s.ticks);
    assert ArmerOk(s.armers[e.t], e.t, s.slots, s.book);
  }

  lemma CoreKeepsLost(s: State, e: Event, i: nat)
    requires Inv(s) && Enabled(s, e) && i < SLOTS && s.book[i].phase == Lost && (e.Take? || e.Call? || e.Release?)
    ensures Apply(s, e).book[i] == s.book[i]
  {
    assert CoreOk(s.cores[e.c], e.c, s.book);
    if e.Take? {
      DequeueDropsFirst(s.ring);
      assert Waiting(s.ring)[0] == s.ring.buf[s.ring.tail] && EntryOk(Waiting(s.ring)[0], s.book);
    }
  }

  lemma StepKeepsLost(s: State, e: Event, i: nat)
    requires Inv(s) && Enabled(s, e) && i < SLOTS && s.book[i].phase == Lost
    ensures Apply(s, e).book[i] == s.book[i]
  {
    if e.Try? || e.Fill? || e.Publish? {
      ArmerKeepsLost(s, e, i);
    } else if e.Take? || e.Call? || e.Release? {
      CoreKeepsLost(s, e, i);
    }
  }

  lemma {:induction false} LostForever(s: State, es: seq<Event>, i: nat)
    requires Inv(s) && IsRun(s, es) && i < SLOTS && s.book[i].phase == Lost && !s.book[i].run
    ensures var s' := Exec(s, es);
            i < |s'.slots| && i < |s'.book| && s'.slots[i].ms == MAX && s'.book[i] == s.book[i] &&
            s.book[i].id !in s'.log.ran
    decreases |es|
  {
    if es == [] {
      assert SlotOk(s.slots[i], s.book[i], s.handler.Reset?, s.count, s.ticks);
    } else {
      StepKeepsInv(s, es[0]);
      StepKeepsLost(s, es[0], i);
      LostForever(Apply(s, es[0]), es[1..], i);
    }
  }

  /** A timeout that a full ring refuses never runs, and its slot never comes back, whatever happens next. */
  lemma RefusedNeverRuns(s: State, es: seq<Event>)
    requires Inv(s) && Enabled(s, Hand) && s.slots[s.handler.i].cb && Full(s.ring) && IsRun(Apply(s, Hand), es)
    ensures var i, s' := s.handler.i, Exec(Apply(s, Hand), es);
            i < |s'.slots| && s'.slots[i].ms == MAX && s.book[i].id !in s'.log.ran
  {
    var i := s.handler.i;
    assert SlotOk(s.slots[i], s.book[i], s.handler.Reset?, s.count, s.ticks);
    StepKeepsInv(s, Hand);
    LostForever(Apply(s, Hand), es, i);
  }

  // ---- the ring does refuse timeouts ----

  lemma {:induction false} RunSnoc(s: State, es: seq<Event>, e: Event)
    requires IsRun(s, es) && Shaped(Exec(s, es)) && Enabled(Exec(s, es), e)
    ensures IsRun(s, es + [e]) && Exec(s, es + [e]) == Apply(Exec(s, es), e)
    decreases |es|
  {
    if es == [] {
      assert [e][1..] == [] && [] + [e] == [e];
    } else {
      assert (es + [e])[1..] == es[1..] + [e];
      RunSnoc(Apply(s, es[0]), es[1..], e);
    }
  }

  ghost predicate Reachable(s0: State, s: State) {
    exists es :: IsRun(s0, es) && Exec(s0, es) == s
  }

  lemma ReachStep(s0: State, s: State, e: Event) returns (s': State)
    requires Reachable(s0, s) && Shaped(s) && Enabled(s, e)
    ensures s' == Apply(s, e) && Reachable(s0, s')
  {
    var es :| IsRun(s0, es) && Exec(s0, es) == s;
    RunSnoc(s0, es, e);
    s' := Apply(s, e);
  }

  /** Nothing but the ring and the log of accepted tasks differs. */
  ghost predicate SameButRing(s: State, s': State) {
    s' == s.(ring := s'.ring, log := s'.log)
  }

  /** Tasks from elsewhere fill the ring while no core takes any. */
  lemma {:induction false} RingFillsUp(s0: State, s: State) returns (s': State)
    requires Reachable(s0, s) && Shaped(s)
    ensures Reachable(s0, s') && Shaped(s') && Full(s'.ring) && SameButRing(s, s')
    decreases RING - |Waiting(s.ring)|
  {
    if Full(s.ring) {
      s' := s;
    } else {
      EnqueueAppends(s.ring, Other(0));
      var s1 := ReachStep(s0, s, Delegate(0));
      s' := RingFillsUp(s0, s1);
    }
  }

  /** The claimed slot 0 gets its contents and its time. */
  lemma FillsSlot(s0: State, s: State) returns (s': State)
    requires Reachable(s0, s) && Shaped(s) && s.handler.AtRest? && |s.armers| > 0
    requires s.armers[0] == Filling(0, 0, 1, true, 0)
    ensures Reachable(s0, s') && Shaped(s') && s'.handler.AtRest? && s'.count == s.count
    ensures s'.slots[0].ms == 1 && s'.slots[0].start == s.count && s'.slots[0].cb
  {
    s' := ReachStep(s0, s, Fill(0));
    s' := ReachStep(s0, s', Fill(0));
    s' := ReachStep(s0, s', Fill(0));
    s' := ReachStep(s0, s', Publish(0));
  }

  /** A thread arms slot 0 for one tick, with a callback. */
  lemma Arms(s0: State) returns (s: State)
    requires Init(s0) && |s0.armers| > 0
    ensures Reachable(s0, s) && Shaped(s) && s.handler.AtRest? && s.count == s0.count
    ensures s.slots[0].ms == 1 && s.slots[0].start == s0.count && s.slots[0].cb
  {
    assert IsRun(s0, []) && Exec(s0, []) == s0;
    s := ReachStep(s0, s0, Begin(0, 1, true, 0));
    s := ReachStep(s0, s, Try(0));
    s := FillsSlot(s0, s);
  }

  /** The next tick finds the timeout expired and hands it to the ring. */
  lemma Expires(s0: State, s: State) returns (s': State)
    requires Reachable(s0, s) && Shaped(s) && s.handler.AtRest? && s.count < MAX
    requires s.slots[0].ms == 1 && s.slots[0].start == s.count && s.slots[0].cb
    ensures Reachable(s0, s') && Shaped(s') && Enabled(s', Hand) && s'.handler.i == 0 && s'.slots[0].cb &&
            s'.ring == s.ring
  {
    s' := ReachStep(s0, s, Tick);
    s' := ReachStep(s0, s', Inspect);
    s' := ReachStep(s0, s', Compare);
    s' := ReachStep(s0, s', SetMark);
  }

  // ---- an accepted timeout can run ----

  /** Steps a core needs before it is ready again. */
  function Busy(k: Core): nat {
    match k case Ready => 0 case Calling(_, _) => 3 case Inside(_, _) => 2 case Releasing(_, _) => 1
  }

  /** What core 0 does next: finish its task, or take the oldest one waiting. */
  lemma CoreWorks(s: State) returns (e: Event)
    requires Inv(s) && s.cores != [] && s.ring.head != s.ring.tail
    ensures Enabled(s, e) && Apply(s, e).log.accepted == s.log.accepted && |Apply(s, e).cores| == |s.cores|
    ensures var s' := Apply(s, e);
            && RingOk(s'.ring) && |Waiting(s'.ring)| <= |Waiting(s.ring)|
            && (|Waiting(s'.ring)| == |Waiting(s.ring)| ==> Busy(s'.cores[0]) < Busy(s.cores[0]))
  {
    assert CoreOk(s.cores[0], 0, s.book);
    match s.cores[0]
    case Ready =>
      e := Take(0);
      DequeueDropsFirst(s.ring);
    case Calling(_, _) => e := Call(0);
    case Inside(_, _) => e := Return(0);
    case Releasing(_, _) => e := Release(0);
  }

  lemma {:induction false} Drains(s: State) returns (es: seq<Event>)
    requires Inv(s) && s.cores != []
    ensures IsRun(s, es) && Inv(Exec(s, es)) && Exec(s, es).log.accepted == s.log.accepted
    ensures Exec(s, es).ring.head == Exec(s, es).ring.tail
    decreases |Waiting(s.ring)|, Busy(s.cores[0])
  {
    if s.ring.head == s.ring.tail {
      es := [];
    } else {
      var e := CoreWorks(s);
      StepKeepsInv(s, e);
      var rest := Drains(Apply(s, e));
      es := [e] + rest;
      assert es[1..] == rest;
    }
  }

  /** A core about to call a callback can call it. */
  lemma CallRuns(s: State, c: nat, i: nat, id: nat)
    requires Inv(s) && c < |s.cores| && s.cores[c] == Calling(i, id)
    ensures Enabled(s, Call(c)) && id in Apply(s, Call(c)).log.ran
  {
    assert CoreOk(s.cores[c], c, s.book);
    assert SlotOk(s.slots[i], s.book[i], s.handler.Reset?, s.count, s.ticks);
  }

  /** From every state with a core, what the ring has accepted can be run. */
  lemma AcceptedCanRun(s: State, i: nat, id: nat) returns (es: seq<Event>)
    requires Inv(s) && s.cores != [] && Timer(i, id) in s.log.accepted
    ensures IsRun(s, es) && id in Exec(s, es).log.ran
  {
    es := Drains(s);
    var s' := Exec(s, es);
    assert Waiting(s'.ring) == [];
    var k :| 0 <= k < |s'.log.dequeued| && s'.log.dequeued[k] == Timer(i, id);
    assert Settled(s'.log.dequeued[k], s'.cores, s'.log.ran);
    if id !in s'.log.ran {
      var c :| 0 <= c < |s'.cores| && s'.cores[c] == Calling(i, id);
      CallRuns(s', c, i, id);
      RunSnoc(s, es, Call(c));
      es := es + [Call(c)];
    }
  }

  lemma {:induction false} NobodyRuns(s: State, es: seq<Event>)
    requires s.cores == [] && IsRun(s, es)
    ensures Exec(s, es).log.ran == s.log.ran
    decreases |es|
  {
    if es != [] {
      NobodyRuns(Apply(s, es[0]), es[1..]);
    }
  }

  lemma HandedIsAccepted(s: State)
    requires Inv(s) && Enabled(s, Hand) && s.slots[s.handler.i].cb && !Full(s.ring)
    ensures Apply(s, Hand).log.accepted == s.log.accepted + [Timer(s.handler.i, s.book[s.handler.i].id)]
    ensures Timer(s.handler.i, s.book[s.handler.i].id) in Apply(s, Hand).log.accepted
  {
  }

  /**
    The callback of an expired timeout runs in no run whatsoever after the handler has passed it on if
    and only if the ring was full or there is no core to run tasks.
   */
  lemma LostIffRingIsFull(s: State)
    requires Inv(s) && Enabled(s, Hand) && s.slots[s.handler.i].cb
    ensures (forall es :: IsRun(Apply(s, Hand), es) ==> s.book[s.handler.i].id !in Exec(Apply(s, Hand), es).log.ran)
            <==> Full(s.ring) || s.cores == []
  {
    var i, s' := s.handler.i, Apply(s, Hand);
    var id := s.book[i].id;
    assert SlotOk(s.slots[i], s.book[i], s.handler.Reset?, s.count, s.ticks);
    if Full(s.ring) || s.cores == [] {
      forall es | IsRun(s', es)
        ensures id !in Exec(s', es).log.ran
      {
        if Full(s.ring) {
          RefusedNeverRuns(s, es);
        } else {
          NobodyRuns(s', es);
        }
      }
    } else {
      HandedIsAccepted(s);
      StepKeepsInv(s, Hand);
      var es := AcceptedCanRun(s', i, id);
    }
  }

  /**
    From every initial state in which some thread can arm a timeout and the counter is not about to
    wrap, a run leads to a full ring being handed an expired timeout, whose callback then never runs.
   */
  lemma TimeoutsCanBeLost(s0: State) returns (s: State)
    requires Init(s0) && |s0.armers| > 0 && s0.count < MAX
    ensures Reachable(s0, s) && Inv(s) && Enabled(s, Hand) && s.slots[s.handler.i].cb && Full(s.ring)
    ensures Apply(s, Hand).book[s.handler.i].phase == Lost
    ensures forall es :: IsRun(Apply(s, Hand), es) ==> s.book[s.handler.i].id !in Exec(Apply(s, Hand), es).log.ran
  {
    s := Arms(s0);
    s := RingFillsUp(s0, s);
    s := Expires(s0, s);
    var es :| IsRun(s0, es) && Exec(s0, es) == s;
    InitHasInv(s0);
    RunKeepsInv(s0, es);
    LostIffRingIsFull(s);
  }
}
