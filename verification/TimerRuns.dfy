/**
  What a caller of src/timer/timer.c gets, over whole runs of module TimerRing: `es` are the events of
  a run and ss[n] is the state after the first n of them.  Nothing here is said about the bookkeeping
  of TimerRing; a use of a slot is told by the events that began it.
 */
module TimerRuns {
  import opened TimerRing

  predicate StepAt(ss: seq<State>, es: seq<Event>, k: nat) {
    k < |es| && |ss| == |es| + 1 && Shaped(ss[k]) && Enabled(ss[k], es[k]) && ss[k + 1] == Apply(ss[k], es[k])
  }

  ghost predicate IsTrace(ss: seq<State>, es: seq<Event>) {
    |ss| == |es| + 1 && Init(ss[0]) && forall k :: 0 <= k < |es| ==> StepAt(ss, es, k)
  }

  /** Every run of TimerRing has its trace of states. */
  lemma {:induction false} RunHasTrace(s: State, es: seq<Event>) returns (ss: seq<State>)
    requires IsRun(s, es)
    ensures |ss| == |es| + 1 && ss[0] == s && ss[|es|] == Exec(s, es)
    ensures forall k :: 0 <= k < |es| ==> StepAt(ss, es, k)
    decreases |es|
  {
    if es == [] {
      ss := [s];
    } else {
      var rest := RunHasTrace(Apply(s, es[0]), es[1..]);
      ss := [s] + rest;
      forall k | 0 <= k < |es|
        ensures StepAt(ss, es, k)
      {
        if k > 0 {
          assert StepAt(rest, es[1..], k - 1);
        }
      }
    }
  }

  lemma {:induction false} TraceInv(ss: seq<State>, es: seq<Event>, n: nat)
    requires IsTrace(ss, es) && n <= |es|
    ensures Inv(ss[n])
  {
    if n == 0 {
      InitHasInv(ss[0]);
    } else {
      TraceInv(ss, es, n - 1);
      assert StepAt(ss, es, n - 1);
      StepKeepsInv(ss[n - 1], es[n - 1]);
    }
  }

  // ---- who began a use of a slot ----

  /** Event e is thread t's call of set_timeout or set_core_wakeup_timeout. */
  predicate Begins(e: Event, t: nat) { e.Begin? && e.t == t }

  /** The last call of thread t before event n is event p. */
  ghost predicate LastBegin(es: seq<Event>, p: nat, n: nat, t: nat) {
    p < n <= |es| && Begins(es[p], t) && forall k :: p < k < n ==> !Begins(es[k], t)
  }

  /** Event e, in state s, is a compare-and-swap that gets slot i. */
  predicate Claims(s: State, e: Event, i: nat) {
    && e.Try? && e.t < |s.armers| && s.armers[e.t].Scanning? && s.armers[e.t].i == i
    && i < |s.slots| && s.slots[i].ms == 0
  }

  /** A use of a slot: the call, the claim, and the store of the start time. */
  datatype Use = Use(begin: nat, claim: nat, stamp: nat)

  /** u is the latest use of slot i among the first n events: the claim is the last one of the slot. */
  ghost predicate LatestClaim(ss: seq<State>, es: seq<Event>, n: nat, i: nat, u: Use) {
    && |ss| == |es| + 1 && n <= |es| && u.claim < n && Claims(ss[u.claim], es[u.claim], i)
    && LastBegin(es, u.begin, u.claim, es[u.claim].t)
    && forall k :: u.claim < k < n ==> !Claims(ss[k], es[k], i)
  }

  /** ... and the start time it stores first is the counter at that moment. */
  ghost predicate Stamped(ss: seq<State>, es: seq<Event>, n: nat, i: nat, u: Use)
    requires |ss| == |es| + 1 && n <= |es| && u.claim < n && es[u.claim].Try?
  {
    && u.claim < u.stamp < n && es[u.stamp] == Fill(es[u.claim].t)
    && (forall k :: u.claim < k < u.stamp ==> es[k] != Fill(es[u.claim].t))
    && i < |ss[n].slots| && ss[n].slots[i].start == ss[u.stamp].count
  }

  function Ticks(es: seq<Event>, lo: nat, hi: nat): nat
    requires lo <= hi <= |es|
    decreases hi
  {
    if lo == hi then 0 else Ticks(es, lo, hi - 1) + if es[hi - 1].Tick? then 1 else 0
  }

  lemma {:induction false} TicksCount(ss: seq<State>, es: seq<Event>, lo: nat, hi: nat)
    requires IsTrace(ss, es) && lo <= hi <= |es|
    ensures ss[hi].ticks == ss[lo].ticks + Ticks(es, lo, hi)
    decreases hi
  {
    if lo < hi {
      TicksCount(ss, es, lo, hi - 1);
      assert StepAt(ss, es, hi - 1);
    }
  }

  // ---- the armers ----

  /** Thread t is at work on its last call, with that call's arguments. */
  ghost predicate ArmerTraced(ss: seq<State>, es: seq<Event>, n: nat, t: nat)
    requires |ss| == |es| + 1 && n <= |es| && t < |ss[n].armers|
  {
    match ss[n].armers[t]
    case Idle => true
    case Scanning(i, ms, cb, data) => exists p: nat :: LastBegin(es, p, n, t) && es[p] == Begin(t, ms, cb, data)
    case Filling(i, stores, ms, cb, data) =>
      exists u :: FilledBy(ss, es, n, i, u, stores) && es[u.claim].t == t && es[u.begin] == Begin(t, ms, cb, data)
  }

  ghost predicate FilledBy(ss: seq<State>, es: seq<Event>, n: nat, i: nat, u: Use, stores: nat) {
    && LatestClaim(ss, es, n, i, u) && i < |ss[n].book|
    && (if stores == 0 then forall k :: u.claim < k < n ==> es[k] != Fill(es[u.claim].t)
        else Stamped(ss, es, n, i, u) && ss[n].book[i].since == ss[u.stamp].ticks)
  }

  /** Only a claim and the claimer's stores touch the start time. */
  lemma StampKept(s: State, e: Event, i: nat)
    requires Shaped(s) && Enabled(s, e) && i < SLOTS && !Claims(s, e, i)
    requires e.Fill? ==> s.armers[e.t].i != i || s.armers[e.t].stores > 0
    ensures Apply(s, e).slots[i].start == s.slots[i].start && Apply(s, e).book[i].since == s.book[i].since
  {
  }

  /** A slot that some thread fills is claimed by nobody and filled by no other thread. */
  lemma FillsAlone(s: State, t: nat, e: Event)
    requires Inv(s) && Enabled(s, e) && t < |s.armers| && s.armers[t].Filling?
    ensures !Claims(s, e, s.armers[t].i)
    ensures e.Fill? && e.t != t ==> s.armers[e.t].i != s.armers[t].i
  {
    assert ArmerOk(s.armers[t], t, s.slots, s.book);
    var i := s.armers[t].i;
    assert SlotOk(s.slots[i], s.book[i], s.handler.Reset?, s.count, s.ticks);
    if e.Fill? {
      assert ArmerOk(s.armers[e.t], e.t, s.slots, s.book);
    }
  }

  lemma UseGoesOn(ss: seq<State>, es: seq<Event>, n: nat, i: nat, u: Use, stores: nat)
    requires |ss| == |es| + 1 && n < |es| && FilledBy(ss, es, n, i, u, stores) && !Claims(ss[n], es[n], i)
    requires i < |ss[n].slots| && i < |ss[n + 1].slots| && ss[n + 1].slots[i].start == ss[n].slots[i].start
    requires i < |ss[n + 1].book| && ss[n + 1].book[i].since == ss[n].book[i].since
    requires stores == 0 ==> es[n] != Fill(es[u.claim].t)
    ensures FilledBy(ss, es, n + 1, i, u, stores)
  {
  }

  lemma ArmerUntouched(s: State, e: Event, t: nat)
    requires Shaped(s) && Enabled(s, e) && t < |s.armers|
    ensures |Apply(s, e).armers| == |s.armers| && |Apply(s, e).slots| == |Apply(s, e).book| == SLOTS
    ensures !((e.Begin? || e.Try? || e.Fill? || e.Publish?) && e.t == t) ==> Apply(s, e).armers[t] == s.armers[t]
  {
  }

  lemma OtherArmer(ss: seq<State>, es: seq<Event>, n: nat, t: nat)
    requires StepAt(ss, es, n) && Inv(ss[n]) && t < |ss[n].armers| && ArmerTraced(ss, es, n, t)
    requires !((es[n].Begin? || es[n].Try? || es[n].Fill? || es[n].Publish?) && es[n].t == t)
    ensures t < |ss[n + 1].armers| && ArmerTraced(ss, es, n + 1, t)
  {
    var a := ss[n].armers[t];
    ArmerUntouched(ss[n], es[n], t);
    if a.Scanning? {
      var p: nat :| LastBegin(es, p, n, t) && es[p] == Begin(t, a.ms, a.cb, a.data);
      assert LastBegin(es, p, n + 1, t);
    } else if a.Filling? {
      var u :| FilledBy(ss, es, n, a.i, u, a.stores) && es[u.claim].t == t &&
               es[u.begin] == Begin(t, a.ms, a.cb, a.data);
      FillsAlone(ss[n], t, es[n]);
      assert ArmerOk(a, t, ss[n].slots, ss[n].book);
      StampKept(ss[n], es[n], a.i);
      UseGoesOn(ss, es, n, a.i, u, a.stores);
    }
  }

  /** Where a compare-and-swap takes a thread. */
  ghost predicate TryMoves(s: State, t: nat, s': State)
    requires t < |s.armers| && s.armers[t].Scanning?
  {
    var a := s.armers[t];
    && |s'.armers| == |s.armers| && |s'.book| == SLOTS
    && (|| s'.armers[t] == Idle || s'.armers[t] == Scanning(a.i + 1, a.ms, a.cb, a.data)
        || (Claims(s, Try(t), a.i) && a.i < SLOTS && s'.armers[t] == Filling(a.i, 0, a.ms, a.cb, a.data)))
  }

  lemma TryTraced(ss: seq<State>, es: seq<Event>, n: nat, t: nat)
    requires |ss| == |es| + 1 && n < |es| && es[n] == Try(t) && t < |ss[n].armers| && ss[n].armers[t].Scanning?
    requires ArmerTraced(ss, es, n, t) && TryMoves(ss[n], t, ss[n + 1])
    ensures ArmerTraced(ss, es, n + 1, t)
  {
    var a := ss[n].armers[t];
    var p: nat :| LastBegin(es, p, n, t) && es[p] == Begin(t, a.ms, a.cb, a.data);
    assert LastBegin(es, p, n + 1, t);
    if ss[n + 1].armers[t].Filling? {
      assert FilledBy(ss, es, n + 1, a.i, Use(p, n, 0), 0);
    }
  }

  /** Where a plain store takes a thread. */
  ghost predicate FillMoves(s: State, t: nat, s': State)
    requires Shaped(s) && Enabled(s, Fill(t))
  {
    var a := s.armers[t];
    && |s'.armers| == |s.armers| && s'.armers[t] == a.(stores := a.stores + 1) && |s'.slots| == |s'.book| == SLOTS
    && s'.slots[a.i].start == (if a.stores == 0 then s.count else s.slots[a.i].start)
    && s'.book[a.i].since == (if a.stores == 0 then s.ticks else s.book[a.i].since)
  }

  lemma UseIsStamped(ss: seq<State>, es: seq<Event>, n: nat, t: nat, u: Use)
    requires |ss| == |es| + 1 && n < |es| && es[n] == Fill(t) && Shaped(ss[n]) && Enabled(ss[n], es[n])
    requires FillMoves(ss[n], t, ss[n + 1])
    requires var a := ss[n].armers[t]; FilledBy(ss, es, n, a.i, u, a.stores) && es[u.claim].t == t
    ensures var a := ss[n].armers[t];
            var u' := if a.stores == 0 then u.(stamp := n) else u;
            FilledBy(ss, es, n + 1, a.i, u', a.stores + 1)
  {
    var a := ss[n].armers[t];
    if a.stores > 0 {
      UseGoesOn(ss, es, n, a.i, u, a.stores);
    }
  }

  lemma FillTraced(ss: seq<State>, es: seq<Event>, n: nat, t: nat)
    requires |ss| == |es| + 1 && n < |es| && es[n] == Fill(t) && Shaped(ss[n]) && Enabled(ss[n], es[n])
    requires ArmerTraced(ss, es, n, t) && FillMoves(ss[n], t, ss[n + 1])
    ensures ArmerTraced(ss, es, n + 1, t)
  {
    var a := ss[n].armers[t];
    var u :| FilledBy(ss, es, n, a.i, u, a.stores) && es[u.claim].t == t && es[u.begin] == Begin(t, a.ms, a.cb, a.data);
    UseIsStamped(ss, es, n, t, u);
  }

  lemma ActingArmer(ss: seq<State>, es: seq<Event>, n: nat, t: nat)
    requires StepAt(ss, es, n) && Inv(ss[n]) && t < |ss[n].armers| && ArmerTraced(ss, es, n, t)
    requires (es[n].Begin? || es[n].Try? || es[n].Fill? || es[n].Publish?) && es[n].t == t
    ensures t < |ss[n + 1].armers| && ArmerTraced(ss, es, n + 1, t)
  {
    if es[n].Begin? {
      assert LastBegin(es, n, n + 1, t);
    } else if es[n].Try? {
      assert TryMoves(ss[n], t, ss[n + 1]);
      TryTraced(ss, es, n, t);
    } else if es[n].Fill? {
      assert FillMoves(ss[n], t, ss[n + 1]);
      FillTraced(ss, es, n, t);
    }
  }

  // ---- the slots ----

  /** The slot is armed, or on its way to the callback. */
  predicate Serving(p: Phase) { p.Armed? || p.Fired? || p.Queued? || p.Held? }

  /** What the slot holds is what its call asked for; once it is fired, its time has passed. */
  ghost predicate ServesCall(ss: seq<State>, es: seq<Event>, n: nat, i: nat, u: Use) {
    && FilledBy(ss, es, n, i, u, 1) && i < |ss[n].slots| && u.begin < |es| && es[u.begin].Begin?
    && var x, asked := ss[n].slots[i], es[u.begin];
       && x.cb == asked.cb && x.data == asked.data
       && (if ss[n].book[i].phase.Armed? then x.ms == asked.ms else NotEarly(es, n, x.start, u))
  }

  /** At least as many ticks as were asked for have passed, if the counter did not pass MAX meanwhile. */
  ghost predicate NotEarly(es: seq<Event>, n: nat, start: nat, u: Use) {
    && u.begin < |es| && es[u.begin].Begin? && u.stamp <= n <= |es|
    && (start + es[u.begin].ms <= MAX + 1 ==> Ticks(es, u.stamp, n) >= es[u.begin].ms)
  }

  ghost predicate SlotTraced(ss: seq<State>, es: seq<Event>, n: nat, i: nat)
    requires |ss| == |es| + 1 && n <= |es| && i < |ss[n].book|
  {
    Serving(ss[n].book[i].phase) ==> exists u :: ServesCall(ss, es, n, i, u)
  }

  lemma PublishStores(s: State, t: nat)
    requires Inv(s) && Enabled(s, Publish(t))
    ensures var a, s' := s.armers[t], Apply(s, Publish(t));
            && |s'.slots| == |s'.book| == SLOTS && s'.book[a.i].since == s.book[a.i].since
            && s'.slots[a.i] == Slot(a.ms, s.slots[a.i].start, a.cb, a.data) && !s'.book[a.i].phase.Fired?
            && !s'.book[a.i].phase.Queued? && !s'.book[a.i].phase.Held?
  {
    assert ArmerOk(s.armers[t], t, s.slots, s.book);
  }

  lemma PublishTraced(ss: seq<State>, es: seq<Event>, n: nat, t: nat)
    requires StepAt(ss, es, n) && Inv(ss[n]) && es[n] == Publish(t) && ArmerTraced(ss, es, n, t)
    ensures ss[n].armers[t].i < |ss[n + 1].book| && SlotTraced(ss, es, n + 1, ss[n].armers[t].i)
  {
    var a := ss[n].armers[t];
    PublishStores(ss[n], t);
    FillsAlone(ss[n], t, es[n]);
    var u :| FilledBy(ss, es, n, a.i, u, a.stores) && es[u.claim].t == t && es[u.begin] == Begin(t, a.ms, a.cb, a.data);
    UseGoesOn(ss, es, n, a.i, u, a.stores);
    assert ss[n + 1].book[a.i].phase.Armed? ==> ServesCall(ss, es, n + 1, a.i, u);
  }

  /** A slot that is being served changes neither its contents nor its time, and nobody else gets it. */
  lemma ServedIsKept(s: State, e: Event, i: nat)
    requires Inv(s) && Enabled(s, e) && i < SLOTS && Serving(s.book[i].phase)
    ensures !Claims(s, e, i) && (e.Fill? || e.Publish? ==> s.armers[e.t].i != i)
    ensures var x, x', b' := s.slots[i], Apply(s, e).slots[i], Apply(s, e).book[i];
            && x'.start == x.start && x'.cb == x.cb && x'.data == x.data
            && (b'.phase.Armed? ==> s.book[i].phase.Armed? && x'.ms == x.ms)
  {
    assert SlotOk(s.slots[i], s.book[i], s.handler.Reset?, s.count, s.ticks);
    if e.Fill? || e.Publish? {
      assert ArmerOk(s.armers[e.t], e.t, s.slots, s.book);
    }
  }

  /** What a core takes off the ring is queued. */
  lemma TakenIsQueued(s: State, c: nat)
    requires Inv(s) && Enabled(s, Take(c))
    ensures EntryOk(s.ring.buf[s.ring.tail], s.book)
  {
    DequeueDropsFirst(s.ring);
    assert Waiting(s.ring)[0] == s.ring.buf[s.ring.tail] && EntryOk(Waiting(s.ring)[0], s.book);
  }

  /** Only the handler, at Mark, takes an armed slot further. */
  lemma ArmedUntilMarked(s: State, e: Event, i: nat)
    requires Inv(s) && Enabled(s, e) && i < SLOTS && s.book[i].phase.Armed?
    ensures Apply(s, e).book[i].phase.Armed? || (e.SetMark? && s.handler == Mark(i))
  {
    assert SlotOk(s.slots[i], s.book[i], s.handler.Reset?, s.count, s.ticks);
    if e.Fill? || e.Publish? {
      assert ArmerOk(s.armers[e.t], e.t, s.slots, s.book);
    } else if e.Take? {
      TakenIsQueued(s, e.c);
    } else if e.Call? || e.Release? {
      assert CoreOk(s.cores[e.c], e.c, s.book);
    }
  }

  /** A slot begins to be served by being published. */
  lemma ServedFromPublish(s: State, e: Event, i: nat)
    requires Inv(s) && Enabled(s, e) && i < SLOTS && !Serving(s.book[i].phase)
    ensures !Serving(Apply(s, e).book[i].phase) || (e.Publish? && s.armers[e.t].i == i)
  {
    if e.Take? {
      TakenIsQueued(s, e.c);
    }
  }

  lemma MarkIsDue(ss: seq<State>, es: seq<Event>, n: nat, i: nat, u: Use)
    requires IsTrace(ss, es) && n <= |es| && i < SLOTS && Inv(ss[n]) && ss[n].handler == Mark(i)
    requires ServesCall(ss, es, n, i, u)
    ensures NotEarly(es, n, ss[n].slots[i].start, u)
  {
    var s, x := ss[n], ss[n].slots[i];
    assert SlotOk(x, s.book[i], false, s.count, s.ticks);
    TicksCount(ss, es, u.stamp, n);
    if x.start + x.ms <= MAX + 1 {
      DueInTime(x.start, x.ms, s.count, s.ticks - s.book[i].since);
    }
  }

  lemma ServesOn(ss: seq<State>, es: seq<Event>, n: nat, i: nat, u: Use)
    requires IsTrace(ss, es) && n < |es| && i < SLOTS && Inv(ss[n]) && ServesCall(ss, es, n, i, u)
    requires Serving(ss[n].book[i].phase) && i < |ss[n + 1].book| && Serving(ss[n + 1].book[i].phase)
    ensures ServesCall(ss, es, n + 1, i, u)
  {
    assert StepAt(ss, es, n);
    ServedIsKept(ss[n], es[n], i);
    StampKept(ss[n], es[n], i);
    UseGoesOn(ss, es, n, i, u, 1);
    if ss[n].book[i].phase.Armed? {
      ArmedUntilMarked(ss[n], es[n], i);
      if !ss[n + 1].book[i].phase.Armed? {
        MarkIsDue(ss, es, n, i, u);
      }
    }
  }

  lemma SlotStep(ss: seq<State>, es: seq<Event>, n: nat, i: nat)
    requires IsTrace(ss, es) && n < |es| && i < SLOTS && Inv(ss[n]) && SlotTraced(ss, es, n, i)
    requires forall t :: 0 <= t < |ss[n].armers| ==> ArmerTraced(ss, es, n, t)
    ensures i < |ss[n + 1].book| && SlotTraced(ss, es, n + 1, i)
  {
    assert StepAt(ss, es, n);
    if Serving(ss[n + 1].book[i].phase) {
      if Serving(ss[n].book[i].phase) {
        var u :| ServesCall(ss, es, n, i, u);
        ServesOn(ss, es, n, i, u);
      } else {
        ServedFromPublish(ss[n], es[n], i);
        PublishTraced(ss, es, n, es[n].t);
      }
    }
  }

  ghost predicate AllTraced(ss: seq<State>, es: seq<Event>, n: nat)
    requires |ss| == |es| + 1 && n <= |es|
  {
    && |ss[n].book| == SLOTS
    && (forall t :: 0 <= t < |ss[n].armers| ==> ArmerTraced(ss, es, n, t))
    && (forall i :: 0 <= i < SLOTS ==> SlotTraced(ss, es, n, i))
  }

  lemma ArmerStep(ss: seq<State>, es: seq<Event>, n: nat, t: nat)
    requires StepAt(ss, es, n) && Inv(ss[n]) && t < |ss[n].armers| && ArmerTraced(ss, es, n, t)
    ensures t < |ss[n + 1].armers| && ArmerTraced(ss, es, n + 1, t)
  {
    if (es[n].Begin? || es[n].Try? || es[n].Fill? || es[n].Publish?) && es[n].t == t {
      ActingArmer(ss, es, n, t);
    } else {
      OtherArmer(ss, es, n, t);
    }
  }

  lemma SameSizes(s: State, e: Event)
    requires Shaped(s) && Enabled(s, e)
    ensures |Apply(s, e).armers| == |s.armers| && |Apply(s, e).book| == SLOTS
  {
  }

  lemma TraceStep(ss: seq<State>, es: seq<Event>, n: nat, m: nat)
    requires IsTrace(ss, es) && n < |es| && m == n + 1 && Inv(ss[n]) && AllTraced(ss, es, n)
    requires |ss[m].armers| == |ss[n].armers| && |ss[m].book| == SLOTS
    ensures AllTraced(ss, es, m)
  {
    forall t | 0 <= t < |ss[m].armers|
      ensures ArmerTraced(ss, es, m, t)
    {
      assert StepAt(ss, es, n);
      ArmerStep(ss, es, n, t);
    }
    forall i | 0 <= i < SLOTS
      ensures SlotTraced(ss, es, m, i)
    {
      SlotStep(ss, es, n, i);
    }
  }

  lemma {:induction false} TraceTraced(ss: seq<State>, es: seq<Event>, n: nat)
    requires IsTrace(ss, es) && n <= |es|
    ensures AllTraced(ss, es, n)
  {
    if n > 0 {
      TraceTraced(ss, es, n - 1);
      TraceInv(ss, es, n - 1);
      assert StepAt(ss, es, n - 1);
      SameSizes(ss[n - 1], es[n - 1]);
      TraceStep(ss, es, n - 1, n);
    }
  }

  // ---- a timeout is served as it was asked for, and not early ----

  /** The handler has found slot i expired, or a core is at its callback. */
  predicate AtHand(s: State, i: nat) {
    || s.handler == Mark(i) || s.handler == Dispatch(i) || s.handler == Wake(i)
    || exists c :: 0 <= c < |s.cores| && !s.cores[c].Ready? && s.cores[c].slot == i
  }

  /**
    The latest use of slot i: what the slot holds is what the call of that use was given, and between
    the store of its start time and event n at least the time asked for has passed, unless the counter
    ran past MAX.
   */
  ghost predicate AsAsked(ss: seq<State>, es: seq<Event>, n: nat, i: nat, u: Use) {
    && LatestClaim(ss, es, n, i, u) && Stamped(ss, es, n, i, u) && NotEarly(es, n, ss[n].slots[i].start, u)
    && ss[n].slots[i].cb == es[u.begin].cb && ss[n].slots[i].data == es[u.begin].data
  }

  lemma AtHandIsServing(s: State, i: nat)
    requires Inv(s) && AtHand(s, i)
    ensures i < SLOTS && Serving(s.book[i].phase) && (s.book[i].phase.Armed? ==> s.handler == Mark(i))
  {
    if !(s.handler == Mark(i) || s.handler == Dispatch(i) || s.handler == Wake(i)) {
      var c :| 0 <= c < |s.cores| && !s.cores[c].Ready? && s.cores[c].slot == i;
      assert CoreOk(s.cores[c], c, s.book);
    }
  }

  /**
    In every run, whatever the handler marks, dispatches or wakes up for, and whatever callback a core
    is at, was asked for with exactly these contents by the call that claimed the slot, and is not
    early.
   */
  lemma ServedAsAskedAndNotEarly(ss: seq<State>, es: seq<Event>, n: nat, i: nat)
    requires IsTrace(ss, es) && n <= |es| && AtHand(ss[n], i)
    ensures exists u :: AsAsked(ss, es, n, i, u)
  {
    TraceInv(ss, es, n);
    TraceTraced(ss, es, n);
    AtHandIsServing(ss[n], i);
    assert SlotTraced(ss, es, n, i);
    var u :| ServesCall(ss, es, n, i, u);
    if ss[n].book[i].phase.Armed? {
      MarkIsDue(ss, es, n, i, u);
    }
    assert AsAsked(ss, es, n, i, u);
  }

  // ---- a timeout that is due is found by the next tick ----

  /** Slot i is armed and its time is over. */
  predicate Due(s: State, i: nat) {
    i < |s.slots| && 0 < s.slots[i].ms < MAX && Elapsed(s.count, s.slots[i].start) >= s.slots[i].ms
  }

  /** The handler is in its loop and slot i is still ahead of it. */
  predicate Ahead(h: Handler, i: nat) {
    match h
    case Loop(j) => j <= i
    case Check(j, _) => j <= i
    case Mark(j) => j <= i
    case Dispatch(j) => j < i
    case Wake(j) => j < i
    case _ => false
  }

  lemma DueStays(s: State, e: Event, i: nat)
    requires Inv(s) && Enabled(s, e) && i < SLOTS && Due(s, i) && Ahead(s.handler, i)
    ensures (e.SetMark? && s.handler == Mark(i)) || Due(Apply(s, e), i)
  {
    assert SlotOk(s.slots[i], s.book[i], s.handler.Reset?, s.count, s.ticks);
    ServedIsKept(s, e, i);
    ArmedUntilMarked(s, e, i);
  }

  lemma StaysAhead(s: State, e: Event, i: nat)
    requires Inv(s) && Enabled(s, e) && i < SLOTS && Due(s, i) && Ahead(s.handler, i)
    ensures (e.SetMark? && s.handler == Mark(i)) || Ahead(Apply(s, e).handler, i)
  {
    assert HandlerOk(s.handler, s.count, s.slots, s.book);
  }

  /**
    A timeout that is due when the tick handler starts its loop is marked before the handler comes to
    rest again, however the other threads and the cores interfere.
   */
  lemma {:induction false} DueIsMarkedInOnePass(ss: seq<State>, es: seq<Event>, a: nat, b: nat, i: nat) returns (k: nat)
    requires IsTrace(ss, es) && a < b <= |es| && i < SLOTS && Ahead(ss[a].handler, i) && Due(ss[a], i)
    requires ss[b].handler.AtRest?
    ensures a <= k < b && es[k].SetMark? && ss[k].handler == Mark(i)
    decreases b - a
  {
    TraceInv(ss, es, a);
    assert StepAt(ss, es, a);
    DueStays(ss[a], es[a], i);
    StaysAhead(ss[a], es[a], i);
    if es[a].SetMark? && ss[a].handler == Mark(i) {
      k := a;
    } else {
      k := DueIsMarkedInOnePass(ss, es, a + 1, b, i);
    }
  }

  // ---- arming fails only when every slot is taken ----

  /** During its present call thread t tried slot j and found it taken. */
  ghost predicate SawTaken(ss: seq<State>, es: seq<Event>, n: nat, t: nat, j: nat)
    requires |ss| == |es| + 1 && n <= |es|
  {
    exists k: nat :: TriedInVain(ss, es, k, n, t, j)
  }

  ghost predicate TriedInVain(ss: seq<State>, es: seq<Event>, k: nat, n: nat, t: nat, j: nat)
    requires |ss| == |es| + 1 && n <= |es|
  {
    && k < n && es[k] == Try(t) && t < |ss[k].armers| && ss[k].armers[t].Scanning? && ss[k].armers[t].i == j
    && j < |ss[k].slots| && ss[k].slots[j].ms != 0
    && forall m :: k < m < n ==> !Begins(es[m], t)
  }

  ghost predicate SawTakenBelow(ss: seq<State>, es: seq<Event>, n: nat, t: nat, i: nat)
    requires |ss| == |es| + 1 && n <= |es|
  {
    forall j :: 0 <= j < i && j < SLOTS ==> SawTaken(ss, es, n, t, j)
  }

  lemma SawStill(ss: seq<State>, es: seq<Event>, n: nat, t: nat, j: nat)
    requires |ss| == |es| + 1 && n < |es| && SawTaken(ss, es, n, t, j) && !Begins(es[n], t)
    ensures SawTaken(ss, es, n + 1, t, j)
  {
    var k: nat :| TriedInVain(ss, es, k, n, t, j);
    assert TriedInVain(ss, es, k, n + 1, t, j);
  }

  lemma ScanStep(s: State, e: Event, t: nat)
    requires Shaped(s) && Enabled(s, e) && t < |s.armers| && t < |Apply(s, e).armers| && Apply(s, e).armers[t].Scanning?
    ensures Begins(e, t) ==> Apply(s, e).armers[t].i == 0
    ensures !Begins(e, t) ==> s.armers[t].Scanning?
    ensures e == Try(t) ==> s.armers[t].i < SLOTS && s.slots[s.armers[t].i].ms != 0 &&
                            Apply(s, e).armers[t].i == s.armers[t].i + 1
    ensures e != Try(t) && !Begins(e, t) ==> Apply(s, e).armers[t].i == s.armers[t].i
  {
  }

  lemma {:induction false} ScanningSawTaken(ss: seq<State>, es: seq<Event>, n: nat, t: nat)
    requires IsTrace(ss, es) && n <= |es| && t < |ss[n].armers| && ss[n].armers[t].Scanning?
    ensures SawTakenBelow(ss, es, n, t, ss[n].armers[t].i)
  {
    if n > 0 {
      var m := n - 1;
      assert StepAt(ss, es, m);
      ArmerUntouched(ss[m], es[m], t);
      ScanStep(ss[m], es[m], t);
      if !Begins(es[m], t) {
        ScanningSawTaken(ss, es, m, t);
        forall j | 0 <= j < ss[n].armers[t].i && j < SLOTS
          ensures SawTaken(ss, es, n, t, j)
        {
          if j < ss[m].armers[t].i {
            SawStill(ss, es, m, t, j);
          } else {
            assert TriedInVain(ss, es, m, n, t, j);
          }
        }
      }
    }
  }

  /** A call returns without a slot only after it has tried every slot and found it taken. */
  lemma GivesUpOnlyWhenAllAreTaken(ss: seq<State>, es: seq<Event>, n: nat, t: nat)
    requires IsTrace(ss, es) && n < |es| && es[n] == Try(t)
    requires t < |ss[n + 1].armers| && ss[n + 1].armers[t].Idle?
    ensures forall j :: 0 <= j < SLOTS ==> SawTaken(ss, es, n, t, j)
  {
    assert StepAt(ss, es, n);
    assert ss[n].armers[t].i >= SLOTS;
    ScanningSawTaken(ss, es, n, t);
  }

  // ---- every slot in use is in somebody's hands ----

  /** Somebody is at work on the slot, as far as its phase calls for it. */
  ghost predicate InHands(s: State, i: nat)
    requires Shaped(s) && i < SLOTS
  {
    match s.book[i].phase
    case Claimed(t) => t < |s.armers| && s.armers[t].Filling? && s.armers[t].i == i
    case Fired => s.handler == Dispatch(i) || s.handler == Wake(i)
    case Queued => Timer(i, s.book[i].id) in Waiting(s.ring)
    case Held(c) => c < |s.cores| && !s.cores[c].Ready? && s.cores[c].slot == i
    case _ => true
  }

  /** The step that gives a slot up for good: a refusal by the full ring, or the time UINT64_MAX. */
  predicate LosesSlot(s: State, e: Event, i: nat) {
    match e
    case Hand =>
      && s.handler.Dispatch? && s.handler.i == i && Full(s.ring) && i < |s.slots| && s.slots[i].cb
    case Publish(t) => t < |s.armers| && s.armers[t].Filling? && s.armers[t].i == i && s.armers[t].ms == MAX
    case _ => false
  }

  lemma TryHands(s: State, t: nat, i: nat)
    requires Inv(s) && Enabled(s, Try(t)) && i < SLOTS && InHands(s, i)
    ensures Shaped(Tried(s, t)) && InHands(Tried(s, t), i)
    ensures Tried(s, t).book[i].phase.Lost? ==> s.book[i].phase.Lost?
  {
    assert SlotOk(s.slots[i], s.book[i], s.handler.Reset?, s.count, s.ticks);
  }

  lemma FillHands(s: State, t: nat, i: nat)
    requires Inv(s) && Enabled(s, Fill(t)) && i < SLOTS && InHands(s, i)
    ensures Shaped(Filled(s, t)) && InHands(Filled(s, t), i)
    ensures Filled(s, t).book[i].phase.Lost? ==> s.book[i].phase.Lost?
  {
  }

  lemma PublishHands(s: State, t: nat, i: nat)
    requires Inv(s) && Enabled(s, Publish(t)) && i < SLOTS && InHands(s, i)
    ensures Shaped(Published(s, t)) && InHands(Published(s, t), i)
    ensures Published(s, t).book[i].phase.Lost? ==> s.book[i].phase.Lost? || LosesSlot(s, Publish(t), i)
  {
    assert ArmerOk(s.armers[t], t, s.slots, s.book);
  }

  lemma HandlerHands(s: State, e: Event, i: nat)
    requires Inv(s) && Enabled(s, e) && i < SLOTS && InHands(s, i)
    requires e.ResetCount? || e.Tick? || e.Inspect? || e.Compare? || e.SetMark? || e.WakeUp?
    ensures Shaped(Apply(s, e)) && InHands(Apply(s, e), i)
    ensures Apply(s, e).book[i].phase.Lost? ==> s.book[i].phase.Lost?
  {
    assert HandlerOk(s.handler, s.count, s.slots, s.book);
  }

  lemma StaysWaiting(r: Ring, t: Task)
    requires RingOk(r) && !Full(r)
    ensures RingOk(Enqueued(r, t)) && t in Waiting(Enqueued(r, t))
    ensures forall x :: x in Waiting(r) ==> x in Waiting(Enqueued(r, t))
  {
    EnqueueAppends(r, t);
  }

  lemma HandHands(s: State, i: nat)
    requires Inv(s) && Enabled(s, Hand) && i < SLOTS && InHands(s, i)
    ensures Shaped(Apply(s, Hand)) && InHands(Apply(s, Hand), i)
    ensures Apply(s, Hand).book[i].phase.Lost? ==> s.book[i].phase.Lost? || LosesSlot(s, Hand, i)
  {
    var j := s.handler.i;
    assert HandlerOk(s.handler, s.count, s.slots, s.book);
    if !Full(s.ring) {
      StaysWaiting(s.ring, Timer(j, s.book[j].id));
    }
  }

  lemma DelegateHands(s: State, arg: nat, i: nat)
    requires Inv(s) && i < SLOTS && InHands(s, i)
    ensures Shaped(Apply(s, Delegate(arg))) && InHands(Apply(s, Delegate(arg)), i)
    ensures Apply(s, Delegate(arg)).book[i].phase.Lost? ==> s.book[i].phase.Lost?
  {
    var s' := Apply(s, Delegate(arg));
    if !Full(s.ring) {
      StaysWaiting(s.ring, Other(arg));
      assert s' == s.(ring := Enqueued(s.ring, Other(arg)), log := s'.log);
    }
  }

  lemma TakeHands(s: State, c: nat, i: nat)
    requires Inv(s) && Enabled(s, Take(c)) && i < SLOTS && InHands(s, i)
    ensures Shaped(Apply(s, Take(c))) && InHands(Apply(s, Take(c)), i)
    ensures Apply(s, Take(c)).book[i].phase.Lost? ==> s.book[i].phase.Lost?
  {
    DequeueDropsFirst(s.ring);
    TakenIsQueued(s, c);
  }

  lemma CoreHands(s: State, e: Event, i: nat)
    requires Inv(s) && Enabled(s, e) && i < SLOTS && InHands(s, i) && (e.Call? || e.Return? || e.Release?)
    ensures Shaped(Apply(s, e)) && InHands(Apply(s, e), i)
    ensures Apply(s, e).book[i].phase.Lost? ==> s.book[i].phase.Lost?
  {
    assert CoreOk(s.cores[e.c], e.c, s.book);
  }

  lemma StepHands(s: State, e: Event, i: nat)
    requires Inv(s) && Enabled(s, e) && i < SLOTS && InHands(s, i)
    ensures Shaped(Apply(s, e)) && InHands(Apply(s, e), i)
    ensures Apply(s, e).book[i].phase.Lost? ==> s.book[i].phase.Lost? || LosesSlot(s, e, i)
  {
    match e
    case Hand => HandHands(s, i);
    case Delegate(arg) => DelegateHands(s, arg, i);
    case Take(c) => TakeHands(s, c, i);
    case Call(_) => CoreHands(s, e, i);
    case Return(_) => CoreHands(s, e, i);
    case Release(_) => CoreHands(s, e, i);
    case Begin(_, _, _, _) =>
    case Try(t) => TryHands(s, t, i);
    case Fill(t) => FillHands(s, t, i);
    case Publish(t) => PublishHands(s, t, i);
    case _ => HandlerHands(s, e, i);
  }

  ghost predicate WasLost(ss: seq<State>, es: seq<Event>, n: nat, i: nat)
    requires |ss| == |es| + 1 && n <= |es|
  {
    exists k :: 0 <= k < n && LosesSlot(ss[k], es[k], i)
  }

  ghost predicate Accounted(ss: seq<State>, es: seq<Event>, n: nat, i: nat)
    requires |ss| == |es| + 1 && n <= |es| && i < SLOTS
  {
    Shaped(ss[n]) && InHands(ss[n], i) && (ss[n].book[i].phase.Lost? ==> WasLost(ss, es, n, i))
  }

  lemma AccountedStep(ss: seq<State>, es: seq<Event>, n: nat, i: nat)
    requires |ss| == |es| + 1 && n < |es| && i < SLOTS && Accounted(ss, es, n, i)
    requires Shaped(ss[n + 1]) && InHands(ss[n + 1], i)
    requires ss[n + 1].book[i].phase.Lost? ==> ss[n].book[i].phase.Lost? || LosesSlot(ss[n], es[n], i)
    ensures Accounted(ss, es, n + 1, i)
  {
  }

  lemma {:induction false} TraceHands(ss: seq<State>, es: seq<Event>, n: nat, i: nat)
    requires IsTrace(ss, es) && n <= |es| && i < SLOTS
    ensures Accounted(ss, es, n, i)
  {
    if n > 0 {
      var m := n - 1;
      TraceHands(ss, es, m, i);
      TraceInv(ss, es, m);
      assert StepAt(ss, es, m);
      StepHands(ss[m], es[m], i);
      AccountedStep(ss, es, m, i);
    }
  }

  /** Nobody arms, the handler is at rest, the ring is empty and every core is ready. */
  predicate Quiet(s: State) {
    && (forall t :: 0 <= t < |s.armers| ==> s.armers[t].Idle?) && s.handler.AtRest? && s.ring.head == s.ring.tail
    && (forall c :: 0 <= c < |s.cores| ==> s.cores[c].Ready?)
  }

  /**
    No slot leaks: whenever nothing is in progress, a slot is free, or armed, or was given up by a
    refusal of the full ring or by a timeout of UINT64_MAX.
   */
  lemma NoSlotLeaks(ss: seq<State>, es: seq<Event>, n: nat, i: nat)
    requires IsTrace(ss, es) && n <= |es| && i < SLOTS && Quiet(ss[n])
    ensures i < |ss[n].slots| && (ss[n].slots[i].ms < MAX || WasLost(ss, es, n, i))
  {
    TraceInv(ss, es, n);
    TraceHands(ss, es, n, i);
    assert SlotOk(ss[n].slots[i], ss[n].book[i], false, ss[n].count, ss[n].ticks);
    assert Waiting(ss[n].ring) == [];
  }

  // ---- the ring, told by the events ----

  /** What a task is about: the callback of a slot, or somebody else's argument. */
  datatype Work = Callback(slot: nat) | Job(arg: nat)

  function WorkOf(t: Task): Work {
    if t.Timer? then Callback(t.slot) else Job(t.arg)
  }

  function Works(ts: seq<Task>): seq<Work> {
    seq(|ts|, (k: int) requires 0 <= k < |ts| => WorkOf(ts[k]))
  }

  /** What event e, in state s, puts on the ring: an expired callback or a delegated job, unless the ring is full. */
  function Submits(s: State, e: Event): seq<Work> {
    match e
    case Delegate(arg) => if Full(s.ring) then [] else [Job(arg)]
    case Hand =>
      if s.handler.Dispatch? && s.handler.i < |s.slots| && s.slots[s.handler.i].cb && !Full(s.ring)
      then [Callback(s.handler.i)] else []
    case _ => []
  }

  /** What event e, in state s, takes off the ring. */
  function TakesOff(s: State, e: Event): seq<Work> {
    if e.Take? && s.ring.tail < |s.ring.buf| then [WorkOf(s.ring.buf[s.ring.tail])] else []
  }

  function Submitted(ss: seq<State>, es: seq<Event>, n: nat): seq<Work>
    requires n <= |es| < |ss|
  {
    if n == 0 then [] else Submitted(ss, es, n - 1) + Submits(ss[n - 1], es[n - 1])
  }

  function TakenOff(ss: seq<State>, es: seq<Event>, n: nat): seq<Work>
    requires n <= |es| < |ss|
  {
    if n == 0 then [] else TakenOff(ss, es, n - 1) + TakesOff(ss[n - 1], es[n - 1])
  }

  lemma WorksAppend(ts: seq<Task>, t: Task)
    ensures Works(ts + [t]) == Works(ts) + [WorkOf(t)] && Works(ts + []) == Works(ts)
  {
    assert ts + [] == ts;
  }

  /** Log l' is log l, or l and one task more, which is about w. */
  ghost predicate Logged(l: seq<Task>, l': seq<Task>, w: seq<Work>) {
    if w == [] then l' == l else |w| == 1 && exists t :: l' == l + [t] && WorkOf(t) == w[0]
  }

  lemma LoggedWorks(l: seq<Task>, l': seq<Task>, w: seq<Work>)
    requires Logged(l, l', w)
    ensures Works(l') == Works(l) + w
  {
    if w != [] {
      var t :| l' == l + [t] && WorkOf(t) == w[0];
      WorksAppend(l, t);
    }
  }

  lemma AcceptedStep(s: State, e: Event)
    requires Shaped(s) && Enabled(s, e)
    ensures Logged(s.log.accepted, Apply(s, e).log.accepted, Submits(s, e))
  {
    if e.Delegate? {
      assert WorkOf(Other(e.arg)) == Job(e.arg);
    } else if e.Hand? {
      assert WorkOf(Timer(s.handler.i, s.book[s.handler.i].id)) == Callback(s.handler.i);
    }
  }

  lemma DequeuedStep(s: State, e: Event)
    requires Shaped(s) && Enabled(s, e)
    ensures Logged(s.log.dequeued, Apply(s, e).log.dequeued, TakesOff(s, e))
  {
  }

  /** The logs grow by what event m submits and takes off. */
  ghost predicate LogsGrow(ss: seq<State>, es: seq<Event>, m: nat) {
    && m < |es| < |ss|
    && Works(ss[m + 1].log.accepted) == Works(ss[m].log.accepted) + Submits(ss[m], es[m])
    && Works(ss[m + 1].log.dequeued) == Works(ss[m].log.dequeued) + TakesOff(ss[m], es[m])
  }

  lemma LogStep(ss: seq<State>, es: seq<Event>, m: nat)
    requires IsTrace(ss, es) && m < |es|
    ensures LogsGrow(ss, es, m)
  {
    assert StepAt(ss, es, m);
    AcceptedStep(ss[m], es[m]);
    DequeuedStep(ss[m], es[m]);
    LoggedWorks(ss[m].log.accepted, ss[m + 1].log.accepted, Submits(ss[m], es[m]));
    LoggedWorks(ss[m].log.dequeued, ss[m + 1].log.dequeued, TakesOff(ss[m], es[m]));
  }

  lemma {:induction false} AcceptedIsSubmitted(ss: seq<State>, es: seq<Event>, n: nat)
    requires n <= |es| < |ss| && Works(ss[0].log.accepted) == [] && forall m :: 0 <= m < n ==> LogsGrow(ss, es, m)
    ensures Works(ss[n].log.accepted) == Submitted(ss, es, n)
  {
    if n > 0 {
      AcceptedIsSubmitted(ss, es, n - 1);
      assert LogsGrow(ss, es, n - 1);
    }
  }

  lemma {:induction false} DequeuedIsTakenOff(ss: seq<State>, es: seq<Event>, n: nat)
    requires n <= |es| < |ss| && Works(ss[0].log.dequeued) == [] && forall m :: 0 <= m < n ==> LogsGrow(ss, es, m)
    ensures Works(ss[n].log.dequeued) == TakenOff(ss, es, n)
  {
    if n > 0 {
      DequeuedIsTakenOff(ss, es, n - 1);
      assert LogsGrow(ss, es, n - 1);
    }
  }

  lemma WorksOfBoth(a: seq<Task>, b: seq<Task>)
    ensures Works(a + b) == Works(a) + Works(b)
  {
  }

  /** In every run the work taken off the ring, and then that still on it, is the work put on it, in order. */
  lemma WorkIsDoneInOrder(ss: seq<State>, es: seq<Event>, n: nat)
    requires IsTrace(ss, es) && n <= |es|
    ensures RingOk(ss[n].ring) && TakenOff(ss, es, n) + Works(Waiting(ss[n].ring)) == Submitted(ss, es, n)
  {
    TraceInv(ss, es, n);
    forall m | 0 <= m < n
      ensures LogsGrow(ss, es, m)
    {
      LogStep(ss, es, m);
    }
    AcceptedIsSubmitted(ss, es, n);
    DequeuedIsTakenOff(ss, es, n);
    WorksOfBoth(ss[n].log.dequeued, Waiting(ss[n].ring));
  }

  /** A core that has taken a timer's task calls its callback, and is inside it after that step. */
  lemma CallbackIsCalled(ss: seq<State>, es: seq<Event>, n: nat, c: nat)
    requires IsTrace(ss, es) && n < |es| && es[n] == Call(c)
    ensures c < |ss[n].cores| && c < |ss[n + 1].cores| && ss[n].cores[c].Calling?
    ensures ss[n + 1].cores[c] == Inside(ss[n].cores[c].slot, ss[n].cores[c].id)
  {
    TraceInv(ss, es, n);
    assert StepAt(ss, es, n);
    var s, i := ss[n], ss[n].cores[c].slot;
    assert CoreOk(s.cores[c], c, s.book);
    assert SlotOk(s.slots[i], s.book[i], s.handler.Reset?, s.count, s.ticks);
  }
}
