/**
  The reader/writer lock of src/lib/lock.c, as a step relation over any number of threads.

  Every constructor of `Action` is one atomic memory operation of the source (or the local
  decision that follows it), and `Pc` says where a thread stands between two of them.  Weak
  compare-and-swap may fail for no reason, so the failing actions are always enabled.
 */
module RwLock {

  datatype Pc =
    | Idle
    | ReadLoad            // rw_lock_read_lock: about to load `state`
    | ReadCheck(v: int)   // loaded v; about to test it and to load `writers_waiting`
    | ReadCas(v: int)     // past the waiting test; about to swap v for v + 1
    | Reader              // holds the lock for reading
    | UpgradeAnnounced    // upgrading: counted in `writers_waiting`, still reading
    | WriteSpin           // announced, about to swap 0 for -1
    | WriteRetract        // swapped; about to decrement `writers_waiting`
    | Writer              // holds the lock for writing

  datatype Action =
    | BeginRead | LoadState | CheckFail | CheckPass | ReadCasOk | ReadCasFail | ReadUnlock
    | Announce | WriteCasOk | WriteCasFail | Retract | WriteUnlock
    | UpgradeAnnounce | UpgradeRelease | Downgrade

  datatype State = State(state: int, waiting: int, pcs: seq<Pc>)
  datatype Event = Event(t: nat, a: Action)

  function Init(n: nat): State {
    State(0, 0, seq(n, _ => Idle))
  }

  predicate Enabled(s: State, e: Event) {
    e.t < |s.pcs| &&
    var pc := s.pcs[e.t];
    match e.a
    case BeginRead => pc.Idle?
    case LoadState => pc.ReadLoad?
    case CheckFail => pc.ReadCheck? && (pc.v < 0 || s.waiting != 0)
    case CheckPass => pc.ReadCheck? && !(pc.v < 0 || s.waiting != 0)
    case ReadCasOk => pc.ReadCas? && s.state == pc.v
    case ReadCasFail => pc.ReadCas?
    case ReadUnlock => pc.Reader?
    case Announce => pc.Idle?
    case WriteCasOk => pc.WriteSpin? && s.state == 0
    case WriteCasFail => pc.WriteSpin?
    case Retract => pc.WriteRetract?
    case WriteUnlock => pc.Writer?
    case UpgradeAnnounce => pc.Reader?
    case UpgradeRelease => pc.UpgradeAnnounced?
    case Downgrade => pc.Writer?
  }

  function Apply(s: State, e: Event): State
    requires Enabled(s, e)
  {
    var t := e.t;
    match e.a
    case BeginRead => s.(pcs := s.pcs[t := ReadLoad])
    case LoadState => s.(pcs := s.pcs[t := ReadCheck(s.state)])
    case CheckFail => s.(pcs := s.pcs[t := ReadLoad])
    case CheckPass => s.(pcs := s.pcs[t := ReadCas(s.pcs[t].v)])
    case ReadCasOk => s.(state := s.state + 1, pcs := s.pcs[t := Reader])
    case ReadCasFail => s.(pcs := s.pcs[t := ReadLoad])
    case ReadUnlock => s.(state := s.state - 1, pcs := s.pcs[t := Idle])
    case Announce => s.(waiting := s.waiting + 1, pcs := s.pcs[t := WriteSpin])
    case WriteCasOk => s.(state := -1, pcs := s.pcs[t := WriteRetract])
    case WriteCasFail => s
    case Retract => s.(waiting := s.waiting - 1, pcs := s.pcs[t := Writer])
    case WriteUnlock => s.(state := 0, pcs := s.pcs[t := Idle])
    case UpgradeAnnounce => s.(waiting := s.waiting + 1, pcs := s.pcs[t := UpgradeAnnounced])
    case UpgradeRelease => s.(state := s.state - 1, pcs := s.pcs[t := WriteSpin])
    case Downgrade => s.(state := 1, pcs := s.pcs[t := Reader])
  }

  /** A schedule is a run from s when each of its events is enabled in turn. */
  predicate IsRun(s: State, es: seq<Event>)
    decreases es
  {
    es == [] || (Enabled(s, es[0]) && IsRun(Apply(s, es[0]), es[1..]))
  }

  function Exec(s: State, es: seq<Event>): State
    requires IsRun(s, es)
    decreases es
  {
    if es == [] then s else Exec(Apply(s, es[0]), es[1..])
  }

  // ---- counting threads ----

  datatype Role = Reading | Writing | Announced | PastCheck

  predicate Has(r: Role, pc: Pc) {
    match r
    case Reading => pc.Reader? || pc.UpgradeAnnounced?
    case Writing => pc.WriteRetract? || pc.Writer?
    case Announced => pc.UpgradeAnnounced? || pc.WriteSpin? || pc.WriteRetract?
    case PastCheck => pc.ReadCas?
  }

  function One(r: Role, pc: Pc): nat {
    if Has(r, pc) then 1 else 0
  }

  function Count(r: Role, pcs: seq<Pc>): (n: nat)
    ensures n <= |pcs|
  {
    if pcs == [] then 0 else One(r, pcs[0]) + Count(r, pcs[1..])
  }

  lemma {:induction false} CountUpdate(r: Role, pcs: seq<Pc>, t: nat, pc: Pc)
    requires t < |pcs|
    ensures Count(r, pcs[t := pc]) == Count(r, pcs) - One(r, pcs[t]) + One(r, pc)
  {
    if t == 0 {
      assert pcs[t := pc][1..] == pcs[1..];
    } else {
      assert pcs[t := pc][1..] == pcs[1..][t - 1 := pc];
      CountUpdate(r, pcs[1..], t - 1, pc);
    }
  }

  lemma {:induction false} CountIdle(r: Role, n: nat)
    ensures Count(r, seq(n, _ => Idle)) == 0
  {
    if n > 0 {
      assert seq(n, _ => Idle)[1..] == seq(n - 1, _ => Idle);
      CountIdle(r, n - 1);
    }
  }

  lemma {:induction false} CountHas(r: Role, pcs: seq<Pc>, t: nat)
    requires t < |pcs| && Has(r, pcs[t])
    ensures Count(r, pcs) >= 1
  {
    CountUpdate(r, pcs, t, Idle);
  }

  lemma {:induction false} CountHasTwo(r: Role, pcs: seq<Pc>, t: nat, u: nat)
    requires t < |pcs| && u < |pcs| && t != u && Has(r, pcs[t]) && Has(r, pcs[u])
    ensures Count(r, pcs) >= 2
  {
    CountUpdate(r, pcs, t, Idle);
    CountHas(r, pcs[t := Idle], u);
  }

  lemma {:induction false} CountZero(r: Role, pcs: seq<Pc>)
    requires forall t :: 0 <= t < |pcs| ==> !Has(r, pcs[t])
    ensures Count(r, pcs) == 0
  {
    if pcs != [] {
      CountZero(r, pcs[1..]);
    }
  }

  // ---- the invariant ----

  /** The lock word against the numbers of readers and writers. */
  predicate WordOk(state: int, readers: nat, writers: nat) {
    if writers == 0 then state == readers else writers == 1 && readers == 0 && state == -1
  }

  ghost predicate Inv(s: State) {
    && s.waiting == Count(Announced, s.pcs)
    && WordOk(s.state, Count(Reading, s.pcs), Count(Writing, s.pcs))
    && (forall t :: 0 <= t < |s.pcs| && s.pcs[t].ReadCas? ==> s.pcs[t].v >= 0)
  }

  lemma StepCounts(s: State, e: Event, r: Role)
    requires Enabled(s, e)
    ensures var pc' := Apply(s, e).pcs[e.t];
            Count(r, Apply(s, e).pcs) == Count(r, s.pcs) - One(r, s.pcs[e.t]) + One(r, pc')
    ensures Count(r, s.pcs) >= One(r, s.pcs[e.t])
  {
    var pc' := Apply(s, e).pcs[e.t];
    assert Apply(s, e).pcs == s.pcs[e.t := pc'];
    CountUpdate(r, s.pcs, e.t, pc');
    CountUpdate(r, s.pcs, e.t, Idle);
  }

  lemma StepWord(s: State, e: Event, readers: nat, writers: nat)
    requires Enabled(s, e) && WordOk(s.state, readers, writers) && (s.pcs[e.t].ReadCas? ==> s.pcs[e.t].v >= 0)
    requires readers >= One(Reading, s.pcs[e.t]) && writers >= One(Writing, s.pcs[e.t])
    ensures var pc, pc' := s.pcs[e.t], Apply(s, e).pcs[e.t];
            WordOk(Apply(s, e).state, readers - One(Reading, pc) + One(Reading, pc'),
                   writers - One(Writing, pc) + One(Writing, pc'))
  {
  }

  lemma StepWaiting(s: State, e: Event)
    requires Enabled(s, e)
    ensures Apply(s, e).waiting == s.waiting - One(Announced, s.pcs[e.t]) + One(Announced, Apply(s, e).pcs[e.t])
  {
  }

  lemma StepKeepsInv(s: State, e: Event)
    requires Inv(s) && Enabled(s, e)
    ensures Inv(Apply(s, e))
  {
    StepCounts(s, e, Reading);
    StepCounts(s, e, Writing);
    StepCounts(s, e, Announced);
    StepWord(s, e, Count(Reading, s.pcs), Count(Writing, s.pcs));
    StepWaiting(s, e);
  }

  lemma {:induction false} RunKeepsInv(s: State, es: seq<Event>)
    requires Inv(s) && IsRun(s, es)
    ensures Inv(Exec(s, es))
    decreases es
  {
    if es != [] {
      StepKeepsInv(s, es[0]);
      RunKeepsInv(Apply(s, es[0]), es[1..]);
    }
  }

  lemma InitInv(n: nat)
    ensures Inv(Init(n))
  {
    CountIdle(Reading, n);
    CountIdle(Writing, n);
    CountIdle(Announced, n);
  }

  /**
    Safety over every run of any number of threads: `state` is -1 exactly when one writer and no
    reader holds the lock and otherwise is the number of readers, `writers_waiting` is the number
    of threads between announcing and retracting, and both stay within the number of threads.
   */
  lemma StateCountsHolders(n: nat, es: seq<Event>)
    requires IsRun(Init(n), es)
    ensures var s := Exec(Init(n), es);
            && (s.state == -1 <==> Count(Writing, s.pcs) == 1 && Count(Reading, s.pcs) == 0)
            && (s.state != -1 ==> s.state == Count(Reading, s.pcs) && Count(Writing, s.pcs) == 0)
            && s.waiting == Count(Announced, s.pcs)
            && -1 <= s.state <= n && 0 <= s.waiting <= n
  {
    InitInv(n);
    RunKeepsInv(Init(n), es);
    RunKeepsThreads(Init(n), es);
  }

  lemma {:induction false} RunKeepsThreads(s: State, es: seq<Event>)
    requires IsRun(s, es)
    ensures |Exec(s, es).pcs| == |s.pcs|
    decreases es
  {
    if es != [] {
      RunKeepsThreads(Apply(s, es[0]), es[1..]);
    }
  }

  /**
    How the lock is granted, seen from the holders: for reading only while nobody writes, and for
    writing only while nobody holds it at all.
   */
  lemma GrantsRespectHolders(s: State, e: Event, u: nat)
    requires Inv(s) && Enabled(s, e) && u < |s.pcs|
    ensures e.a.ReadCasOk? ==> !Has(Writing, s.pcs[u])
    ensures e.a.WriteCasOk? ==> !Has(Writing, s.pcs[u]) && !Has(Reading, s.pcs[u])
  {
    if e.a.ReadCasOk? || e.a.WriteCasOk? {
      if Has(Writing, s.pcs[u]) {
        CountHas(Writing, s.pcs, u);
      }
      if Has(Reading, s.pcs[u]) {
        CountHas(Reading, s.pcs, u);
      }
    }
  }

  /** Mutual exclusion, thread by thread. */
  lemma MutualExclusion(n: nat, es: seq<Event>, t: nat, u: nat)
    requires IsRun(Init(n), es)
    requires t < |Exec(Init(n), es).pcs| && u < |Exec(Init(n), es).pcs| && t != u
    requires Has(Writing, Exec(Init(n), es).pcs[t])
    ensures !Has(Writing, Exec(Init(n), es).pcs[u]) && !Has(Reading, Exec(Init(n), es).pcs[u])
  {
    InitInv(n);
    RunKeepsInv(Init(n), es);
    var pcs := Exec(Init(n), es).pcs;
    CountHas(Writing, pcs, t);
    if Has(Writing, pcs[u]) {
      CountHasTwo(Writing, pcs, t, u);
    }
    if Has(Reading, pcs[u]) {
      CountHas(Reading, pcs, u);
    }
  }

  // ---- what a thread has, and what it waits for ----

  datatype Mode = Nothing | ForReading | ForWriting

  function HeldAs(pc: Pc): Mode {
    if Has(Writing, pc) then ForWriting else if Has(Reading, pc) then ForReading else Nothing
  }

  function WantedAs(pc: Pc): Mode {
    if pc.ReadLoad? || pc.ReadCheck? || pc.ReadCas? then ForReading
    else if pc.WriteSpin? || pc.UpgradeAnnounced? then ForWriting
    else Nothing
  }

  predicate IsRelease(a: Action) { a.ReadUnlock? || a.WriteUnlock? || a.UpgradeRelease? }

  predicate IsAcquisition(a: Action) { a.ReadCasOk? || a.WriteCasOk? }

  /** Thread t takes a step of the given kind in the run. */
  predicate Does(es: seq<Event>, t: nat, what: Action -> bool) {
    exists i :: 0 <= i < |es| && es[i].t == t && what(es[i].a)
  }

  /** A lock once held is held until the thread's own release; only a downgrade changes writing into reading. */
  lemma {:induction false} HeldUntilReleased(s: State, es: seq<Event>, t: nat)
    requires IsRun(s, es) && t < |s.pcs| && HeldAs(s.pcs[t]) != Nothing && !Does(es, t, IsRelease)
    ensures t < |Exec(s, es).pcs| && HeldAs(Exec(s, es).pcs[t]) != Nothing
    ensures HeldAs(s.pcs[t]) == ForWriting && !Does(es, t, a => a == Downgrade) ==>
              HeldAs(Exec(s, es).pcs[t]) == ForWriting
    ensures HeldAs(s.pcs[t]) == ForReading ==> HeldAs(Exec(s, es).pcs[t]) == ForReading
    decreases es
  {
    if es != [] {
      assert es[0].t == t ==> !IsRelease(es[0].a);
      var s' := Apply(s, es[0]);
      assert HeldAs(s'.pcs[t]) != Nothing;
      RestDoesNot(es, t, IsRelease);
      HeldUntilReleased(s', es[1..], t);
      if !Does(es, t, a => a == Downgrade) {
        RestDoesNot(es, t, a => a == Downgrade);
      }
    }
  }

  lemma RestDoesNot(es: seq<Event>, t: nat, what: Action -> bool)
    requires es != [] && !Does(es, t, what)
    ensures !Does(es[1..], t, what) && (es[0].t == t ==> !what(es[0].a))
  {
    forall i | 0 <= i < |es[1..]|
      ensures !(es[1..][i].t == t && what(es[1..][i].a))
    {
      assert es[1..][i] == es[i + 1];
    }
    assert !(es[0].t == t && what(es[0].a));
  }

  /** A thread that asks for the lock goes on asking for the same until it gets it. */
  lemma {:induction false} AsksUntilServed(s: State, es: seq<Event>, t: nat)
    requires IsRun(s, es) && t < |s.pcs| && WantedAs(s.pcs[t]) != Nothing && !Does(es, t, IsAcquisition)
    ensures t < |Exec(s, es).pcs| && WantedAs(Exec(s, es).pcs[t]) == WantedAs(s.pcs[t])
    decreases es
  {
    if es != [] {
      RestDoesNot(es, t, IsAcquisition);
      AsksUntilServed(Apply(s, es[0]), es[1..], t);
    }
  }

  /** The calls ask for what their names say, and an acquisition gives what was asked for. */
  lemma AsksAndGets(s: State, e: Event)
    requires Enabled(s, e)
    ensures var pc, pc' := s.pcs[e.t], Apply(s, e).pcs[e.t];
            && (e.a.BeginRead? ==> WantedAs(pc') == ForReading && HeldAs(pc') == Nothing)
            && (e.a.Announce? ==> WantedAs(pc') == ForWriting && HeldAs(pc') == Nothing)
            && (e.a.UpgradeAnnounce? ==> WantedAs(pc') == ForWriting && HeldAs(pc') == HeldAs(pc) == ForReading)
            && (IsAcquisition(e.a) ==> HeldAs(pc') == WantedAs(pc) != Nothing)
            && (IsRelease(e.a) ==> HeldAs(pc) != Nothing && HeldAs(pc') == Nothing)
  {
  }

  lemma {:induction false} NoWriterBesideHolder(s: State, es: seq<Event>, t: nat)
    requires Inv(s) && IsRun(s, es) && t < |s.pcs| && HeldAs(s.pcs[t]) != Nothing && !Does(es, t, IsRelease)
    ensures forall i :: 0 <= i < |es| ==> !es[i].a.WriteCasOk?
    decreases es
  {
    if es != [] {
      GrantsRespectHolders(s, es[0], t);
      StepKeepsInv(s, es[0]);
      RestDoesNot(es, t, IsRelease);
      assert HeldAs(Apply(s, es[0]).pcs[t]) != Nothing;
      NoWriterBesideHolder(Apply(s, es[0]), es[1..], t);
      assert forall i :: 0 < i < |es| ==> es[i] == es[1..][i - 1];
    }
  }

  /**
    A downgrade keeps the lock: afterwards the thread reads, and no thread enters for writing before
    its own release, in any run.
   */
  lemma DowngradeKeepsLock(s: State, t: nat, es: seq<Event>)
    requires Inv(s) && Enabled(s, Event(t, Downgrade)) && IsRun(Apply(s, Event(t, Downgrade)), es)
    requires !Does(es, t, IsRelease)
    ensures HeldAs(s.pcs[t]) == ForWriting
    ensures var s' := Exec(Apply(s, Event(t, Downgrade)), es); t < |s'.pcs| && HeldAs(s'.pcs[t]) == ForReading
    ensures forall i :: 0 <= i < |es| ==> !es[i].a.WriteCasOk?
  {
    StepKeepsInv(s, Event(t, Downgrade));
    HeldUntilReleased(Apply(s, Event(t, Downgrade)), es, t);
    NoWriterBesideHolder(Apply(s, Event(t, Downgrade)), es, t);
  }

  lemma FirstThen(s: State, e: Event, es: seq<Event>)
    requires Enabled(s, e) && IsRun(Apply(s, e), es)
    ensures IsRun(s, [e] + es) && Exec(s, [e] + es) == Exec(Apply(s, e), es)
  {
    assert ([e] + es)[1..] == es;
  }

  lemma ReaderEnters(s: State, u: nat) returns (es: seq<Event>)
    requires u < |s.pcs| && s.pcs[u].Idle? && s.waiting == 0 && s.state >= 0
    ensures IsRun(s, es) && !Does(es, u, IsRelease) && forall i :: 0 <= i < |es| ==> es[i].t == u
    ensures |Exec(s, es).pcs| == |s.pcs| && HeldAs(Exec(s, es).pcs[u]) == ForReading
    ensures forall t :: 0 <= t < |s.pcs| && t != u ==> Exec(s, es).pcs[t] == s.pcs[t]
  {
    var s1 := Apply(s, Event(u, BeginRead));
    var s2 := Apply(s1, Event(u, LoadState));
    var s3 := Apply(s2, Event(u, CheckPass));
    var s4 := Apply(s3, Event(u, ReadCasOk));
    assert IsRun(s4, []) && Exec(s4, []) == s4;
    FirstThen(s3, Event(u, ReadCasOk), []);
    FirstThen(s2, Event(u, CheckPass), [Event(u, ReadCasOk)] + []);
    FirstThen(s1, Event(u, LoadState), [Event(u, CheckPass)] + ([Event(u, ReadCasOk)] + []));
    es := [Event(u, LoadState)] + ([Event(u, CheckPass)] + ([Event(u, ReadCasOk)] + []));
    FirstThen(s, Event(u, BeginRead), es);
    es := [Event(u, BeginRead)] + es;
  }

  /** ... while readers get in at once, unless a writer has announced itself. */
  lemma DowngradeLetsReadersIn(s: State, t: nat, u: nat) returns (es: seq<Event>)
    requires Inv(s) && Enabled(s, Event(t, Downgrade)) && u < |s.pcs| && s.pcs[u].Idle? && s.waiting == 0
    ensures IsRun(Apply(s, Event(t, Downgrade)), es) && forall i :: 0 <= i < |es| ==> es[i].t == u
    ensures var pcs := Exec(Apply(s, Event(t, Downgrade)), es).pcs;
            t < |pcs| && u < |pcs| && HeldAs(pcs[t]) == HeldAs(pcs[u]) == ForReading
  {
    var s' := Apply(s, Event(t, Downgrade));
    StepKeepsInv(s, Event(t, Downgrade));
    CountHas(Reading, s'.pcs, t);
    es := ReaderEnters(s', u);
  }

  // ---- bounded overtaking ----

  /** Thread w stays announced in every state of the run. */
  predicate StaysAnnounced(s: State, es: seq<Event>, w: nat)
    requires IsRun(s, es)
    decreases es
  {
    && w < |s.pcs| && Has(Announced, s.pcs[w])
    && (es != [] ==> StaysAnnounced(Apply(s, es[0]), es[1..], w))
  }

  /** How often thread t, or any thread, enters by read-locking. */
  function Entries(es: seq<Event>, t: nat): nat {
    if es == [] then 0
    else (if es[0] == Event(t, ReadCasOk) then 1 else 0) + Entries(es[1..], t)
  }

  function AllEntries(es: seq<Event>): nat {
    if es == [] then 0
    else (if es[0].a.ReadCasOk? then 1 else 0) + AllEntries(es[1..])
  }

  /**
    While a writer (or upgrader) w waits, a thread enters by read-locking at most once, and only
    if it was already past the waiting test when w's wait began; so the number of overtakers is
    bounded by the number of such threads, however long the wait.
   */
  lemma {:induction false} BoundedOvertaking(s: State, es: seq<Event>, w: nat, t: nat)
    requires Inv(s) && IsRun(s, es) && StaysAnnounced(s, es, w) && t < |s.pcs|
    ensures Entries(es, t) <= One(PastCheck, s.pcs[t])
    ensures AllEntries(es) <= Count(PastCheck, s.pcs)
    decreases es
  {
    if es != [] {
      var s' := Apply(s, es[0]);
      CountHas(Announced, s.pcs, w);
      StepKeepsInv(s, es[0]);
      BoundedOvertaking(s', es[1..], w, t);
      assert s'.pcs == s.pcs[es[0].t := s'.pcs[es[0].t]];
      CountUpdate(PastCheck, s.pcs, es[0].t, s'.pcs[es[0].t]);
    }
  }

  // ---- no stuck state ----

  predicate Wants(pc: Pc) {
    pc.ReadLoad? || pc.ReadCheck? || pc.ReadCas? || pc.WriteSpin? || pc.UpgradeAnnounced?
  }

  /** Steps a thread still has to take before it rests without the lock and without an announcement. */
  function Debt(pc: Pc): nat {
    match pc
    case Reader => 1
    case Writer => 1
    case WriteRetract => 2
    case WriteSpin => 3
    case UpgradeAnnounced => 4
    case _ => 0
  }

  function TotalDebt(pcs: seq<Pc>): nat {
    if pcs == [] then 0 else Debt(pcs[0]) + TotalDebt(pcs[1..])
  }

  lemma {:induction false} DebtUpdate(pcs: seq<Pc>, t: nat, pc: Pc)
    requires t < |pcs|
    ensures TotalDebt(pcs[t := pc]) == TotalDebt(pcs) - Debt(pcs[t]) + Debt(pc)
  {
    if t == 0 {
      assert pcs[t := pc][1..] == pcs[1..];
    } else {
      assert pcs[t := pc][1..] == pcs[1..][t - 1 := pc];
      DebtUpdate(pcs[1..], t - 1, pc);
    }
  }

  predicate Acquires(es: seq<Event>, w: nat) {
    es != [] && es[|es| - 1].t == w && (es[|es| - 1].a.ReadCasOk? || es[|es| - 1].a.WriteCasOk?)
  }

  /** The step thread t takes to get out of the way, if it owes one that is enabled now. */
  predicate Leaving(s: State, e: Event) {
    && Enabled(s, e)
    && (e.a.ReadUnlock? || e.a.Retract? || e.a.WriteUnlock? || e.a.UpgradeRelease? || e.a.WriteCasOk?)
  }

  /** In every lawful state where some thread holds or awaits write access, one can make headway. */
  lemma SomeoneCanLeave(s: State, t: nat) returns (e: Event)
    requires Inv(s) && t < |s.pcs| && Debt(s.pcs[t]) > 0
    ensures Leaving(s, e) && Debt(s.pcs[e.t]) > 0
    ensures s.pcs[e.t].WriteSpin? ==> s.pcs[t].WriteSpin? && e.t == t
    decreases s.pcs[t].WriteSpin?
  {
    match s.pcs[t]
    case Reader => e := Event(t, ReadUnlock);
    case Writer => e := Event(t, WriteUnlock);
    case WriteRetract => e := Event(t, Retract);
    case UpgradeAnnounced => e := Event(t, UpgradeRelease);
    case WriteSpin =>
      if u :| 0 <= u < |s.pcs| && (Has(Reading, s.pcs[u]) || Has(Writing, s.pcs[u])) {
        e := SomeoneCanLeave(s, u);
      } else {
        CountZero(Reading, s.pcs);
        CountZero(Writing, s.pcs);
        e := Event(t, WriteCasOk);
      }
  }

  /** Steps of the read loop before the swap succeeds on a lock that stays at 0. */
  function Distance(pc: Pc): nat {
    match pc
    case ReadCas(v) => if v == 0 then 0 else 3
    case ReadCheck(v) => if v == 0 then 1 else if v < 0 then 3 else 4
    case _ => 2
  }

  /** When nobody holds the lock or announces, a thread in the read loop gets in. */
  lemma QuietReaderEnters(s: State, w: nat) returns (es: seq<Event>)
    requires w < |s.pcs| && s.state == 0 && s.waiting == 0
    requires s.pcs[w].ReadLoad? || s.pcs[w].ReadCheck? || s.pcs[w].ReadCas?
    ensures IsRun(s, es) && Acquires(es, w)
    decreases Distance(s.pcs[w])
  {
    var next := match s.pcs[w]
      case ReadLoad => LoadState
      case ReadCheck(v) => if v < 0 then CheckFail else CheckPass
      case ReadCas(v) => if v == 0 then ReadCasOk else ReadCasFail
      case _ => LoadState;
    es := [Event(w, next)];
    if !next.ReadCasOk? {
      var rest := QuietReaderEnters(Apply(s, Event(w, next)), w);
      es := es + rest;
      assert es[1..] == rest;
    }
  }

  lemma LeavingPays(s: State, e: Event, w: nat)
    requires Leaving(s, e) && w < |s.pcs| && Wants(s.pcs[w]) && (e.t == w ==> !e.a.WriteCasOk?)
    ensures TotalDebt(Apply(s, e).pcs) < TotalDebt(s.pcs)
    ensures w < |Apply(s, e).pcs| && Wants(Apply(s, e).pcs[w])
  {
    var pc' := Apply(s, e).pcs[e.t];
    assert Apply(s, e).pcs == s.pcs[e.t := pc'];
    DebtUpdate(s.pcs, e.t, pc');
  }

  /**
    No stuck state: from every lawful state, every thread that wants the lock -- a reader, a
    writer or any of many simultaneous upgraders -- can still get it.
   */
  lemma {:induction false} EveryWaiterCanAcquire(s: State, w: nat) returns (es: seq<Event>)
    requires Inv(s) && w < |s.pcs| && Wants(s.pcs[w])
    ensures IsRun(s, es) && Acquires(es, w)
    decreases TotalDebt(s.pcs)
  {
    if s.pcs[w].WriteSpin? && s.state == 0 {
      es := [Event(w, WriteCasOk)];
    } else if t :| 0 <= t < |s.pcs| && Debt(s.pcs[t]) > 0 && (t == w ==> !s.pcs[t].WriteSpin?) {
      var e := SomeoneCanLeave(s, t);
      if e.t == w && e.a.WriteCasOk? {
        es := [e];
      } else {
        StepKeepsInv(s, e);
        LeavingPays(s, e, w);
        var rest := EveryWaiterCanAcquire(Apply(s, e), w);
        es := [e] + rest;
        assert es[1..] == rest;
      }
    } else {
      // Only w can still be announced, and then nothing holds the lock.
      CountZero(Reading, s.pcs);
      CountZero(Writing, s.pcs);
      if !s.pcs[w].WriteSpin? {
        CountZero(Announced, s.pcs);
        es := QuietReaderEnters(s, w);
      } else {
        assert false;
      }
    }
  }

  // ---- a release by a thread that does not hold the lock ----

  /** rw_lock_read_unlock by a thread that has given its read lock back already. */
  function ReleasedTwice(s: State): State {
    s.(state := s.state - 1)
  }

  predicate Held(s: State) {
    exists t :: 0 <= t < |s.pcs| && (Has(Reading, s.pcs[t]) || Has(Writing, s.pcs[t]))
  }

  predicate Enters(es: seq<Event>) {
    exists i :: 0 <= i < |es| && (es[i].a.ReadCasOk? || es[i].a.WriteCasOk?)
  }

  /** `state` is negative although nobody holds the lock for writing. */
  ghost predicate Wedged(s: State) {
    && s.state < 0
    && (forall t :: 0 <= t < |s.pcs| ==> !Has(Writing, s.pcs[t]) && (s.pcs[t].ReadCas? ==> s.pcs[t].v >= 0))
  }

  /** A wedged lock stays wedged: in no run whatsoever does any thread acquire it again. */
  lemma {:induction false} WedgedForever(s: State, es: seq<Event>)
    requires Wedged(s) && IsRun(s, es)
    ensures Wedged(Exec(s, es)) && !Enters(es)
    decreases es
  {
    if es != [] {
      WedgedForever(Apply(s, es[0]), es[1..]);
      forall i | 0 <= i < |es|
        ensures !es[i].a.ReadCasOk? && !es[i].a.WriteCasOk?
      {
        assert i > 0 ==> es[i] == es[1..][i - 1];
      }
    }
  }

  /** On a lawful lock the second release wedges it at once if and only if nobody holds it. */
  lemma WedgesIffUnheld(s: State)
    requires Inv(s)
    ensures Wedged(ReleasedTwice(s)) <==> !Held(s)
  {
    if t :| 0 <= t < |s.pcs| && (Has(Reading, s.pcs[t]) || Has(Writing, s.pcs[t])) {
      if Has(Reading, s.pcs[t]) {
        CountHas(Reading, s.pcs, t);
        if Wedged(ReleasedTwice(s)) {
          CountZero(Writing, s.pcs);
        }
      }
    } else {
      CountZero(Reading, s.pcs);
      CountZero(Writing, s.pcs);
    }
  }

  lemma {:induction false} SomeoneHas(r: Role, pcs: seq<Pc>) returns (t: nat)
    requires Count(r, pcs) > 0
    ensures t < |pcs| && Has(r, pcs[t])
  {
    if Has(r, pcs[0]) {
      t := 0;
    } else {
      t := SomeoneHas(r, pcs[1..]);
      t := t + 1;
    }
  }

  /**
    With readers inside, the second release makes room for a writer: when all readers but one have
    left, `state` is 0 and thread u locks for writing beside the last reader r.
   */
  lemma {:induction false} WriterBesideReader(s: State, u: nat) returns (es: seq<Event>, r: nat)
    requires Count(Writing, s.pcs) == 0 && s.state == Count(Reading, s.pcs) - 1 >= 0 && u < |s.pcs| && s.pcs[u].Idle?
    ensures IsRun(s, es) && Acquires(es, u)
    ensures var pcs := Exec(s, es).pcs; u < |pcs| && r < |pcs| && Has(Writing, pcs[u]) && Has(Reading, pcs[r])
    decreases s.state
  {
    r := SomeoneHas(Reading, s.pcs);
    if s.state == 0 {
      var s1 := Apply(s, Event(u, Announce));
      es := [Event(u, Announce), Event(u, WriteCasOk)];
      assert es[1..] == [Event(u, WriteCasOk)] && es[1..][1..] == [];
      assert Exec(s, es) == Exec(s1, es[1..]) == Apply(s1, Event(u, WriteCasOk));
    } else {
      var e := Event(r, if s.pcs[r].Reader? then ReadUnlock else UpgradeRelease);
      var s1 := Apply(s, e);
      assert s1.pcs == s.pcs[r := s1.pcs[r]];
      CountUpdate(Reading, s.pcs, r, s1.pcs[r]);
      CountUpdate(Writing, s.pcs, r, s1.pcs[r]);
      var rest;
      rest, r := WriterBesideReader(s1, u);
      es := [e] + rest;
      assert es[1..] == rest;
    }
  }

  /** Between a second release that meets a writer and the writer's own release. */
  ghost predicate Overdrawn(s: State) {
    s.state < -1 && Count(Writing, s.pcs) == 1 && Inv(s.(state := -1))
  }

  /** A writer inside heals the word: nobody enters before it stores 0 or 1, and then all is lawful again. */
  lemma WriterHeals(s: State, e: Event)
    requires Overdrawn(s) && Enabled(s, e)
    ensures !e.a.ReadCasOk? && !e.a.WriteCasOk?
    ensures if e.a.WriteUnlock? || e.a.Downgrade? then Inv(Apply(s, e)) else Overdrawn(Apply(s, e))
  {
    var lawful, s' := s.(state := -1), Apply(s, e);
    if e.a.ReadUnlock? || e.a.UpgradeRelease? {
      CountHas(Reading, s.pcs, e.t);
    }
    if e.a.LoadState? {
      StepCounts(s, e, Reading);
      StepCounts(s, e, Writing);
      StepCounts(s, e, Announced);
    } else {
      StepKeepsInv(lawful, e);
      assert Apply(lawful, e) == if e.a.WriteUnlock? || e.a.Downgrade? then s' else s'.(state := -1);
    }
  }

  lemma EntersAfterWriter(s: State, w: nat, u: nat) returns (es: seq<Event>)
    requires Overdrawn(s) && w < |s.pcs| && Has(Writing, s.pcs[w]) && u < |s.pcs| && s.pcs[u].Idle?
    ensures IsRun(s, es) && Enters(es)
    decreases s.pcs[w].WriteRetract?
  {
    if s.pcs[w].WriteRetract? {
      var e := Event(w, Retract);
      WriterHeals(s, e);
      var rest := EntersAfterWriter(Apply(s, e), w, u);
      es := [e] + rest;
      assert es[1..] == rest;
      var i :| 0 <= i < |rest| && (rest[i].a.ReadCasOk? || rest[i].a.WriteCasOk?);
      assert es[i + 1] == rest[i];
    } else {
      var s1 := Apply(s, Event(w, WriteUnlock));
      es := [Event(w, WriteUnlock), Event(u, Announce), Event(u, WriteCasOk)];
      assert es[1..] == [Event(u, Announce), Event(u, WriteCasOk)] && IsRun(Apply(s1, es[1]), [Event(u, WriteCasOk)]);
      assert es[1..][1..] == [Event(u, WriteCasOk)] && es[1..][1..][1..] == [];
      assert es[2].a.WriteCasOk?;
    }
  }

  /**
    The exact condition, over all runs: after the second release by thread u, which is idle then, no
    thread ever acquires the lock again if and only if nobody held it.
   */
  lemma UnbalancedReleaseWedges(s: State, u: nat)
    requires Inv(s) && u < |s.pcs| && s.pcs[u].Idle?
    ensures (forall es :: IsRun(ReleasedTwice(s), es) ==> !Enters(es)) <==> !Held(s)
  {
    var s' := ReleasedTwice(s);
    WedgesIffUnheld(s);
    if Held(s) {
      if Count(Writing, s.pcs) == 0 {
        var t :| 0 <= t < |s.pcs| && (Has(Reading, s.pcs[t]) || Has(Writing, s.pcs[t]));
        if Has(Writing, s.pcs[t]) {
          CountHas(Writing, s.pcs, t);
        } else {
          CountHas(Reading, s.pcs, t);
        }
        var es, r := WriterBesideReader(s', u);
        assert Enters(es);
      } else {
        var w := SomeoneHas(Writing, s.pcs);
        var es := EntersAfterWriter(s', w, u);
      }
    } else {
      forall es | IsRun(s', es)
        ensures !Enters(es)
      {
        WedgedForever(s', es);
      }
    }
  }

  /** Two threads: one reads, the other has released twice; then a writer enters beside the reader. */
  lemma ReaderAndWriterTogether()
    ensures var before := [Event(0, BeginRead), Event(0, LoadState), Event(0, CheckPass), Event(0, ReadCasOk)];
            && IsRun(Init(2), before) && Exec(Init(2), before).pcs[0].Reader?
            && var s := ReleasedTwice(Exec(Init(2), before));
               && IsRun(s, [Event(1, Announce), Event(1, WriteCasOk)])
               && Exec(s, [Event(1, Announce), Event(1, WriteCasOk)]).pcs == [Reader, WriteRetract]
  {
  }
}
