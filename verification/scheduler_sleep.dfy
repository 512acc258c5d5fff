/** From the call of fibre_timeout to the call of the fibre that it wakes. */
module SchedulerSleep {
  import opened Scheduler
  import opened SchedulerTime
  import opened Words
  import opened Wrappers

  /** fibre_timeout stores the due time asked for and changes no other field of any fibre; it changes
      nothing at all if the time has come. */
  lemma TimeoutStores<F>(s: Sched<F>, duetime: nat, g: F)
    requires s.current.Some?
    ensures var r := FibreTimeout(s, duetime);
      Desc(r, g) == if !Elapsed(s, duetime) && s.current == Some(g) then Desc(s, g).(duetime := duetime) else Desc(s, g)
    ensures Elapsed(s, duetime) ==> FibreTimeout(s, duetime) == s
  {
  }

  /** The due time that a fibre asks for when it is to sleep for n ticks. */
  function After<F>(s: Sched<F>, n: int): nat {
    (s.now + n) % WORD
  }

  /** A time up to half a turn ahead lies ahead, by as much as was asked for; any other has elapsed. */
  lemma AheadBy<F>(s: Sched<F>, n: int)
    requires s.now < WORD && -HALF <= n < HALF
    ensures CycleCmp32(After(s, n), s.now) == n
    ensures Elapsed(s, After(s, n)) <==> n <= 0
  {
    SignedIs(After(s, n) - s.now, n);
  }

  /** The longest sleep there is. */
  lemma UnboundedSleep<F>(s: Sched<F>)
    requires s.now < WORD
    ensures !Elapsed(s, After(s, UNBOUNDED_SLEEP)) && Elapsed(s, After(s, UNBOUNDED_SLEEP + 1))
  {
    AheadBy(s, UNBOUNDED_SLEEP);
    AheadBy(s, -HALF);
    assert (s.now + HALF) % WORD == (s.now - HALF) % WORD;
  }

  /** In true time, the fibre is due that much later than now, on the timer queue unless it is runnable. */
  lemma TimeoutDue<F>(s: Sched<F>, n: int)
    requires Inv(s) && Timely(s) && 0 < n < HALF && Permitted(s, Timeout(After(s, n))) && s.current.Some?
    ensures var r, f := FibreTimeout(s, After(s, n)), s.current.value;
      && DueTime(r, f) == s.clock + n && r.clock == s.clock
      && (f !in s.runq ==> f in r.timerq) && r.runq == s.runq && r.pending == s.pending
  {
    AheadBy(s, n);
    FibreTimeoutKeepsInv(s, After(s, n));
    TimeoutStores(s, After(s, n), s.current.value);
  }

  // ---------- asleep ----------

  /** A sleeping fibre that nobody asks for. */
  ghost predicate Asleep<F>(s: Sched<F>, f: F, due: int) {
    f in s.timerq && f !in s.pending && DueTime(s, f) == due
  }

  predicate Names<F(==)>(a: Action<F>, f: F) {
    (a.Run? || a.RunAtomic? || a.Kill?) && a.f == f
  }

  ghost predicate EventNames<F>(e: Event<F>, f: F) {
    match e
    case Call(a) => Names(a, f)
    case Schedule(_, script, _) => exists a :: a in script && Names(a, f)
  }

  lemma StillAsleep<F>(s: Sched<F>, r: Sched<F>, f: F, due: int)
    requires Asleep(s, f, due) && SameClocks(s, r) && f in r.timerq && f !in r.pending
    ensures Asleep(r, f, due)
  {
    SameSleep(s, r, f);
  }

  lemma RunLeavesAsleep<F>(s: Sched<F>, g: F, f: F, due: int)
    requires Inv(s) && Asleep(s, f, due) && g != f
    ensures Asleep(FibreRun(s, g), f, due)
  {
    FibreRunKeepsInv(s, g);
    DrainServes(s);
    StillAsleep(s, FibreRun(s, g), f, due);
  }

  lemma KillLeavesAsleep<F>(s: Sched<F>, g: F, f: F, due: int)
    requires Inv(s) && Asleep(s, f, due) && g != f
    ensures Asleep(FibreKill(s, g), f, due)
  {
    FibreKillRemoves(s, g);
    DrainServes(s);
    StillAsleep(s, FibreKill(s, g), f, due);
  }

  lemma TimeoutLeavesAsleep<F>(s: Sched<F>, duetime: nat, f: F, due: int)
    requires Inv(s) && Asleep(s, f, due) && Permitted(s, Timeout(duetime))
    ensures Asleep(FibreTimeout(s, duetime), f, due)
  {
    FibreTimeoutKeepsInv(s, duetime);
    TimeoutStores(s, duetime, f);
  }

  lemma ActLeavesAsleep<F>(s: Sched<F>, a: Action<F>, f: F, due: int)
    requires Inv(s) && Asleep(s, f, due) && Permitted(s, a) && !Names(a, f)
    ensures Asleep(Act(s, a), f, due)
  {
    match a
    case Run(g) => RunLeavesAsleep(s, g, f, due);
    case RunAtomic(g) => StillAsleep(s, FibreRunAtomic(s, g), f, due);
    case Kill(g) => KillLeavesAsleep(s, g, f, due);
    case Timeout(duetime) => TimeoutLeavesAsleep(s, duetime, f, due);
    case SaveResumePoint(_) => StillAsleep(s, Act(s, a), f, due);
  }

  lemma {:induction false} ActAllLeavesAsleep<F>(s: Sched<F>, script: seq<Action<F>>, f: F, due: int)
    requires Inv(s) && Asleep(s, f, due) && AllPermitted(s, script)
    requires forall a :: a in script ==> !Names(a, f)
    ensures Asleep(ActAll(s, script), f, due)
    decreases |script|
  {
    if script != [] {
      ActLeavesAsleep(s, script[0], f, due);
      ActKeepsInv(s, script[0]);
      assert forall a :: a in script[1..] ==> a in script;
      ActAllLeavesAsleep(Act(s, script[0]), script[1..], f, due);
    }
  }

  /** In addition, it has not yielded, if it is the fibre called last. */
  ghost predicate Waits<F>(s: Sched<F>, f: F, due: int) {
    Asleep(s, f, due) && !(s.current == Some(f) && s.state == Yielded)
  }

  lemma DispatchLeavesAsleep<F>(s: Sched<F>, t: int, f: F, due: int)
    requires Inv(s) && Timely(s) && Paced(s, t) && Waits(s, f, due) && t < due
    ensures Asleep(Dispatch(s, t), f, due) && Dispatch(s, t).current != Some(f)
  {
    WakesWhenDue(s, t, f);
    DispatchKeepsInv(s, t);
    DispatchKeepsDues(s, t);
    SetClockKeepsOrder(s, t);
    var d := Dispatch(s, t);
    assert Desc(d, f).duetime == Desc(s, f).duetime;
  }

  lemma DispatchKeepsDues<F>(s: Sched<F>, t: int)
    ensures Dispatch(s, t).dues == s.dues && Dispatch(s, t).now == t % WORD && Dispatch(s, t).clock == t
  {
    var s1 := SetClock(s, t);
    if !SingleFibre(s1) {
      DrainAppends(s1);
      UpdateKeepsDues(Drain(s1));
      ExpiryKeepsDues(UpdateIfAny(Drain(s1)));
    }
  }

  lemma ExpiryKeepsDues<F>(u: Sched<F>)
    ensures var r := GetNextTask(HandleTimerq(u)); r.dues == u.dues && r.now == u.now && r.clock == u.clock
  {
    HandleTimerqIs(u);
  }

  lemma NextLeavesAsleep<F>(s: Sched<F>, e: Event<F>, f: F, due: int)
    requires Inv(s) && Timely(s) && Enabled(s, e) && Waits(s, f, due) && !EventNames(e, f)
    requires e.Schedule? ==> Paced(s, e.t) && e.t < due
    ensures Waits(Next(s, e), f, due)
  {
    match e
    case Call(a) =>
      ActLeavesAsleep(s, a, f, due);
      ActKeepsState(s, a);
    case Schedule(t, script, result) =>
      var d := Dispatch(s, t);
      DispatchLeavesAsleep(s, t, f, due);
      DispatchKeepsInv(s, t);
      if d.current.Some? {
        ActAllLeavesAsleep(d, script, f, due);
        ActAllKeepsInv(d, script);
        StillAsleep(ActAll(d, script), Next(s, e), f, due);
      }
  }

  lemma ActKeepsState<F>(s: Sched<F>, a: Action<F>)
    requires Permitted(s, a)
    ensures Act(s, a).state == s.state && Act(s, a).current == s.current
  {
    DrainAppends(s);
  }

  /** Until it is due, whatever happens, it sleeps on unless somebody asks for it or kills it. */
  lemma {:induction false} SleepsOn<F>(s: Sched<F>, events: seq<Event<F>>, f: F, due: int)
    requires Inv(s) && Timely(s) && Executable(s, events) && AllPaced(s, events) && Waits(s, f, due)
    requires forall e :: e in events ==> !EventNames(e, f) && (e.Schedule? ==> e.t < due)
    ensures var r := Final(s, events); Inv(r) && Timely(r) && Waits(r, f, due)
    decreases |events|
  {
    if events != [] {
      var e := events[0];
      NextLeavesAsleep(s, e, f, due);
      NextKeepsInv(s, e);
      NextKeepsOrder(s, e);
      assert forall e1 :: e1 in events[1..] ==> e1 in events;
      SleepsOn(Next(s, e), events[1..], f, due);
    }
  }

  /** The first call of the scheduler at or after the due time makes it runnable, however many calls there
      were before that time, and none of these does. */
  lemma WakesAtFirstCall<F>(s: Sched<F>, events: seq<Event<F>>, f: F, due: int, t: int)
    requires Inv(s) && Timely(s) && Executable(s, events) && AllPaced(s, events) && Waits(s, f, due)
    requires forall e :: e in events ==> !EventNames(e, f) && (e.Schedule? ==> e.t < due)
    requires Paced(Final(s, events), t)
    ensures var d := Dispatch(Final(s, events), t);
      && (due <= t <==> f in d.runq || d.current == Some(f))
      && (due > t <==> f in d.timerq)
  {
    SleepsOn(s, events, f, due);
    WakesWhenDue(Final(s, events), t, f);
  }

  /** A fibre that calls fibre_timeout(now + n) and then waits: it is made runnable by the first call of
      the scheduler that comes n ticks later or after that, unless somebody else asks for it or kills it. */
  lemma TimeoutWakes<F>(s: Sched<F>, n: int, f: F, events: seq<Event<F>>, t: int)
    requires Inv(s) && Timely(s) && 0 < n < HALF && s.current == Some(f)
    requires f !in s.runq && f !in s.timerq && f !in s.pending
    requires var r := FibreTimeout(s, After(s, n)).(state := Waiting);
      && Executable(r, events) && AllPaced(r, events) && Paced(Final(r, events), t)
      && forall e :: e in events ==> !EventNames(e, f) && (e.Schedule? ==> e.t < s.clock + n)
    ensures var r := FibreTimeout(s, After(s, n)).(state := Waiting); var d := Dispatch(Final(r, events), t);
      && (s.clock + n <= t <==> f in d.runq || d.current == Some(f))
      && (s.clock + n > t <==> f in d.timerq)
  {
    var r0 := FibreTimeout(s, After(s, n));
    var r := r0.(state := Waiting);
    TimeoutDue(s, n);
    FibreTimeoutKeepsInv(s, After(s, n));
    FibreTimeoutKeepsOrder(s, After(s, n));
    SameTimesKeepOrder(r0, r);
    SameSleep(r0, r, f);
    WakesAtFirstCall(r, events, f, s.clock + n, t);
  }
}
