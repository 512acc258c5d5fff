/** The path of fibre_scheduler_next for a single fibre that yields to itself refines the full update. */
module SchedulerFastPath {
  import opened List
  import opened Scheduler

  /** Equal up to the state fields of the fibres, which nobody reads. */
  ghost predicate Alike<F>(s: Sched<F>, r: Sched<F>) {
    r == s.(states := r.states)
  }

  /** Whenever the shortcut applies, the full update would dispatch the same fibre and leave the same
      queues, links and fields, except that the fibre's state field would be set. */
  lemma FastPathRefines<F>(s: Sched<F>)
    requires SingleFibre(s)
    ensures Reschedule(s) ==
              if s.current.None? then s else s.(states := s.states[s.current.value := Yielded])
  {
    if s.current.Some? {
      var f := s.current.value;
      var u := UpdateCurrentState(s);
      assert u.runq == [f] && u.timerq == [];
      assert [f][1..] == [];
    }
  }

  // ---------- the state fields are never read ----------

  lemma {:induction false} ScanAlike(x: Descriptor, y: Descriptor, a: seq<Descriptor>, b: seq<Descriptor>)
    requires x.duetime == y.duetime && |a| == |b| && forall i :: 0 <= i < |a| ==> a[i].duetime == b[i].duetime
    ensures Scan(DuetimeCmp, x, a) == Scan(DuetimeCmp, y, b)
  {
    if a != [] {
      ScanAlike(x, y, a[1..], b[1..]);
    }
  }

  lemma InsertIxAlike(x: Descriptor, y: Descriptor, a: seq<Descriptor>, b: seq<Descriptor>)
    requires x.duetime == y.duetime && |a| == |b| && forall i :: 0 <= i < |a| ==> a[i].duetime == b[i].duetime
    ensures InsertIx(DuetimeCmp, x, a) == InsertIx(DuetimeCmp, y, b)
  {
    ScanAlike(x, y, a, b);
  }

  lemma {:induction false} DrainAlike<F>(s: Sched<F>, r: Sched<F>)
    requires Alike(s, r)
    ensures Alike(Drain(s), Drain(r))
    decreases |s.pending|
  {
    if s.pending != [] {
      DrainAlike(s.(pending := s.pending[1..]), r.(pending := r.pending[1..]));
    }
  }

  lemma FibreTimeoutAlike<F>(s: Sched<F>, r: Sched<F>, duetime: nat)
    requires Alike(s, r) && s.current.Some?
    ensures Alike(FibreTimeout(s, duetime), FibreTimeout(r, duetime))
  {
    var f := s.current.value;
    var s1, r1 := s.(dues := s.dues[f := duetime]), r.(dues := r.dues[f := duetime]);
    var a, b := Descs(s1, s.timerq), Descs(r1, r.timerq);
    forall i | 0 <= i < |a| ensures a[i].duetime == b[i].duetime {
    }
    InsertIxAlike(Desc(s1, f), Desc(r1, f), a, b);
  }

  lemma ActAlike<F>(s: Sched<F>, r: Sched<F>, a: Action<F>)
    requires Alike(s, r)
    ensures Permitted(s, a) <==> Permitted(r, a)
    ensures Permitted(s, a) ==> Alike(Act(s, a), Act(r, a))
  {
    DrainAlike(s, r);
    if a.Timeout? && s.current.Some? {
      FibreTimeoutAlike(s, r, a.duetime);
    }
  }

  lemma {:induction false} ActAllAlike<F>(s: Sched<F>, r: Sched<F>, script: seq<Action<F>>)
    requires Alike(s, r)
    ensures AllPermitted(s, script) <==> AllPermitted(r, script)
    ensures AllPermitted(s, script) ==> Alike(ActAll(s, script), ActAll(r, script))
    decreases |script|
  {
    if script != [] {
      ActAlike(s, r, script[0]);
      if Permitted(s, script[0]) {
        ActAllAlike(Act(s, script[0]), Act(r, script[0]), script[1..]);
      }
    }
  }

  lemma {:induction false} HandleTimerqAlike<F>(s: Sched<F>, r: Sched<F>)
    requires Alike(s, r)
    ensures Alike(HandleTimerq(s), HandleTimerq(r))
    decreases |s.timerq|
  {
    if s.timerq != [] && Elapsed(s, Desc(s, s.timerq[0]).duetime) {
      HandleTimerqAlike(s.(timerq := s.timerq[1..], runq := s.runq + [s.timerq[0]]),
                        r.(timerq := r.timerq[1..], runq := r.runq + [r.timerq[0]]));
    }
  }

  lemma UpdateAlike<F>(s: Sched<F>, r: Sched<F>)
    requires Alike(s, r) && s.current.Some?
    ensures Alike(UpdateCurrentState(s), UpdateCurrentState(r))
  {
    var f := s.current.value;
    DrainAlike(s.(states := s.states[f := s.state]), r.(states := r.states[f := r.state]));
  }

  lemma RescheduleAlike<F>(s: Sched<F>, r: Sched<F>)
    requires Alike(s, r)
    ensures Alike(Reschedule(s), Reschedule(r))
  {
    DrainAlike(s, r);
    var d, e := Drain(s), Drain(r);
    if d.current.Some? {
      UpdateAlike(d, e);
    }
    HandleTimerqAlike(UpdateIfAny(d), UpdateIfAny(e));
  }

  // ---------- the scheduler without the shortcut ----------

  function SlowDispatch<F(==)>(s: Sched<F>, t: int): Sched<F> {
    Reschedule(SetClock(s, t))
  }

  predicate SlowEnabled<F(==)>(s: Sched<F>, e: Event<F>) {
    match e
    case Call(_) => Enabled(s, e)
    case Schedule(t, script, _) =>
      SlowDispatch(s, t).current.Some? ==> AllPermitted(SlowDispatch(s, t), script)
  }

  function SlowNext<F(==)>(s: Sched<F>, e: Event<F>): Sched<F>
    requires SlowEnabled(s, e)
  {
    match e
    case Call(a) => Act(s, a)
    case Schedule(t, script, result) => CallEntrypoint(SlowDispatch(s, t), script, result)
  }

  predicate SlowExecutable<F(==)>(s: Sched<F>, events: seq<Event<F>>)
    decreases |events|
  {
    events == [] || (SlowEnabled(s, events[0]) && SlowExecutable(SlowNext(s, events[0]), events[1..]))
  }

  function SlowFinal<F(==)>(s: Sched<F>, events: seq<Event<F>>): Sched<F>
    requires SlowExecutable(s, events)
    decreases |events|
  {
    if events == [] then s else SlowFinal(SlowNext(s, events[0]), events[1..])
  }

  lemma DispatchAlike<F>(s: Sched<F>, r: Sched<F>, t: int)
    requires Alike(s, r)
    ensures Alike(Dispatch(s, t), SlowDispatch(r, t))
  {
    RescheduleAlike(SetClock(s, t), SetClock(r, t));
    if SingleFibre(SetClock(s, t)) {
      FastPathRefines(SetClock(s, t));
    }
  }

  lemma EntrypointAlike<F>(d: Sched<F>, e: Sched<F>, script: seq<Action<F>>, result: FibreState)
    requires Alike(d, e)
    requires (d.current.Some? ==> AllPermitted(d, script)) && (e.current.Some? ==> AllPermitted(e, script))
    ensures Alike(CallEntrypoint(d, script, result), CallEntrypoint(e, script, result))
  {
    ActAllAlike(d, e, script);
  }

  lemma NextAlike<F>(s: Sched<F>, r: Sched<F>, e: Event<F>)
    requires Alike(s, r)
    ensures Enabled(s, e) <==> SlowEnabled(r, e)
    ensures Enabled(s, e) ==> Alike(Next(s, e), SlowNext(r, e))
  {
    match e
    case Call(a) => ActAlike(s, r, a);
    case Schedule(t, script, result) =>
      var d, d' := Dispatch(s, t), SlowDispatch(r, t);
      DispatchAlike(s, r, t);
      ActAllAlike(d, d', script);
      if Enabled(s, e) {
        EntrypointAlike(d, d', script, result);
      }
  }

  lemma WakeupAlike<F>(s: Sched<F>, r: Sched<F>)
    requires Alike(s, r)
    ensures Wakeup(s) == Wakeup(r)
  {
  }

  /** Runs with the shortcut are the runs without it: the same fibres are called, the queues are the
      same and so are the wakeup times. */
  lemma {:induction false} RunAlike<F>(s: Sched<F>, r: Sched<F>, events: seq<Event<F>>)
    requires Alike(s, r)
    ensures Executable(s, events) <==> SlowExecutable(r, events)
    ensures Executable(s, events) ==>
              && Alike(Final(s, events), SlowFinal(r, events))
              && Wakeup(Final(s, events)) == Wakeup(SlowFinal(r, events))
    decreases |events|
  {
    if events == [] {
      WakeupAlike(s, r);
    } else {
      NextAlike(s, r, events[0]);
      if Enabled(s, events[0]) {
        RunAlike(Next(s, events[0]), SlowNext(r, events[0]), events[1..]);
      }
    }
  }
}
