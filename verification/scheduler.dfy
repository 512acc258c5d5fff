/** The fibre scheduler of librfn/fibre.c as functions on its abstract state: the run queue, the timer
    queue and the pending atomic requests are sequences of fibres. An entrypoint is the sequence of
    scheduler functions it calls, followed by the state it returns. */
module Scheduler {
  import opened List
  import opened Sequences
  import opened Words
  import opened Wrappers

  const UNBOUNDED_SLEEP := 0x7fff_ffff
  const ATOMIC_SLOTS := 8

  /** cyclecmp32 of librfn/util.c. */
  function CycleCmp32(a: int, b: int): int {
    Signed32(a - b)
  }

  datatype FibreState = Yielded | Waiting | Exited | Failed

  /** The fields of a fibre other than its link and its entrypoint. */
  datatype Descriptor = Descriptor(state: FibreState, priv: nat, duetime: nat)

  function DuetimeCmp(a: Descriptor, b: Descriptor): int {
    Signed32(a.duetime - b.duetime)
  }

  /** clock is the time that now is a residue of; arrival numbers the fibres in the order in which
      they entered the timer queue. */
  datatype Sched<F> = Sched(
    current: Option<F>, state: FibreState, now: nat,
    runq: seq<F>, timerq: seq<F>, pending: seq<F>,
    states: map<F, FibreState>, privs: map<F, nat>, dues: map<F, nat>,
    // history
    clock: int, arrival: map<F, nat>, arrivals: nat)

  function Initial<F>(): Sched<F> {
    Sched(None, Yielded, 0, [], [], [], map[], map[], map[], 0, map[], 0)
  }

  /** A descriptor starts zeroed. */
  function Lookup<F>(states: map<F, FibreState>, privs: map<F, nat>, dues: map<F, nat>, f: F): Descriptor {
    Descriptor(if f in states then states[f] else Yielded,
               if f in privs then privs[f] else 0,
               if f in dues then dues[f] else 0)
  }

  function Desc<F>(s: Sched<F>, f: F): Descriptor {
    Lookup(s.states, s.privs, s.dues, f)
  }

  function Descs<F>(s: Sched<F>, q: seq<F>): (keys: seq<Descriptor>)
    ensures |keys| == |q|
  {
    seq(|q|, i requires 0 <= i < |q| => Desc(s, q[i]))
  }

  // ---------- the functions of fibre.c ----------

  /** fibre_run once the atomic requests are served. */
  function Enqueue<F(==)>(s: Sched<F>, f: F): Sched<F> {
    if f in s.runq then s else s.(timerq := Without(s.timerq, f), runq := s.runq + [f])
  }

  /** handle_atomic_runq: serving a request first serves all later ones. */
  function Drain<F(==)>(s: Sched<F>): Sched<F>
    decreases |s.pending|
  {
    if s.pending == [] then s
    else Enqueue(Drain(s.(pending := s.pending[1..])), s.pending[0])
  }

  function FibreRun<F(==)>(s: Sched<F>, f: F): Sched<F> {
    Enqueue(Drain(s), f)
  }

  function FibreRunAtomic<F>(s: Sched<F>, f: F): Sched<F> {
    if |s.pending| < ATOMIC_SLOTS then s.(pending := s.pending + [f]) else s
  }

  function FibreKill<F(==)>(s: Sched<F>, f: F): Sched<F> {
    var d := Drain(s);
    d.(runq := Without(d.runq, f), timerq := Without(d.timerq, f))
  }

  predicate Elapsed<F>(s: Sched<F>, duetime: nat) {
    CycleCmp32(duetime, s.now) <= 0
  }

  /** The fibre enters the timer queue. */
  function FallAsleep<F(==)>(s: Sched<F>, f: F): Sched<F> {
    s.(timerq := InsertAt(s.timerq, f, InsertIx(DuetimeCmp, Desc(s, f), Descs(s, s.timerq))),
       arrival := s.arrival[f := s.arrivals], arrivals := s.arrivals + 1)
  }

  function FibreTimeout<F(==)>(s: Sched<F>, duetime: nat): Sched<F>
    requires s.current.Some?
  {
    if Elapsed(s, duetime) then s else
    var f, s1 := s.current.value, s.(dues := s.dues[s.current.value := duetime]);
    if f in s1.runq then s1 else FallAsleep(s1, f)
  }

  /** fibre_init clears a descriptor. */
  function FibreInit<F(==)>(s: Sched<F>, f: F): Sched<F> {
    s.(states := s.states - {f}, privs := s.privs - {f}, dues := s.dues - {f})
  }

  function UpdateCurrentState<F(==)>(s: Sched<F>): Sched<F>
    requires s.current.Some?
  {
    var f := s.current.value;
    var s1 := s.(states := s.states[f := s.state]);
    match s.state
    case Yielded => FibreRun(s1, f)
    case Waiting => s1
    case Exited | Failed => s1.(privs := s.privs[f := 0])
  }

  function HandleTimerq<F>(s: Sched<F>): Sched<F>
    decreases |s.timerq|
  {
    if s.timerq != [] && Elapsed(s, Desc(s, s.timerq[0]).duetime)
    then HandleTimerq(s.(timerq := s.timerq[1..], runq := s.runq + [s.timerq[0]]))
    else s
  }

  function GetNextTask<F>(s: Sched<F>): Sched<F> {
    if s.runq == [] then s.(current := None) else s.(current := Some(s.runq[0]), runq := s.runq[1..])
  }

  function UpdateIfAny<F(==)>(s: Sched<F>): Sched<F> {
    if s.current.Some? then UpdateCurrentState(s) else s
  }

  /** The scheduler updates that the path for a single fibre skips. */
  function Reschedule<F(==)>(s: Sched<F>): Sched<F> {
    GetNextTask(HandleTimerq(UpdateIfAny(Drain(s))))
  }

  predicate SingleFibre<F(==)>(s: Sched<F>) {
    s.state == Yielded && s.runq == [] && s.timerq == [] && s.pending == []
  }

  function SetClock<F>(s: Sched<F>, t: int): Sched<F> {
    s.(now := t % WORD, clock := t)
  }

  /** fibre_scheduler_next up to the call of the entrypoint. */
  function Dispatch<F(==)>(s: Sched<F>, t: int): Sched<F> {
    var s1 := SetClock(s, t);
    if SingleFibre(s1) then s1 else Reschedule(s1)
  }

  function NextWakeup<F(==)>(s: Sched<F>): nat {
    if s.pending != [] || s.runq != [] then s.now
    else if s.timerq == [] then (s.now + UNBOUNDED_SLEEP) % WORD
    else Desc(s, s.timerq[0]).duetime
  }

  /** The value that fibre_scheduler_next returns when it leaves the scheduler in a state. */
  function Wakeup<F(==)>(s: Sched<F>): nat {
    if s.current.Some? && s.state == Yielded then s.now else NextWakeup(s)
  }

  // ---------- what fibres and their callers do ----------

  datatype Action<F> =
    | Run(f: F)
    | RunAtomic(f: F)
    | Kill(f: F)
    | Timeout(duetime: nat)
    | SaveResumePoint(priv: nat)  // the fibre stores its own protothread state

  /** fibre_timeout is called by the current fibre, which is not sleeping already when it has to be
      put to sleep. Without that, the assertion of list_insert_sorted is at stake. */
  predicate Permitted<F(==)>(s: Sched<F>, a: Action<F>) {
    match a
    case Timeout(duetime) =>
      s.current.Some? && duetime < WORD && (s.current.value in s.timerq ==> Elapsed(s, duetime))
    case SaveResumePoint(_) => s.current.Some?
    case _ => true
  }

  function Act<F(==)>(s: Sched<F>, a: Action<F>): Sched<F>
    requires Permitted(s, a)
  {
    match a
    case Run(f) => FibreRun(s, f)
    case RunAtomic(f) => FibreRunAtomic(s, f)
    case Kill(f) => FibreKill(s, f)
    case Timeout(duetime) => FibreTimeout(s, duetime)
    case SaveResumePoint(p) => s.(privs := s.privs[s.current.value := p])
  }

  predicate AllPermitted<F(==)>(s: Sched<F>, script: seq<Action<F>>)
    decreases |script|
  {
    script == [] || (Permitted(s, script[0]) && AllPermitted(Act(s, script[0]), script[1..]))
  }

  function ActAll<F(==)>(s: Sched<F>, script: seq<Action<F>>): Sched<F>
    requires AllPermitted(s, script)
    decreases |script|
  {
    if script == [] then s else ActAll(Act(s, script[0]), script[1..])
  }

  /** Something that happens to the scheduler: a call from outside the fibres, such as an interrupt
      handler's fibre_run_atomic, or fibre_scheduler_next at time t, with the behaviour of the
      entrypoint that it calls, if any. */
  datatype Event<F> = Call(a: Action<F>) | Schedule(t: int, script: seq<Action<F>>, result: FibreState)

  predicate Enabled<F(==)>(s: Sched<F>, e: Event<F>) {
    match e
    case Call(a) => a.Run? || a.RunAtomic? || a.Kill?
    case Schedule(t, script, _) =>
      var d := Dispatch(s, t);
      d.current.Some? ==> AllPermitted(d, script)
  }

  /** The entrypoint of the current fibre, if there is one. */
  function CallEntrypoint<F(==)>(d: Sched<F>, script: seq<Action<F>>, result: FibreState): Sched<F>
    requires d.current.Some? ==> AllPermitted(d, script)
  {
    if d.current.None? then d else ActAll(d, script).(state := result)
  }

  function Next<F(==)>(s: Sched<F>, e: Event<F>): Sched<F>
    requires Enabled(s, e)
  {
    match e
    case Call(a) => Act(s, a)
    case Schedule(t, script, result) => CallEntrypoint(Dispatch(s, t), script, result)
  }

  predicate Executable<F(==)>(s: Sched<F>, events: seq<Event<F>>)
    decreases |events|
  {
    events == [] || (Enabled(s, events[0]) && Executable(Next(s, events[0]), events[1..]))
  }

  /** The state after a run. */
  function Final<F(==)>(s: Sched<F>, events: seq<Event<F>>): Sched<F>
    requires Executable(s, events)
    decreases |events|
  {
    if events == [] then s else Final(Next(s, events[0]), events[1..])
  }

  // ---------- safety ----------


  ghost predicate Inv<F>(s: Sched<F>) {
    && Distinct(s.runq) && Distinct(s.timerq)
    && (forall f :: f in s.runq ==> f !in s.timerq)
    && |s.pending| <= ATOMIC_SLOTS
  }

  lemma {:induction false} WithoutKeeps<A>(s: seq<A>, x: A)
    requires Distinct(s)
    ensures Distinct(Without(s, x))
    ensures forall y :: y in Without(s, x) ==> y in s && y != x
    ensures forall y :: y in s && y != x ==> y in Without(s, x)
  {
    if s != [] {
      assert s[0] !in s[1..];
      assert s == [s[0]] + s[1..];
      if s[0] != x {
        WithoutKeeps(s[1..], x);
      }
    }
  }

  lemma EnqueueKeepsInv<F>(s: Sched<F>, f: F)
    requires Inv(s)
    ensures var s' := Enqueue(s, f);
      && Inv(s') && f in s'.runq && s.runq <= s'.runq
      && (forall g :: g in s'.timerq ==> g in s.timerq && g != f)
      && (forall g :: g in s.timerq && g != f ==> g in s'.timerq)
  {
    WithoutKeeps(s.timerq, f);
  }

  /** The fibres that atomic requests add to the run queue. */
  ghost function Requested<F>(pending: seq<F>, runq: seq<F>): seq<F> {
    if pending == [] then [] else
    var rest := Requested(pending[1..], runq);
    if pending[0] in runq || pending[0] in rest then rest else rest + [pending[0]]
  }

  ghost function LastIndex<F>(s: seq<F>, f: F): int {
    if s == [] then -1
    else if s[|s| - 1] == f then |s| - 1 else LastIndex(s[..|s| - 1], f)
  }

  lemma {:induction false} LastIndexIs<F>(s: seq<F>, f: F, k: nat)
    requires k < |s| && s[k] == f && f !in s[k + 1..]
    ensures LastIndex(s, f) == k
  {
    if k < |s| - 1 {
      assert s[|s| - 1] == s[k + 1..][|s| - k - 2];
      assert s[..|s| - 1][k + 1..] == s[k + 1..][..|s| - k - 2];
      LastIndexIs(s[..|s| - 1], f, k);
    }
  }

  lemma {:induction false} LastIndexBehind<F>(s: seq<F>, f: F)
    requires s != [] && f in s[1..]
    ensures LastIndex(s, f) == LastIndex(s[1..], f) + 1 > 0
  {
    var n := |s| - 1;
    assert s[1..][n - 1] == s[n];
    if s[n] != f {
      assert s[..n][1..] == s[1..][..n - 1];
      assert f in s[..n][1..] by {
        var i :| 0 <= i < n && s[1..][i] == f;
        assert s[..n][1..][i] == f;
      }
      LastIndexBehind(s[..n], f);
    }
  }

  /** Each fibre that is requested and not yet runnable is added once. Of several requests for a fibre
      the last one counts, and the fibres come in the reverse order of these requests. */
  lemma {:induction false} RequestedInReverse<F>(pending: seq<F>, runq: seq<F>)
    ensures Distinct(Requested(pending, runq))
    ensures forall f :: f in Requested(pending, runq) ==> f in pending && f !in runq
    ensures forall f :: f in pending && f !in runq ==> f in Requested(pending, runq)
    ensures forall i, j :: 0 <= i < j < |Requested(pending, runq)| ==>
              LastIndex(pending, Requested(pending, runq)[i]) > LastIndex(pending, Requested(pending, runq)[j])
  {
    if pending != [] {
      var f, p := pending[0], pending[1..];
      RequestedInReverse(p, runq);
      var rest, r := Requested(p, runq), Requested(pending, runq);
      assert pending == [f] + p;
      forall g | g in rest ensures LastIndex(pending, g) == LastIndex(p, g) + 1 > 0 {
        assert g in p;
        LastIndexBehind(pending, g);
      }
      if r != rest {
        assert f !in p;
        LastIndexIs(pending, f, 0);
      }
    }
  }

  /** handle_atomic_runq empties the request queue and leaves the old run queue as a prefix of the new
      one. */
  lemma {:induction false} DrainAppends<F>(s: Sched<F>)
    ensures Drain(s) == s.(pending := [], runq := s.runq + Requested(s.pending, s.runq), timerq := Drain(s).timerq)
    decreases |s.pending|
  {
    if s.pending != [] {
      var f, s1 := s.pending[0], s.(pending := s.pending[1..]);
      DrainAppends(s1);
      var rest := Requested(s1.pending, s.runq);
      assert s.runq + rest + [f] == s.runq + (rest + [f]);
    }
  }

  /** It takes every requested fibre off the timer queue. */
  lemma {:induction false} DrainServes<F>(s: Sched<F>)
    requires Inv(s)
    ensures var d := Drain(s);
      && Inv(d)
      && d == s.(pending := [], runq := s.runq + Requested(s.pending, s.runq), timerq := d.timerq)
      && (forall g :: g in d.timerq ==> g in s.timerq && g !in s.pending)
      && (forall g :: g in s.timerq && g !in s.pending ==> g in d.timerq)
    decreases |s.pending|
  {
    DrainAppends(s);
    if s.pending != [] {
      var f, s1 := s.pending[0], s.(pending := s.pending[1..]);
      DrainServes(s1);
      EnqueueKeepsInv(Drain(s1), f);
      assert s.pending == [f] + s1.pending;
      assert f in Drain(s).runq;
    }
  }

  lemma FibreRunKeepsInv<F>(s: Sched<F>, f: F)
    requires Inv(s)
    ensures var r := FibreRun(s, f);
      && Inv(r) && r.pending == [] && f in r.runq && s.runq <= r.runq
      && r.current == s.current && r.state == s.state
      && (forall g :: g in r.timerq ==> g in s.timerq && g !in s.pending && g != f)
      && (forall g :: g in s.timerq && g !in s.pending && g != f ==> g in r.timerq)
  {
    DrainServes(s);
    EnqueueKeepsInv(Drain(s), f);
  }

  /** A killed fibre is in no queue, and no request that is still to be served names it. */
  lemma FibreKillRemoves<F>(s: Sched<F>, f: F)
    requires Inv(s)
    ensures Inv(FibreKill(s, f)) && FibreKill(s, f).pending == []
    ensures f !in FibreKill(s, f).runq && f !in FibreKill(s, f).timerq
    ensures forall g :: g in s.runq + s.pending && g != f ==> g in FibreKill(s, f).runq
    ensures forall g :: g in s.timerq && g !in s.pending && g != f ==> g in FibreKill(s, f).timerq
  {
    DrainServes(s);
    var d := Drain(s);
    RequestedInReverse(s.pending, s.runq);
    WithoutKeeps(d.runq, f);
    WithoutKeeps(d.timerq, f);
  }

  lemma InsertAtKeeps<A>(s: seq<A>, x: A, k: nat)
    requires k <= |s| && Distinct(s) && x !in s
    ensures Distinct(InsertAt(s, x, k))
    ensures forall y :: y in InsertAt(s, x, k) ==> y in s || y == x
    ensures forall y :: y in s + [x] ==> y in InsertAt(s, x, k)
  {
    assert s == s[..k] + s[k..];
  }

  lemma FibreTimeoutKeepsInv<F>(s: Sched<F>, duetime: nat)
    requires Inv(s) && Permitted(s, Timeout(duetime))
    ensures var r := FibreTimeout(s, duetime);
      && Inv(r) && r.runq == s.runq && r.pending == s.pending
      && (forall g :: g in r.timerq ==> g in s.timerq || g == s.current.value)
      && (forall g :: g in s.timerq ==> g in r.timerq)
      && (!Elapsed(s, duetime) && s.current.value !in s.runq ==> s.current.value in r.timerq)
      && r.dues == if Elapsed(s, duetime) then s.dues else s.dues[s.current.value := duetime]
  {
    if !Elapsed(s, duetime) && s.current.value !in s.runq {
      var f := s.current.value;
      var s1 := s.(dues := s.dues[f := duetime]);
      InsertAtKeeps(s.timerq, f, InsertIx(DuetimeCmp, Desc(s1, f), Descs(s1, s.timerq)));
    }
  }

  lemma ActKeepsInv<F>(s: Sched<F>, a: Action<F>)
    requires Inv(s) && Permitted(s, a)
    ensures Inv(Act(s, a))
    ensures Act(s, a).current == s.current && Act(s, a).now == s.now && Act(s, a).clock == s.clock
    ensures !a.Kill? ==> s.runq <= Act(s, a).runq
  {
    match a
    case Run(f) => DrainServes(s); EnqueueKeepsInv(Drain(s), f);
    case Kill(f) => DrainServes(s); FibreKillRemoves(s, f);
    case Timeout(duetime) => FibreTimeoutKeepsInv(s, duetime);
    case _ =>
  }

  /** How many fibres at the head of the timer queue are due. */
  function ExpiredIx<F>(s: Sched<F>): (k: nat)
    ensures k <= |s.timerq|
    decreases |s.timerq|
  {
    if s.timerq != [] && Elapsed(s, Desc(s, s.timerq[0]).duetime)
    then 1 + ExpiredIx(s.(timerq := s.timerq[1..], runq := s.runq + [s.timerq[0]])) else 0
  }

  lemma {:induction false} HandleTimerqIs<F>(s: Sched<F>)
    ensures var k := ExpiredIx(s);
      HandleTimerq(s) == s.(runq := s.runq + s.timerq[..k], timerq := s.timerq[k..])
    decreases |s.timerq|
  {
    if s.timerq != [] && Elapsed(s, Desc(s, s.timerq[0]).duetime) {
      var s1 := s.(timerq := s.timerq[1..], runq := s.runq + [s.timerq[0]]);
      HandleTimerqIs(s1);
      var k := ExpiredIx(s1);
      assert s.runq + [s.timerq[0]] + s.timerq[1..][..k] == s.runq + s.timerq[..k + 1];
    }
  }

  lemma {:induction false} ExpiredPrefix<F>(s: Sched<F>)
    ensures forall i :: 0 <= i < ExpiredIx(s) ==> Elapsed(s, Desc(s, s.timerq[i]).duetime)
    ensures ExpiredIx(s) < |s.timerq| ==> !Elapsed(s, Desc(s, s.timerq[ExpiredIx(s)]).duetime)
    decreases |s.timerq|
  {
    if s.timerq != [] && Elapsed(s, Desc(s, s.timerq[0]).duetime) {
      var s1 := s.(timerq := s.timerq[1..], runq := s.runq + [s.timerq[0]]);
      ExpiredPrefix(s1);
      forall i | 0 < i < ExpiredIx(s) ensures Elapsed(s, Desc(s, s.timerq[i]).duetime) {
        assert s.timerq[i] == s1.timerq[i - 1];
      }
    }
  }

  /** The longest prefix of due fibres moves to the end of the run queue. */
  lemma HandleTimerqSplits<F>(s: Sched<F>)
    ensures var k := ExpiredIx(s);
      && HandleTimerq(s) == s.(runq := s.runq + s.timerq[..k], timerq := s.timerq[k..])
      && (forall i :: 0 <= i < k ==> Elapsed(s, Desc(s, s.timerq[i]).duetime))
      && (k < |s.timerq| ==> !Elapsed(s, Desc(s, s.timerq[k]).duetime))
  {
    HandleTimerqIs(s);
    ExpiredPrefix(s);
  }

  /** Moving the head of one list to the end of another. */
  lemma MovePrefix<A>(from: seq<A>, to: seq<A>, k: nat)
    requires k <= |from| && Distinct(from) && Distinct(to) && forall x :: x in to ==> x !in from
    ensures Distinct(to + from[..k]) && Distinct(from[k..]) && forall x :: x in to + from[..k] ==> x !in from[k..]
  {
    assert forall x :: x in from[..k] ==> x in from;
    assert forall i :: 0 <= i < k ==> from[..k][i] in from[..k];
    forall x | x in to + from[..k] ensures x !in from[k..] {
    }
  }

  lemma HandleTimerqKeepsInv<F>(s: Sched<F>)
    requires Inv(s)
    ensures Inv(HandleTimerq(s)) && s.runq <= HandleTimerq(s).runq && HandleTimerq(s).pending == s.pending
  {
    HandleTimerqIs(s);
    MovePrefix(s.timerq, s.runq, ExpiredIx(s));
  }

  lemma UpdateCurrentStateKeepsInv<F>(s: Sched<F>)
    requires Inv(s) && s.current.Some?
    ensures var u := UpdateCurrentState(s);
      && Inv(u) && s.runq <= u.runq && (s.pending == [] ==> u.pending == [])
      && (s.state == Yielded ==> s.current.value in u.runq)
  {
    var s1 := s.(states := s.states[s.current.value := s.state]);
    if s.state == Yielded {
      FibreRunKeepsInv(s1, s.current.value);
    }
  }

  lemma GetNextTaskKeepsInv<F>(s: Sched<F>)
    requires Inv(s)
    ensures var g := GetNextTask(s);
      && Inv(g)
      && (g.current.Some? ==> g.current.value !in g.runq && g.current.value !in g.timerq)
      && (s.runq != [] ==> g.current == Some(s.runq[0]) && s.runq[1..] == g.runq)
  {
    if s.runq != [] {
      assert s.runq[0] in s.runq;
      assert forall f :: f in s.runq[1..] ==> f in s.runq;
    }
  }

  /** The fibre called in state d comes from the head of the run queue of state s, if that has one, and is
      in no queue any more. */
  ghost predicate Called<F>(s: Sched<F>, d: Sched<F>) {
    && Inv(d) && d.pending == []
    && (d.current.Some? ==> d.current.value !in d.runq && d.current.value !in d.timerq)
    && (s.runq != [] ==> d.current == Some(s.runq[0]) && s.runq[1..] <= d.runq)
    && (d.current.None? ==> d.runq == [])
  }

  lemma UpdateIfAnyKeepsInv<F>(s: Sched<F>)
    requires Inv(s)
    ensures var u := UpdateIfAny(s); Inv(u) && s.runq <= u.runq && (s.pending == [] ==> u.pending == [])
  {
    if s.current.Some? {
      UpdateCurrentStateKeepsInv(s);
    }
  }

  lemma NextTaskIsCalled<F>(s: Sched<F>, h: Sched<F>)
    requires Inv(h) && h.pending == [] && s.runq <= h.runq
    ensures Called(s, GetNextTask(h))
  {
    GetNextTaskKeepsInv(h);
  }

  lemma RescheduleKeepsInv<F>(s: Sched<F>)
    requires Inv(s)
    ensures Called(s, Reschedule(s))
  {
    DrainServes(s);
    var d := Drain(s);
    UpdateIfAnyKeepsInv(d);
    var u := UpdateIfAny(d);
    HandleTimerqKeepsInv(u);
    NextTaskIsCalled(s, HandleTimerq(u));
  }

  /** What is dispatched comes from the head of the run queue, or is the single fibre that yielded; it
      is in no queue when its entrypoint starts. */
  lemma DispatchKeepsInv<F>(s: Sched<F>, t: int)
    requires Inv(s)
    ensures Called(s, Dispatch(s, t))
  {
    var s1 := SetClock(s, t);
    RescheduleKeepsInv(s1);
    assert Called(s1, Reschedule(s1)) ==> Called(s, Reschedule(s1));
  }

  lemma {:induction false} ActAllKeepsInv<F>(s: Sched<F>, script: seq<Action<F>>)
    requires Inv(s) && AllPermitted(s, script)
    ensures Inv(ActAll(s, script))
    ensures ActAll(s, script).current == s.current
    ensures (forall a :: a in script ==> !a.Kill?) ==> s.runq <= ActAll(s, script).runq
    decreases |script|
  {
    if script != [] {
      ActKeepsInv(s, script[0]);
      ActAllKeepsInv(Act(s, script[0]), script[1..]);
      assert forall a :: a in script[1..] ==> a in script;
    }
  }

  lemma NextKeepsInv<F>(s: Sched<F>, e: Event<F>)
    requires Inv(s) && Enabled(s, e)
    ensures Inv(Next(s, e))
  {
    match e
    case Call(a) => ActKeepsInv(s, a);
    case Schedule(t, script, result) =>
      DispatchKeepsInv(s, t);
      if Dispatch(s, t).current.Some? {
        ActAllKeepsInv(Dispatch(s, t), script);
      }
  }

  /** Over every run the queues stay duplicate-free and disjoint. */
  lemma {:induction false} RunKeepsInv<F>(s: Sched<F>, events: seq<Event<F>>)
    requires Inv(s) && Executable(s, events)
    ensures Inv(Final(s, events))
    decreases |events|
  {
    if events != [] {
      NextKeepsInv(s, events[0]);
      RunKeepsInv(Next(s, events[0]), events[1..]);
    }
  }

  // ---------- what becomes of the fibre called last ----------

  /** A fibre that has yielded is runnable again. */
  lemma YieldedIsRunnable<F>(s: Sched<F>, t: int, f: F)
    requires Inv(s) && s.current == Some(f) && s.state == Yielded
    ensures f in Dispatch(s, t).runq || Dispatch(s, t).current == Some(f)
  {
    var s1 := SetClock(s, t);
    if !SingleFibre(s1) {
      var d := Drain(s1);
      DrainServes(s1);
      UpdateCurrentStateKeepsInv(d);
      var u := UpdateCurrentState(d);
      HandleTimerqKeepsInv(u);
      var h := HandleTimerq(u);
      assert f in h.runq && h.runq == [h.runq[0]] + h.runq[1..];
    }
  }

  /** The scheduler's updates record the state of the fibre called last, and an exit or a failure, and
      nothing else, takes its protothread back to the beginning. No other descriptor changes. */
  lemma ExitRestarts<F>(s: Sched<F>, f: F, g: F)
    requires s.current == Some(f)
    ensures Desc(Reschedule(s), g) ==
              if g != f then Desc(s, g)
              else Desc(s, f).(state := s.state,
                               priv := if s.state.Exited? || s.state.Failed? then 0 else Desc(s, f).priv)
  {
    RescheduledTables(s, f);
  }

  lemma RescheduledTables<F>(s: Sched<F>, f: F)
    requires s.current == Some(f)
    ensures var r := Reschedule(s);
      && r.states == s.states[f := s.state] && r.dues == s.dues
      && r.privs == if s.state.Exited? || s.state.Failed? then s.privs[f := 0] else s.privs
  {
    DrainAppends(s);
    var d := Drain(s);
    assert d.current == s.current && d.state == s.state;
    assert d.states == s.states && d.privs == s.privs && d.dues == s.dues;
    UpdatedTables(d, f);
    var u := UpdateCurrentState(d);
    HandleTimerqSplits(u);
    var h := HandleTimerq(u);
    assert h.states == u.states && h.privs == u.privs && h.dues == u.dues;
  }

  lemma UpdatedTables<F>(d: Sched<F>, f: F)
    requires d.current == Some(f)
    ensures var u := UpdateCurrentState(d);
      && u.states == d.states[f := d.state] && u.dues == d.dues
      && u.privs == if d.state.Exited? || d.state.Failed? then d.privs[f := 0] else d.privs
  {
    if d.state == Yielded {
      DrainAppends(d.(states := d.states[f := d.state]));
    }
  }

  /** A fibre that is in no queue, that nobody requests and that has not yielded is not called. */
  lemma WaitsUntilWoken<F>(s: Sched<F>, t: int, f: F)
    requires Inv(s) && f !in s.runq && f !in s.timerq && f !in s.pending
    requires s.current == Some(f) ==> s.state != Yielded
    ensures var d := Dispatch(s, t); f !in d.runq && f !in d.timerq && d.current != Some(f)
  {
    var s1 := SetClock(s, t);
    if !SingleFibre(s1) {
      var d := Drain(s1);
      DrainServes(s1);
      DrainAddsRequested(s1, f);
      var u := UpdateIfAny(d);
      if d.current.Some? {
        UpdateAddsCurrent(d, f);
      }
      MovedFromTimerq(u, f);
    }
  }

  lemma DrainAddsRequested<F>(s: Sched<F>, f: F)
    requires Inv(s) && f !in s.runq && f !in s.timerq && f !in s.pending
    ensures f !in Drain(s).runq && f !in Drain(s).timerq
  {
    DrainServes(s);
    RequestedInReverse(s.pending, s.runq);
  }

  lemma MovedFromTimerq<F>(u: Sched<F>, f: F)
    requires f !in u.runq && f !in u.timerq
    ensures var g := GetNextTask(HandleTimerq(u)); f !in g.runq && f !in g.timerq && g.current != Some(f)
  {
    HandleTimerqSplits(u);
    var k := ExpiredIx(u);
    assert u.timerq == u.timerq[..k] + u.timerq[k..];
    var h := HandleTimerq(u);
    assert f !in h.runq && f !in h.timerq;
    assert h.runq != [] ==> h.runq == [h.runq[0]] + h.runq[1..];
  }

  lemma UpdateAddsCurrent<F>(d: Sched<F>, f: F)
    requires Inv(d) && d.current.Some? && d.pending == [] && f !in d.runq && f !in d.timerq
    requires d.state == Yielded ==> d.current != Some(f)
    ensures f !in UpdateCurrentState(d).runq && f !in UpdateCurrentState(d).timerq
  {
    if d.state == Yielded {
      var g := d.current.value;
      var d1 := d.(states := d.states[g := d.state]);
      DrainServes(d1);
      EnqueueKeepsInv(d1, g);
    }
  }

  /** What the entrypoint of a fibre returns decides what the next scheduler call makes of the fibre. */
  lemma ResultDecides<F>(s: Sched<F>, t: int, script: seq<Action<F>>, result: FibreState, f: F, next: int)
    requires Inv(s) && Enabled(s, Schedule(t, script, result)) && Dispatch(s, t).current == Some(f)
    ensures var r := Next(s, Schedule(t, script, result)); var d := Dispatch(r, next);
      && r.current == Some(f) && r.state == result
      && (result == Yielded ==> f in d.runq || d.current == Some(f))
      && (result != Yielded && f !in r.runq && f !in r.timerq && f !in r.pending ==>
            f !in d.runq && f !in d.timerq && d.current != Some(f))
      && Desc(d, f).priv == (if result == Exited || result == Failed then 0 else Desc(r, f).priv)
      && (result != Yielded ==> Desc(d, f).state == result)
  {
    NextKeepsInv(s, Schedule(t, script, result));
    DispatchKeepsInv(s, t);
    ActAllKeepsInv(Dispatch(s, t), script);
    var r := Next(s, Schedule(t, script, result));
    ResultOf(r, f, next);
  }

  lemma ResultOf<F>(r: Sched<F>, f: F, next: int)
    requires Inv(r) && r.current == Some(f)
    ensures var d := Dispatch(r, next);
      && (r.state == Yielded ==> f in d.runq || d.current == Some(f))
      && (r.state != Yielded && f !in r.runq && f !in r.timerq && f !in r.pending ==>
            f !in d.runq && f !in d.timerq && d.current != Some(f))
      && Desc(d, f).priv == (if r.state == Exited || r.state == Failed then 0 else Desc(r, f).priv)
      && (r.state != Yielded ==> Desc(d, f).state == r.state)
  {
    if r.state == Yielded {
      YieldedIsRunnable(r, next, f);
    } else if f !in r.runq && f !in r.timerq && f !in r.pending {
      WaitsUntilWoken(r, next, f);
    }
    if !SingleFibre(SetClock(r, next)) {
      ExitRestarts(SetClock(r, next), f, f);
    }
  }

  /** fibre_init zeroes the descriptor of its fibre and touches nothing else. */
  lemma FibreInitClears<F>(s: Sched<F>, f: F, g: F)
    ensures Desc(FibreInit(s, f), g) == if g == f then Descriptor(Yielded, 0, 0) else Desc(s, g)
    ensures var r := FibreInit(s, f); r == s.(states := r.states, privs := r.privs, dues := r.dues)
  {
  }

  // ---------- no starvation ----------

  ghost predicate Kills<F>(e: Event<F>) {
    match e
    case Call(a) => a.Kill?
    case Schedule(_, script, _) => exists a :: a in script && a.Kill?
  }

  ghost function Dispatches<F>(events: seq<Event<F>>): nat {
    if events == [] then 0 else (if events[0].Schedule? then 1 else 0) + Dispatches(events[1..])
  }

  /** An event moves the run queue up by one place if it dispatches, and only appends to it. */
  lemma QueueAdvances<F>(s: Sched<F>, e: Event<F>)
    requires Inv(s) && Enabled(s, e) && !Kills(e)
    ensures e.Call? ==> s.runq <= Next(s, e).runq
    ensures e.Schedule? && s.runq != [] ==>
              Next(s, e).current == Some(s.runq[0]) && s.runq[1..] <= Next(s, e).runq
  {
    match e
    case Call(a) => ActKeepsInv(s, a);
    case Schedule(t, script, result) =>
      DispatchKeepsInv(s, t);
      if Dispatch(s, t).current.Some? {
        ActAllKeepsInv(Dispatch(s, t), script);
      }
  }

  /** The fibre at index k of the run queue is dispatched by the call number k + 1 from now, and by no
      earlier one, whatever happens meanwhile short of a fibre_kill. */
  lemma {:induction false} NoStarvation<F>(s: Sched<F>, events: seq<Event<F>>, k: nat, t: int)
    requires Inv(s) && Executable(s, events) && (forall e :: e in events ==> !Kills(e))
    requires k < |s.runq|
    ensures Dispatches(events) == k ==> Dispatch(Final(s, events), t).current == Some(s.runq[k])
    ensures Dispatches(events) < k ==>
              Dispatch(Final(s, events), t).current.Some? && Dispatch(Final(s, events), t).current != Some(s.runq[k])
    decreases |events|
  {
    if events == [] {
      DispatchKeepsInv(s, t);
    } else {
      var e, s1 := events[0], Next(s, events[0]);
      NextKeepsInv(s, e);
      QueueAdvances(s, e);
      assert forall e1 :: e1 in events[1..] ==> e1 in events;
      if e.Call? {
        assert s1.runq[k] == s.runq[k];
        NoStarvation(s1, events[1..], k, t);
      } else if k > 0 {
        assert s1.runq[k - 1] == s.runq[1..][k - 1];
        NoStarvation(s1, events[1..], k - 1, t);
      }
    }
  }
}
