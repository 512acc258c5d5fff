/** The timer queue of the fibre scheduler in true time: 32-bit times are residues of a clock that
    never wraps. */
module SchedulerTime {
  import opened List
  import opened Scheduler
  import opened Sequences
  import opened Words
  import opened Wrappers

  /** The time that the 32-bit due time of a fibre stands for: the one nearest to the clock. */
  ghost function DueTime<F>(s: Sched<F>, f: F): int {
    s.clock + CycleCmp32(Desc(s, f).duetime, s.now)
  }

  ghost function Arrival<F>(s: Sched<F>, f: F): nat {
    if f in s.arrival then s.arrival[f] else 0
  }

  /** When a sleeping fibre is due, and its place among all fibres that ever went to sleep. */
  datatype Sleep = Sleep(due: int, arrival: nat)

  ghost function SleepOf<F>(s: Sched<F>, f: F): Sleep {
    Sleep(DueTime(s, f), Arrival(s, f))
  }

  ghost function Sleeps<F>(s: Sched<F>): (w: seq<Sleep>)
    ensures |w| == |s.timerq|
  {
    seq(|s.timerq|, i requires 0 <= i < |s.timerq| => SleepOf(s, s.timerq[i]))
  }

  /** Sorted by due time, first come first served among equals. */
  ghost predicate FirstDueFirst(w: seq<Sleep>) {
    forall i, j :: 0 <= i < j < |w| ==> w[i].due < w[j].due || (w[i].due == w[j].due && w[i].arrival < w[j].arrival)
  }

  ghost predicate Ordered<F>(s: Sched<F>) {
    && s.now == s.clock % WORD
    && (forall f :: f in s.timerq ==> Desc(s, f).duetime < WORD && Arrival(s, f) < s.arrivals)
    && FirstDueFirst(Sleeps(s))
  }

  /** In addition, nobody on the timer queue is due yet. */
  ghost predicate Timely<F>(s: Sched<F>) {
    Ordered(s) && forall f :: f in s.timerq ==> s.clock < DueTime(s, f)
  }

  /** Time does not run backwards, and sleeping fibres do not miss half a turn of the 32-bit clock. */
  ghost predicate Paced<F>(s: Sched<F>, t: int) {
    s.clock <= t && (s.timerq != [] ==> t < s.clock + HALF)
  }

  // ---------- 32-bit arithmetic ----------

  lemma SignedIs(x: int, y: int)
    requires (x - y) % WORD == 0 && -HALF <= y < HALF
    ensures Signed32(x) == y
  {
  }

  /** The order of two due times that are less than half a turn ahead of the clock is that of their
      residues. */
  lemma CompareResidues(clock: int, now: int, a: nat, b: nat)
    requires now == clock % WORD && a < WORD && b < WORD
    requires CycleCmp32(a, now) > 0 && CycleCmp32(b, now) > 0
    ensures Signed32(a - b) == CycleCmp32(a, now) - CycleCmp32(b, now)
  {
    SignedIs(a - b, CycleCmp32(a, now) - CycleCmp32(b, now));
  }

  lemma LaterClock(clock: int, t: int, a: nat)
    requires clock <= t < clock + HALF && CycleCmp32(a, clock % WORD) > 0
    ensures t + CycleCmp32(a, t % WORD) == clock + CycleCmp32(a, clock % WORD)
  {
    SignedIs(a - t % WORD, clock + CycleCmp32(a, clock % WORD) - t);
  }

  // ---------- each function keeps the order ----------

  lemma OneLess(w: seq<Sleep>, k: nat)
    requires k < |w| && FirstDueFirst(w)
    ensures FirstDueFirst(w[..k] + w[k + 1..])
  {
    var r := w[..k] + w[k + 1..];
    forall i, j | 0 <= i < j < |r|
      ensures r[i].due < r[j].due || (r[i].due == r[j].due && r[i].arrival < r[j].arrival) {
      assert r[i] == w[if i < k then i else i + 1] && r[j] == w[if j < k then j else j + 1];
    }
  }

  lemma OneMore(w: seq<Sleep>, x: Sleep, k: nat)
    requires k <= |w| && FirstDueFirst(w)
    requires forall i :: 0 <= i < |w| ==> w[i].arrival < x.arrival && (i < k <==> w[i].due <= x.due)
    ensures FirstDueFirst(InsertAt(w, x, k))
  {
    var r := InsertAt(w, x, k);
    forall i, j | 0 <= i < j < |r|
      ensures r[i].due < r[j].due || (r[i].due == r[j].due && r[i].arrival < r[j].arrival) {
      assert r[i] == if i < k then w[i] else if i == k then x else w[i - 1];
      assert r[j] == if j < k then w[j] else if j == k then x else w[j - 1];
    }
  }

  /** The times of a fibre depend on these fields alone. */
  ghost predicate SameClocks<F>(s: Sched<F>, s': Sched<F>) {
    s'.dues == s.dues && s'.now == s.now && s'.clock == s.clock && s'.arrival == s.arrival && s'.arrivals == s.arrivals
  }

  lemma SameSleep<F>(s: Sched<F>, s': Sched<F>, f: F)
    requires SameClocks(s, s')
    ensures SleepOf(s', f) == SleepOf(s, f) && Desc(s', f).duetime == Desc(s, f).duetime
  {
  }

  lemma SomeOfThem<F>(s: Sched<F>, s': Sched<F>)
    requires SameClocks(s, s') && forall f :: f in s'.timerq ==> f in s.timerq
    requires Ordered(s) && FirstDueFirst(Sleeps(s'))
    ensures Ordered(s')
    ensures Timely(s) ==> Timely(s')
  {
    forall f | f in s'.timerq ensures SleepOf(s', f) == SleepOf(s, f) && Desc(s', f).duetime == Desc(s, f).duetime {
      SameSleep(s, s', f);
    }
  }

  lemma SleepsWithout<F>(s: Sched<F>, s': Sched<F>, k: nat)
    requires SameClocks(s, s') && k < |s.timerq| && s'.timerq == s.timerq[..k] + s.timerq[k + 1..]
    ensures Sleeps(s') == Sleeps(s)[..k] + Sleeps(s)[k + 1..]
  {
    forall i | 0 <= i < |s'.timerq| ensures Sleeps(s')[i] == (Sleeps(s)[..k] + Sleeps(s)[k + 1..])[i] {
      SameSleep(s, s', s'.timerq[i]);
    }
  }

  /** Taking a fibre off the timer queue. */
  lemma WithoutKeepsOrder<F>(s: Sched<F>, f: F)
    requires Ordered(s) && Distinct(s.timerq)
    ensures Ordered(s.(timerq := Without(s.timerq, f)))
    ensures Timely(s) ==> Timely(s.(timerq := Without(s.timerq, f)))
  {
    var s' := s.(timerq := Without(s.timerq, f));
    WithoutKeeps(s.timerq, f);
    if f in s.timerq {
      var k :| 0 <= k < |s.timerq| && s.timerq[k] == f;
      WithoutAt(s.timerq, k);
      OneLess(Sleeps(s), k);
      SleepsWithout(s, s', k);
    } else {
      WithoutNone(s.timerq, f);
      assert s' == s;
    }
    SomeOfThem(s, s');
  }

  ghost predicate SameTimes<F>(s: Sched<F>, s': Sched<F>) {
    SameClocks(s, s') && s'.timerq == s.timerq
  }

  lemma SameTimesKeepOrder<F>(s: Sched<F>, s': Sched<F>)
    requires SameTimes(s, s')
    ensures Ordered(s) ==> Ordered(s')
    ensures Timely(s) ==> Timely(s')
  {
    forall i | 0 <= i < |s.timerq| ensures Sleeps(s')[i] == Sleeps(s)[i] {
      SameSleep(s, s', s.timerq[i]);
    }
    assert Sleeps(s') == Sleeps(s);
    if Ordered(s) {
      SomeOfThem(s, s');
    }
  }

  lemma EnqueueKeepsOrder<F>(s: Sched<F>, f: F)
    requires Inv(s)
    ensures Ordered(s) ==> Ordered(Enqueue(s, f))
    ensures Timely(s) ==> Timely(Enqueue(s, f))
  {
    if f !in s.runq && Ordered(s) {
      WithoutKeepsOrder(s, f);
      SameTimesKeepOrder(s.(timerq := Without(s.timerq, f)), Enqueue(s, f));
    }
  }

  lemma {:induction false} DrainKeepsOrder<F>(s: Sched<F>)
    requires Inv(s)
    ensures Ordered(s) ==> Ordered(Drain(s))
    ensures Timely(s) ==> Timely(Drain(s))
    decreases |s.pending|
  {
    if s.pending != [] {
      var s1 := s.(pending := s.pending[1..]);
      SameTimesKeepOrder(s, s1);
      DrainServes(s1);
      DrainKeepsOrder(s1);
      EnqueueKeepsOrder(Drain(s1), s.pending[0]);
    }
  }

  lemma FibreRunKeepsOrder<F>(s: Sched<F>, f: F)
    requires Inv(s)
    ensures FibreRun(s, f).clock == s.clock
    ensures Ordered(s) ==> Ordered(FibreRun(s, f))
    ensures Timely(s) ==> Timely(FibreRun(s, f))
  {
    DrainServes(s);
    DrainKeepsOrder(s);
    EnqueueKeepsOrder(Drain(s), f);
  }

  lemma FibreKillKeepsOrder<F>(s: Sched<F>, f: F)
    requires Inv(s) && Timely(s)
    ensures Timely(FibreKill(s, f))
  {
    DrainServes(s);
    DrainKeepsOrder(s);
    WithoutKeepsOrder(Drain(s), f);
    SameTimesKeepOrder(Drain(s).(timerq := Without(Drain(s).timerq, f)), FibreKill(s, f));
  }

  lemma UpdateKeepsOrder<F>(s: Sched<F>)
    requires Inv(s) && Ordered(s) && s.current.Some?
    ensures Ordered(UpdateCurrentState(s)) && UpdateCurrentState(s).clock == s.clock
  {
    var s1 := s.(states := s.states[s.current.value := s.state]);
    SameTimesKeepOrder(s, s1);
    if s.state == Yielded {
      FibreRunKeepsOrder(s1, s.current.value);
    } else {
      SameTimesKeepOrder(s, UpdateCurrentState(s));
    }
  }

  /** The cut of handle_timerq separates the fibres that are due from those that are not. */
  lemma ExpiredExact<F>(s: Sched<F>)
    requires Ordered(s)
    ensures forall i :: 0 <= i < |s.timerq| ==> (i < ExpiredIx(s) <==> DueTime(s, s.timerq[i]) <= s.clock)
  {
    ExpiredPrefix(s);
    var k := ExpiredIx(s);
    forall i | 0 <= i < |s.timerq| ensures i < k <==> DueTime(s, s.timerq[i]) <= s.clock {
      assert Sleeps(s)[i].due == DueTime(s, s.timerq[i]);
      assert i > k ==> Sleeps(s)[k].due <= Sleeps(s)[i].due;
    }
  }

  /** Those that are left stay in order. */
  lemma RestInOrder<F>(s: Sched<F>, h: Sched<F>, k: nat)
    requires Ordered(s) && k <= |s.timerq| && SameClocks(s, h) && h.timerq == s.timerq[k..]
    requires forall i :: k <= i < |s.timerq| ==> DueTime(s, s.timerq[i]) > s.clock
    ensures Timely(h)
  {
    forall i | 0 <= i < |h.timerq|
      ensures Sleeps(h)[i] == Sleeps(s)[k + i] && h.timerq[i] == s.timerq[k + i] && Sleeps(h)[i].due > h.clock {
      SameSleep(s, h, h.timerq[i]);
    }
    SomeOfThem(s, h);
  }

  /** handle_timerq moves exactly the fibres that are due, in the order of the timer queue. */
  lemma HandleTimerqExact<F>(s: Sched<F>)
    requires Ordered(s)
    ensures var k, h := ExpiredIx(s), HandleTimerq(s);
      && h == s.(runq := s.runq + s.timerq[..k], timerq := s.timerq[k..])
      && (forall i :: 0 <= i < |s.timerq| ==> (i < k <==> DueTime(s, s.timerq[i]) <= s.clock))
      && Timely(h)
  {
    HandleTimerqIs(s);
    ExpiredExact(s);
    RestInOrder(s, HandleTimerq(s), ExpiredIx(s));
  }

  /** A later clock gives the same due times. */
  lemma SetClockKeepsOrder<F>(s: Sched<F>, t: int)
    requires Timely(s) && Paced(s, t)
    ensures Ordered(SetClock(s, t))
    ensures forall f :: f in s.timerq ==> DueTime(SetClock(s, t), f) == DueTime(s, f)
  {
    var s' := SetClock(s, t);
    forall f | f in s.timerq ensures DueTime(s', f) == DueTime(s, f) {
      LaterClock(s.clock, t, Desc(s, f).duetime);
    }
    assert Sleeps(s') == Sleeps(s);
  }

  lemma UpdateIfAnyKeepsOrder<F>(s: Sched<F>)
    requires Inv(s) && Ordered(s)
    ensures Ordered(UpdateIfAny(s)) && UpdateIfAny(s).clock == s.clock
  {
    if s.current.Some? {
      UpdateKeepsOrder(s);
    }
  }

  lemma NextTaskKeepsOrder<F>(s: Sched<F>)
    requires Timely(s)
    ensures Timely(GetNextTask(s)) && GetNextTask(s).clock == s.clock
  {
    SameTimesKeepOrder(s, GetNextTask(s));
  }

  lemma DrainKeepsClock<F>(s: Sched<F>)
    ensures Drain(s).clock == s.clock
  {
    DrainAppends(s);
  }

  lemma UpdateKeepsDues<F>(d: Sched<F>)
    ensures var u := UpdateIfAny(d); u.dues == d.dues && u.now == d.now && u.clock == d.clock
  {
    if d.current.Some? && d.state == Yielded {
      DrainAppends(d.(states := d.states[d.current.value := d.state]));
    }
  }

  lemma RescheduleKeepsOrder<F>(s: Sched<F>)
    requires Inv(s) && Ordered(s)
    ensures Timely(Reschedule(s)) && Reschedule(s).clock == s.clock
  {
    var d := Drain(s);
    DrainServes(s);
    DrainKeepsClock(s);
    DrainKeepsOrder(s);
    UpdateIfAnyKeepsOrder(d);
    var u := UpdateIfAny(d);
    HandleTimerqExact(u);
    NextTaskKeepsOrder(HandleTimerq(u));
  }

  /** After the scheduler's updates every fibre left on the timer queue is due later than now. */
  lemma DispatchKeepsOrder<F>(s: Sched<F>, t: int)
    requires Inv(s) && Timely(s) && Paced(s, t)
    ensures Timely(Dispatch(s, t)) && Dispatch(s, t).clock == t
  {
    SetClockKeepsOrder(s, t);
    if !SingleFibre(SetClock(s, t)) {
      RescheduleKeepsOrder(SetClock(s, t));
    }
  }

  lemma MovedWhenDue<F>(u: Sched<F>, f: F)
    requires Inv(u) && Ordered(u) && f in u.timerq
    ensures var h := HandleTimerq(u);
      if DueTime(u, f) <= u.clock then f in h.runq && f !in h.timerq else f in h.timerq && f !in h.runq
  {
    HandleTimerqExact(u);
    HandleTimerqKeepsInv(u);
    var i :| 0 <= i < |u.timerq| && u.timerq[i] == f;
    var k := ExpiredIx(u);
    assert i < k ==> u.timerq[..k][i] == f;
    assert i >= k ==> u.timerq[k..][i - k] == f;
  }

  lemma TakenFromRunq<F>(h: Sched<F>, f: F)
    ensures var g := GetNextTask(h);
      g.timerq == h.timerq && (f in h.runq <==> f in g.runq || g.current == Some(f))
  {
    assert h.runq != [] ==> h.runq == [h.runq[0]] + h.runq[1..];
  }

  /** A sleeping fibre that nobody requests is made runnable by the first call of the scheduler at or
      after its due time, and by no earlier one. */
  lemma WakesWhenDue<F>(s: Sched<F>, t: int, f: F)
    requires Inv(s) && Timely(s) && Paced(s, t)
    requires f in s.timerq && f !in s.pending && !(s.current == Some(f) && s.state == Yielded)
    ensures var d := Dispatch(s, t);
      && (DueTime(s, f) <= t <==> f in d.runq || d.current == Some(f))
      && (DueTime(s, f) > t <==> f in d.timerq)
  {
    var s1 := SetClock(s, t);
    SetClockKeepsOrder(s, t);
    var d := Drain(s1);
    DrainServes(s1);
    DrainKeepsOrder(s1);
    SameSleep(s1, d, f);
    UpdateLeavesSleeper(d, f);
    var u := UpdateIfAny(d);
    MovedWhenDue(u, f);
    TakenFromRunq(HandleTimerq(u), f);
  }

  lemma UpdateLeavesSleeper<F>(d: Sched<F>, f: F)
    requires Inv(d) && Ordered(d) && d.pending == [] && f in d.timerq
    requires !(d.current == Some(f) && d.state == Yielded)
    ensures var u := UpdateIfAny(d);
      Inv(u) && Ordered(u) && f in u.timerq && u.clock == d.clock && DueTime(u, f) == DueTime(d, f)
  {
    if d.current.Some? {
      UpdateCurrentStateKeepsInv(d);
      UpdateKeepsOrder(d);
      if d.state == Yielded {
        FibreRunKeepsInv(d.(states := d.states[d.current.value := d.state]), d.current.value);
      }
      SameSleep(d, UpdateCurrentState(d), f);
    }
  }

  // ---------- going to sleep ----------

  /** The comparator of the timer queue orders due times that lie ahead. */
  lemma DuetimesOrdered(clock: int, now: int, keys: seq<Descriptor>)
    requires now == clock % WORD
    requires forall a :: a in keys ==> a.duetime < WORD && CycleCmp32(a.duetime, now) > 0
    ensures Orders(DuetimeCmp, keys)
    ensures forall a, b :: a in keys && b in keys ==>
              DuetimeCmp(a, b) == CycleCmp32(a.duetime, now) - CycleCmp32(b.duetime, now)
  {
    forall a, b | a in keys && b in keys
      ensures DuetimeCmp(a, b) == CycleCmp32(a.duetime, now) - CycleCmp32(b.duetime, now) {
      CompareResidues(clock, now, a.duetime, b.duetime);
    }
  }

  /** A sleeping fibre is put behind those that are due no later and before all others. */
  lemma SleepPosition<F>(s: Sched<F>, f: F, duetime: nat)
    requires Timely(s) && duetime < WORD && !Elapsed(s, duetime) && f !in s.timerq
    ensures var s1 := s.(dues := s.dues[f := duetime]);
            var k := InsertIx(DuetimeCmp, Desc(s1, f), Descs(s1, s.timerq));
            forall i :: 0 <= i < |s.timerq| ==> (i < k <==> Sleeps(s)[i].due <= DueTime(s1, f))
  {
    var s1 := s.(dues := s.dues[f := duetime]);
    var keys, x := Descs(s1, s.timerq), Desc(s1, f);
    forall i | 0 <= i < |keys|
      ensures keys[i].duetime < WORD && s.clock + CycleCmp32(keys[i].duetime, s.now) == Sleeps(s)[i].due > s.clock {
      assert s.timerq[i] in s.timerq;
    }
    AmongDuetimes(s.clock, s.now, x, keys);
  }

  lemma AmongDuetimes(clock: int, now: int, x: Descriptor, keys: seq<Descriptor>)
    requires now == clock % WORD
    requires forall a :: a in keys + [x] ==> a.duetime < WORD && CycleCmp32(a.duetime, now) > 0
    requires forall i, j :: 0 <= i < j < |keys| ==>
               CycleCmp32(keys[i].duetime, now) <= CycleCmp32(keys[j].duetime, now)
    ensures var k := InsertIx(DuetimeCmp, x, keys);
            forall i :: 0 <= i < |keys| ==>
              (i < k <==> CycleCmp32(keys[i].duetime, now) <= CycleCmp32(x.duetime, now))
  {
    DuetimesOrdered(clock, now, keys + [x]);
    assert x in keys + [x] && forall i :: 0 <= i < |keys| ==> keys[i] in keys + [x];
    InsertIxIsStable(DuetimeCmp, x, keys);
    ScanPosition(DuetimeCmp, x, keys);
  }

  lemma FibreTimeoutKeepsOrder<F>(s: Sched<F>, duetime: nat)
    requires Inv(s) && Timely(s) && Permitted(s, Timeout(duetime))
    ensures Timely(FibreTimeout(s, duetime))
  {
    if !Elapsed(s, duetime) {
      var f := s.current.value;
      var s1 := s.(dues := s.dues[f := duetime]);
      if f in s.runq {
        assert forall g :: g in s.timerq ==>
          SleepOf(s1, g) == SleepOf(s, g) && Desc(s1, g).duetime == Desc(s, g).duetime;
        assert Sleeps(s1) == Sleeps(s);
      } else {
        InsertedInOrder(s, f, duetime, FibreTimeout(s, duetime));
      }
    }
  }

  lemma InsertedInOrder<F>(s: Sched<F>, f: F, duetime: nat, r: Sched<F>)
    requires Timely(s) && duetime < WORD && !Elapsed(s, duetime) && f !in s.timerq
    requires s.current == Some(f) && f !in s.runq && r == FibreTimeout(s, duetime)
    ensures Timely(r)
  {
    var s1 := s.(dues := s.dues[f := duetime]);
    var k := InsertIx(DuetimeCmp, Desc(s1, f), Descs(s1, s.timerq));
    SleepPosition(s, f, duetime);
    forall g | g in s.timerq
      ensures SleepOf(r, g) == SleepOf(s, g) && Desc(r, g).duetime == Desc(s, g).duetime {
    }
    OneMoreSleeps(s, f, k, r);
  }

  lemma OneMoreSleeps<F>(s: Sched<F>, f: F, k: nat, r: Sched<F>)
    requires Timely(s) && k <= |s.timerq|
    requires r.timerq == InsertAt(s.timerq, f, k)
    requires r.clock == s.clock && r.now == s.now && r.arrivals == s.arrivals + 1
    requires forall g :: g in s.timerq ==> SleepOf(r, g) == SleepOf(s, g) && Desc(r, g).duetime == Desc(s, g).duetime
    requires Desc(r, f).duetime < WORD && DueTime(r, f) > r.clock && Arrival(r, f) == s.arrivals
    requires forall i :: 0 <= i < |s.timerq| ==> (i < k <==> Sleeps(s)[i].due <= DueTime(r, f))
    ensures Timely(r)
  {
    var x := SleepOf(r, f);
    forall i | 0 <= i < |s.timerq| ensures Sleeps(s)[i].arrival < x.arrival {
      assert s.timerq[i] in s.timerq;
    }
    OneMore(Sleeps(s), x, k);
    SleepsInserted(s, f, k, r);
    InsertAtMembers(s.timerq, f, k);
  }

  lemma SleepsInserted<F>(s: Sched<F>, f: F, k: nat, r: Sched<F>)
    requires k <= |s.timerq| && r.timerq == InsertAt(s.timerq, f, k)
    requires forall g :: g in s.timerq ==> SleepOf(r, g) == SleepOf(s, g)
    ensures Sleeps(r) == InsertAt(Sleeps(s), SleepOf(r, f), k)
  {
    var w := InsertAt(Sleeps(s), SleepOf(r, f), k);
    forall i | 0 <= i < |r.timerq| ensures Sleeps(r)[i] == w[i] {
      if i < k {
        assert r.timerq[i] == s.timerq[i];
      } else if i > k {
        assert r.timerq[i] == s.timerq[i - 1];
      }
    }
  }

  lemma InsertAtMembers<A>(s: seq<A>, x: A, k: nat)
    requires k <= |s|
    ensures forall y :: y in InsertAt(s, x, k) ==> y in s || y == x
  {
  }

  // ---------- whole runs ----------

  lemma ActKeepsOrder<F>(s: Sched<F>, a: Action<F>)
    requires Inv(s) && Timely(s) && Permitted(s, a)
    ensures Timely(Act(s, a))
  {
    match a
    case Run(f) => FibreRunKeepsOrder(s, f);
    case Kill(f) => FibreKillKeepsOrder(s, f);
    case Timeout(duetime) => FibreTimeoutKeepsOrder(s, duetime);
    case _ => SameTimesKeepOrder(s, Act(s, a));
  }

  lemma {:induction false} ActAllKeepsOrder<F>(s: Sched<F>, script: seq<Action<F>>)
    requires Inv(s) && Timely(s) && AllPermitted(s, script)
    ensures Timely(ActAll(s, script))
    decreases |script|
  {
    if script != [] {
      ActKeepsInv(s, script[0]);
      ActKeepsOrder(s, script[0]);
      ActAllKeepsOrder(Act(s, script[0]), script[1..]);
    }
  }

  lemma NextKeepsOrder<F>(s: Sched<F>, e: Event<F>)
    requires Inv(s) && Timely(s) && Enabled(s, e) && (e.Schedule? ==> Paced(s, e.t))
    ensures Timely(Next(s, e))
  {
    match e
    case Call(a) => ActKeepsOrder(s, a);
    case Schedule(t, script, result) =>
      var d := Dispatch(s, t);
      DispatchKeepsInv(s, t);
      DispatchKeepsOrder(s, t);
      if d.current.Some? {
        ActAllKeepsOrder(d, script);
        SameTimesKeepOrder(ActAll(d, script), Next(s, e));
      }
  }

  ghost predicate AllPaced<F>(s: Sched<F>, events: seq<Event<F>>)
    requires Executable(s, events)
    decreases |events|
  {
    events == [] ||
    ((events[0].Schedule? ==> Paced(s, events[0].t)) && AllPaced(Next(s, events[0]), events[1..]))
  }

  /** In every paced run, the timer queue is sorted by true due time, first come first served among
      equals, and every due time on it lies less than half a turn ahead. */
  lemma {:induction false} RunKeepsOrder<F>(s: Sched<F>, events: seq<Event<F>>)
    requires Inv(s) && Timely(s) && Executable(s, events) && AllPaced(s, events)
    ensures var s' := Final(s, events);
      && Inv(s') && FirstDueFirst(Sleeps(s'))
      && forall f :: f in s'.timerq ==> s'.clock < DueTime(s', f) < s'.clock + HALF
    ensures Timely(Final(s, events))
    decreases |events|
  {
    if events != [] {
      NextKeepsInv(s, events[0]);
      NextKeepsOrder(s, events[0]);
      RunKeepsOrder(Next(s, events[0]), events[1..]);
    }
  }

  /** The time that fibre_scheduler_next asks to be called at. */
  ghost function WakeupTime<F>(s: Sched<F>): int {
    s.clock + CycleCmp32(Wakeup(s), s.now)
  }

  /** It is no later than any queued due time, equal to the first one if that is what is waited for,
      and it is the present as soon as something is runnable. */
  lemma WakeupInTime<F>(s: Sched<F>)
    requires Timely(s)
    ensures s.clock <= WakeupTime(s) <= s.clock + UNBOUNDED_SLEEP
    ensures forall f :: f in s.timerq ==> WakeupTime(s) <= DueTime(s, f)
    ensures s.runq != [] || s.pending != [] || (s.current.Some? && s.state == Yielded) <==> WakeupTime(s) == s.clock
    ensures WakeupTime(s) > s.clock ==>
              WakeupTime(s) == if s.timerq == [] then s.clock + UNBOUNDED_SLEEP else DueTime(s, s.timerq[0])
  {
    if s.timerq != [] {
      assert s.timerq[0] in s.timerq;
      forall f | f in s.timerq ensures DueTime(s, s.timerq[0]) <= DueTime(s, f) {
        var i :| 0 <= i < |s.timerq| && s.timerq[i] == f;
        assert Sleeps(s)[0].due <= Sleeps(s)[i].due;
      }
    }
  }
}
