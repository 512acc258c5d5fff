/** What the scheduler promises of every run that starts from its initial state. */
module SchedulerRuns {
  import opened Scheduler
  import opened SchedulerOrder
  import opened SchedulerTime
  import opened Words
  import opened Wrappers

  lemma InitialTimely<F>()
    ensures Inv(Initial<F>()) && Timely(Initial<F>())
  {
  }

  /** The queues are duplicate-free and disjoint, whatever entrypoints and interrupt handlers do. */
  lemma EveryRunIsSafe<F>(events: seq<Event<F>>)
    requires Executable(Initial(), events)
    ensures Inv(Final(Initial(), events))
  {
    InitialTimely<F>();
    RunKeepsInv(Initial(), events);
  }

  /** If time is paced, the timer queue is in order and the scheduler asks to be called in time. */
  lemma EveryPacedRunIsTimely<F>(events: seq<Event<F>>)
    requires Executable(Initial(), events) && AllPaced(Initial(), events)
    ensures var s := Final(Initial(), events);
      && FirstDueFirst(Sleeps(s))
      && (forall f :: f in s.timerq ==> s.clock < DueTime(s, f) < s.clock + HALF && WakeupTime(s) <= DueTime(s, f))
  {
    InitialTimely<F>();
    RunKeepsOrder(Initial(), events);
    WakeupInTime(Final(Initial(), events));
  }

  /** After any paced run, whoever was runnable, was requested, has yielded or is due is called, in this
      order, and everybody else is left alone. */
  lemma EveryPacedRunIsInOrder<F>(events: seq<Event<F>>, t: int)
    requires Executable(Initial(), events) && AllPaced(Initial(), events) && Paced(Final(Initial(), events), t)
    ensures var s := Final(Initial(), events); var d := Dispatch(s, t);
      var due := DueBy(s, Except(s.timerq, Ready(s)), t);
      Calls(d, Ready(s) + due) && d.timerq == Except(s.timerq, Ready(s) + due) && d.pending == []
  {
    InitialTimely<F>();
    RunKeepsOrder(Initial(), events);
    var s := Final(Initial(), events);
    DispatchOrder(s, t);
    ElapsedAreDue(s, t);
  }

  /** After any run, a fibre that is runnable gets its turn as soon as those before it had theirs. */
  lemma EveryRunIsFair<F>(past: seq<Event<F>>, events: seq<Event<F>>, k: nat, t: int)
    requires Executable(Initial(), past)
    requires var s := Final(Initial(), past);
      Executable(s, events) && k < |s.runq| && Dispatches(events) == k && forall e :: e in events ==> !Kills(e)
    ensures var s := Final(Initial(), past);
      Dispatch(Final(s, events), t).current == Some(s.runq[k])
  {
    EveryRunIsSafe(past);
    NoStarvation(Final(Initial(), past), events, k, t);
  }
}
