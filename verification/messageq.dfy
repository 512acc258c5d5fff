/** The lock-free message queue of librfn/messageq.c: many producers, one consumer, one step of the
    transition system per atomic operation. */
module MessageQueue {
  import opened Residues
  import opened Wrappers

  type Tid = nat

  /** The shared memory, the program counters of all threads inside messageq_claim, and the history
      of the run in terms of tickets: the n-th successful claim of the run holds ticket n. */
  datatype State<M> = State(
    // the messageq_t and its buffer
    queueLen: nat, numFree: nat, sendp: nat, fullFlags: seq<bool>, receivep: nat, cells: seq<M>,
    // threads that have to give back what they subtracted, that have still to load sendp, and that
    // hold a local copy of sendp
    failing: set<Tid>, granted: set<Tid>, trying: map<Tid, nat>,
    // history: the slots returned by claim and by receive, how many receives were released, which
    // tickets were sent, and what was last written to the slot of a ticket
    slots: seq<nat>, taken: seq<nat>, released: nat, sent: set<nat>, wrote: map<nat, M>)
  {
    function Claimed(): nat { |slots| }
    function Received(): nat { |taken| }
  }

  datatype Step<M> =
    | ClaimSub(t: Tid)                  // atomic_fetch_sub(num_free)
    | ClaimUndo(t: Tid)                 // atomic_fetch_add(num_free) of a failed claim
    | ClaimLoad(t: Tid)                 // atomic_load(sendp)
    | ClaimCas(t: Tid, spurious: bool)  // atomic_compare_exchange_weak(sendp)
    | Write(ticket: nat, m: M)          // the owner of a claimed message fills it in
    | Send(ticket: nat)                 // atomic_fetch_or(full_flags)
    | Receive                           // atomic_fetch_and(full_flags)
    | Release                           // atomic_fetch_add(num_free)

  /** The state after messageq_init, where lengths are truncated to an unsigned char. */
  function Init<M>(memory: seq<M>): State<M> {
    var n := |memory| % 256;
    State(n, n, 0, seq(32, _ => false), 0, memory, {}, {}, map[], [], [], 0, {}, map[])
  }

  predicate Enabled<M>(s: State<M>, step: Step<M>) {
    match step
    case ClaimSub(t) => t !in s.failing && t !in s.granted && t !in s.trying
    case ClaimUndo(t) => t in s.failing
    case ClaimLoad(t) => t in s.granted
    case ClaimCas(t, _) => t in s.trying
    case Write(j, _) => j < s.Claimed() && j !in s.sent && s.slots[j] < |s.cells|
    case Send(j) => j < s.Claimed() && j !in s.sent && s.slots[j] < |s.fullFlags|
    case Receive => s.receivep < |s.fullFlags|
    case Release => s.released < s.Received()
  }

  function Next<M>(s: State<M>, step: Step<M>): State<M>
    requires Enabled(s, step)
  {
    match step
    case ClaimSub(t) =>
      var s' := s.(numFree := Dec8(s.numFree));
      if s.numFree <= 0 then s'.(failing := s.failing + {t}) else s'.(granted := s.granted + {t})
    case ClaimUndo(t) =>
      s.(numFree := Inc8(s.numFree), failing := s.failing - {t})
    case ClaimLoad(t) =>
      s.(granted := s.granted - {t}, trying := s.trying[t := s.sendp])
    case ClaimCas(t, spurious) =>
      if s.sendp == s.trying[t] && !spurious
      then s.(sendp := Succ(s.trying[t], s.queueLen), trying := s.trying - {t}, slots := s.slots + [s.trying[t]])
      else s.(trying := s.trying[t := s.sendp])
    case Write(j, m) =>
      s.(cells := s.cells[s.slots[j] := m], wrote := s.wrote[j := m])
    case Send(j) =>
      s.(fullFlags := s.fullFlags[s.slots[j] := true], sent := s.sent + {j})
    case Receive =>
      if !s.fullFlags[s.receivep] then s
      else s.(fullFlags := s.fullFlags[s.receivep := false],
              receivep := Succ(s.receivep, s.queueLen), taken := s.taken + [s.receivep])
    case Release =>
      s.(numFree := Inc8(s.numFree), released := s.released + 1)
  }

  // ---------- the invariant ----------

  /** Slots not yet promised to a claim, according to the threads and the tickets. */
  function Free<M>(s: State<M>): int {
    s.queueLen - |s.granted| - |s.trying| - (s.Claimed() - s.released)
  }

  /** A thread is in at most one place. */
  ghost predicate Apart<M>(s: State<M>) {
    s.failing !! s.granted && s.failing !! s.trying.Keys && s.granted !! s.trying.Keys
  }

  ghost predicate Counted<M>(s: State<M>) {
    && Apart(s)
    && 0 <= Free(s)
    && s.numFree == Wrap8(Free(s) - |s.failing|)
    && s.released <= s.Received() <= s.Claimed()
  }

  ghost predicate Indexed<M>(s: State<M>) {
    && 1 <= s.queueLen <= 32 && |s.cells| == s.queueLen && |s.fullFlags| == 32
    && s.sendp == s.Claimed() % s.queueLen
    && s.receivep == s.Received() % s.queueLen
    && (forall j :: 0 <= j < |s.slots| ==> s.slots[j] == j % s.queueLen)
    && (forall j :: 0 <= j < |s.taken| ==> s.taken[j] == j % s.queueLen)
  }

  /** Bit b of full_flags is set exactly when the ticket that comes next in slot b has been sent. */
  ghost predicate Flagged<M>(s: State<M>) {
    && (forall j :: j in s.sent ==> j < s.Claimed())
    && (forall j :: 0 <= j < s.Received() ==> j in s.sent)
    && (forall b :: 0 <= b < |s.fullFlags| ==>
          (s.fullFlags[b] <==> b < s.queueLen && FirstAt(s.Received(), b, s.queueLen) in s.sent))
  }

  /** The slots of unreleased tickets hold what was last written for these tickets. */
  ghost predicate Stored<M>(s: State<M>)
    requires Indexed(s)
  {
    && (forall j :: j in s.wrote ==> j < s.Claimed())
    && (forall j :: j in s.wrote && s.released <= j ==> s.cells[j % s.queueLen] == s.wrote[j])
  }

  ghost predicate Inv<M>(s: State<M>) {
    Counted(s) && Indexed(s) && Flagged(s) && Stored(s)
  }

  /** When no slot is free, the counter reads zero, so that a claim that starts now fails. */
  predicate Sound<M>(s: State<M>) {
    Free(s) == 0 ==> s.numFree == 0
  }

  ghost predicate Permitted<M>(s: State<M>, step: Step<M>) {
    Enabled(s, step) && (step.ClaimSub? ==> Sound(s))
  }

  lemma InitInv<M>(memory: seq<M>)
    requires 1 <= |memory| <= 32
    ensures Inv(Init(memory))
  {
  }

  // ---------- every permitted step keeps the invariant ----------

  /** Steps that only move threads and the counter keep the rest of the invariant. */
  lemma ThreadsOnly<M>(s: State<M>, s': State<M>)
    requires Inv(s)
    requires s' == s.(numFree := s'.numFree, failing := s'.failing, granted := s'.granted, trying := s'.trying)
    ensures Indexed(s') && Flagged(s') && Stored(s')
  {
  }

  lemma SubKeepsInv<M>(s: State<M>, t: Tid)
    requires Inv(s) && Enabled(s, ClaimSub(t)) && Sound(s)
    ensures Inv(Next(s, ClaimSub(t)))
  {
    SubCounted(s, t);
    ThreadsOnly(s, Next(s, ClaimSub(t)));
  }

  lemma SubCounted<M>(s: State<M>, t: Tid)
    requires Counted(s) && Enabled(s, ClaimSub(t)) && Sound(s)
    ensures Counted(Next(s, ClaimSub(t)))
  {
    var s' := Next(s, ClaimSub(t));
    SubEffect(s, t);
    var n, n' := Free(s) - |s.failing|, Free(s') - |s'.failing|;
    assert n' == n - 1;
    Wrap8Dec(n);
    assert s'.numFree == Wrap8(n');
  }

  /** One thread more is failing or granted. */
  lemma SubEffect<M>(s: State<M>, t: Tid)
    requires Enabled(s, ClaimSub(t))
    requires Apart(s)
    ensures var s' := Next(s, ClaimSub(t));
      && Apart(s')
      && Free(s') == Free(s) - (if s.numFree <= 0 then 0 else 1)
      && |s'.failing| == |s.failing| + (if s.numFree <= 0 then 1 else 0)
  {
  }

  lemma UndoKeepsInv<M>(s: State<M>, t: Tid)
    requires Inv(s) && Enabled(s, ClaimUndo(t))
    ensures Inv(Next(s, ClaimUndo(t)))
  {
    var s' := Next(s, ClaimUndo(t));
    Wrap8Inc(Free(s) - |s.failing|);
    ThreadsOnly(s, s');
  }

  lemma LoadKeepsInv<M>(s: State<M>, t: Tid)
    requires Inv(s) && Enabled(s, ClaimLoad(t))
    ensures Inv(Next(s, ClaimLoad(t)))
  {
    var s' := Next(s, ClaimLoad(t));
    LoadEffect(s, t);
    ThreadsOnly(s, s');
  }

  lemma OneMoreKey<K, V>(m: map<K, V>, k: K, v: V)
    requires k !in m
    ensures m[k := v].Keys == m.Keys + {k} && |m[k := v]| == |m| + 1
  {
    assert |m[k := v]| == |m[k := v].Keys| && |m| == |m.Keys|;
    assert m[k := v].Keys == m.Keys + {k};
  }

  /** The number of promised slots stays the same. */
  lemma LoadEffect<M>(s: State<M>, t: Tid)
    requires Enabled(s, ClaimLoad(t))
    requires Apart(s)
    ensures var s' := Next(s, ClaimLoad(t));
      && Apart(s')
      && Free(s') == Free(s)
  {
    assert t in s.granted && t !in s.trying.Keys && t !in s.failing;
    OneMoreKey(s.trying, t, s.sendp);
    assert |s.granted - {t}| == |s.granted| - 1;
  }

  lemma CasKeepsInv<M>(s: State<M>, t: Tid, spurious: bool)
    requires Inv(s) && Enabled(s, ClaimCas(t, spurious))
    ensures Inv(Next(s, ClaimCas(t, spurious)))
  {
    var s' := Next(s, ClaimCas(t, spurious));
    if s.sendp == s.trying[t] && !spurious {
      assert s'.trying.Keys == s.trying.Keys - {t};
      CasIndexed(s, t);
    } else {
      assert s'.trying.Keys == s.trying.Keys;
      ThreadsOnly(s, s');
    }
  }

  lemma CasIndexed<M>(s: State<M>, t: Tid)
    requires Inv(s) && Enabled(s, ClaimCas(t, false)) && s.sendp == s.trying[t]
    ensures var s' := Next(s, ClaimCas(t, false)); Indexed(s') && Flagged(s') && Stored(s')
  {
    ModStep(s.Claimed(), s.queueLen);
  }

  lemma WriteKeepsInv<M>(s: State<M>, j: nat, m: M)
    requires Inv(s) && Enabled(s, Write(j, m))
    ensures Inv(Next(s, Write(j, m)))
  {
    var s' := Next(s, Write(j, m));
    forall k | k in s'.wrote && s'.released <= k ensures s'.cells[k % s'.queueLen] == s'.wrote[k] {
      if j < k {
        ModWindow(j, k, s.queueLen);
      } else if k < j {
        ModWindow(k, j, s.queueLen);
      }
    }
  }

  lemma SendKeepsInv<M>(s: State<M>, j: nat)
    requires Inv(s) && Enabled(s, Send(j))
    ensures Inv(Next(s, Send(j)))
  {
    var s' := Next(s, Send(j));
    FirstAtIs(s.Received(), j, s.queueLen);
    forall b | 0 <= b < |s'.fullFlags|
      ensures s'.fullFlags[b] <==> b < s'.queueLen && FirstAt(s'.Received(), b, s'.queueLen) in s'.sent
    {
      if b < s.queueLen {
        FirstAtMod(s.Received(), b, s.queueLen);
      }
    }
  }

  lemma ReceiveKeepsInv<M>(s: State<M>)
    requires Inv(s)
    ensures Enabled(s, Receive) && Inv(Next(s, Receive))
  {
    if s.fullFlags[s.receivep] {
      ModStep(s.Received(), s.queueLen);
      FirstAtIs(s.Received(), s.Received(), s.queueLen);
      ReceiveKeepsFlags(s);
    }
  }

  /** The flag that is cleared is that of the ticket received. */
  lemma ReceiveKeepsFlags<M>(s: State<M>)
    requires Indexed(s) && Flagged(s) && s.fullFlags[s.receivep] && s.Claimed() <= s.Received() + s.queueLen
    ensures Flagged(Next(s, Receive))
  {
    var s', n, len := Next(s, Receive), s.Received(), s.queueLen;
    FirstAtIs(n, n, len);
    forall b | 0 <= b < |s'.fullFlags|
      ensures s'.fullFlags[b] <==> b < len && FirstAt(n + 1, b, len) in s'.sent
    {
      if b < len {
        NextWindow(n, b, len);
      }
    }
  }

  lemma NextWindow(n: nat, b: nat, len: nat)
    requires b < len
    ensures FirstAt(n + 1, b, len) == if b == n % len then n + len else FirstAt(n, b, len)
  {
    FirstAtMod(n, b, len);
    FirstAtIs(n, n, len);
    if b == n % len {
      ModUnique(n + len, n / len + 1, b, len);
      FirstAtIs(n + 1, n + len, len);
    } else {
      FirstAtIs(n + 1, FirstAt(n, b, len), len);
    }
  }

  lemma ReleaseKeepsInv<M>(s: State<M>)
    requires Inv(s) && Enabled(s, Release)
    ensures Inv(Next(s, Release))
  {
    Wrap8Inc(Free(s) - |s.failing|);
  }

  /** One step of any thread. */
  lemma StepKeepsInv<M>(s: State<M>, step: Step<M>)
    requires Inv(s) && Permitted(s, step)
    ensures Inv(Next(s, step))
  {
    match step
    case ClaimSub(t) => SubKeepsInv(s, t);
    case ClaimUndo(t) => UndoKeepsInv(s, t);
    case ClaimLoad(t) => LoadKeepsInv(s, t);
    case ClaimCas(t, spurious) => CasKeepsInv(s, t, spurious);
    case Write(j, m) => WriteKeepsInv(s, j, m);
    case Send(j) => SendKeepsInv(s, j);
    case Receive => ReceiveKeepsInv(s);
    case Release => ReleaseKeepsInv(s);
  }

  /** The condition on atomic_fetch_sub is exact: where it fails, the step grants a claim for which
      there is no slot. */
  lemma SoundIsNeeded<M>(s: State<M>, t: Tid)
    requires Inv(s) && Enabled(s, ClaimSub(t))
    ensures Inv(Next(s, ClaimSub(t))) <==> Sound(s)
  {
    if Sound(s) {
      SubKeepsInv(s, t);
    } else {
      SubEffect(s, t);
    }
  }

  /** It can fail only while some failed claim has not yet undone its subtraction, and does so then
      unless the number of such claims is a multiple of 256. */
  lemma SoundUnlessOverlapping<M>(s: State<M>)
    requires Inv(s)
    ensures Sound(s) <==> Free(s) > 0 || |s.failing| % 256 == 0
    ensures s.failing == {} ==> Sound(s)
  {
    Wrap8Mod(-|s.failing|);
  }

  // ---------- whole runs ----------

  /** A run from s to s' in which every step is permitted. */
  ghost predicate Run<M>(s: State<M>, steps: seq<Step<M>>, s': State<M>)
    decreases |steps|
  {
    if steps == [] then s' == s
    else Permitted(s, steps[0]) && Run(Next(s, steps[0]), steps[1..], s')
  }

  lemma {:induction false} RunKeepsInv<M>(s: State<M>, steps: seq<Step<M>>, s': State<M>)
    requires Inv(s) && Run(s, steps, s')
    ensures Inv(s')
    decreases |steps|
  {
    if steps != [] {
      StepKeepsInv(s, steps[0]);
      RunKeepsInv(Next(s, steps[0]), steps[1..], s');
    }
  }

  /** A run in which no claim starts while another one has failed and not yet given back what it
      subtracted. */
  ghost predicate CalmRun<M>(s: State<M>, steps: seq<Step<M>>, s': State<M>)
    decreases |steps|
  {
    if steps == [] then s == s' else
    && Enabled(s, steps[0]) && (steps[0].ClaimSub? ==> s.failing == {})
    && CalmRun(Next(s, steps[0]), steps[1..], s')
  }

  /** Such runs take permitted steps only. */
  lemma {:induction false} CalmRunIsRun<M>(s: State<M>, steps: seq<Step<M>>, s': State<M>)
    requires Inv(s) && CalmRun(s, steps, s')
    ensures Run(s, steps, s')
    decreases |steps|
  {
    if steps != [] {
      SoundUnlessOverlapping(s);
      StepKeepsInv(s, steps[0]);
      CalmRunIsRun(Next(s, steps[0]), steps[1..], s');
    }
  }

  /** A state that some run of the queue reaches. */
  ghost predicate Reachable<M>(memory: seq<M>, steps: seq<Step<M>>, s: State<M>) {
    1 <= |memory| <= 32 && Run(Init(memory), steps, s)
  }

  lemma ReachableInv<M>(memory: seq<M>, steps: seq<Step<M>>, s: State<M>)
    requires Reachable(memory, steps, s)
    ensures Inv(s)
  {
    InitInv(memory);
    RunKeepsInv(Init(memory), steps, s);
  }

  // ---------- what the queue promises, in every reachable state ----------

  /** No slot belongs to two tickets that are claimed and not yet released. */
  lemma NoSharedSlot<M>(memory: seq<M>, steps: seq<Step<M>>, s: State<M>, i: nat, j: nat)
    requires Reachable(memory, steps, s)
    requires s.released <= i < j < s.Claimed()
    ensures s.slots[i] != s.slots[j]
  {
    ReachableInv(memory, steps, s);
    ModWindow(i, j, s.queueLen);
  }

  /** A successful claim returns a slot that is neither claimed, nor sent, nor received and not
      released: the number of live tickets was below the number of slots. */
  lemma ClaimReturnsFreeSlot<M>(memory: seq<M>, steps: seq<Step<M>>, s: State<M>, t: Tid, j: nat)
    requires Reachable(memory, steps, s)
    requires t in s.trying && s.sendp == s.trying[t]
    requires s.released <= j < s.Claimed()
    ensures Next(s, ClaimCas(t, false)).slots == s.slots + [s.trying[t]]
    ensures s.trying[t] < |memory| && s.trying[t] != s.slots[j]
  {
    ReachableInv(memory, steps, s);
    var s' := Next(s, ClaimCas(t, false));
    CasKeepsInv(s, t, false);
    RunLength(Init(memory), steps, s);
    ModWindow(j, s.Claimed(), s.queueLen);
  }

  lemma {:induction false} RunLength<M>(s: State<M>, steps: seq<Step<M>>, s': State<M>)
    requires Run(s, steps, s')
    ensures s'.queueLen == s.queueLen && |s'.cells| == |s.cells|
    decreases |steps|
  {
    if steps != [] {
      RunLength(Next(s, steps[0]), steps[1..], s');
    }
  }

  /** No index ever leaves the buffer or the flags: the owner of a message can always fill it in and send
      it, and the consumer can always look at its flag. */
  lemma IndicesInRange<M>(memory: seq<M>, steps: seq<Step<M>>, s: State<M>, j: nat, m: M)
    requires Reachable(memory, steps, s)
    ensures s.queueLen == |s.cells| == |memory| && s.sendp < s.queueLen && s.receivep < s.queueLen
    ensures Enabled(s, Receive)
    ensures j < s.Claimed() && j !in s.sent ==> Enabled(s, Write(j, m)) && Enabled(s, Send(j))
  {
    ReachableInv(memory, steps, s);
    RunLength(Init(memory), steps, s);
  }

  /** A claim that starts while no failed claim is waiting to undo its subtraction fails exactly when
      every slot is taken or promised. */
  lemma ClaimFailsWhenFull<M>(memory: seq<M>, steps: seq<Step<M>>, s: State<M>, t: Tid)
    requires Reachable(memory, steps, s)
    requires Enabled(s, ClaimSub(t)) && s.failing == {}
    ensures Sound(s)
    ensures t in Next(s, ClaimSub(t)).failing
            <==> |s.granted| + |s.trying| + (s.Claimed() - s.released) == s.queueLen
    ensures t in Next(s, ClaimSub(t)).failing || t in Next(s, ClaimSub(t)).granted
  {
    ReachableInv(memory, steps, s);
    SoundUnlessOverlapping(s);
  }

  /** Messages arrive in ticket order, each once: the n-th receive returns the slot of ticket n, which
      was sent before, and until it is released the slot holds what its sender wrote there. */
  lemma ReceivedInOrder<M>(memory: seq<M>, steps: seq<Step<M>>, s: State<M>, n: nat)
    requires Reachable(memory, steps, s)
    requires n < s.Received()
    ensures n < s.Claimed() && n in s.sent && s.taken[n] == s.slots[n] < |s.cells|
    ensures s.released <= n && n in s.wrote ==> s.cells[s.taken[n]] == s.wrote[n]
  {
    ReachableInv(memory, steps, s);
  }

  /** A receive succeeds exactly when the ticket whose turn it is has been sent, whatever later
      tickets have been sent meanwhile. */
  lemma ReceiveWaitsForTurn<M>(memory: seq<M>, steps: seq<Step<M>>, s: State<M>)
    requires Reachable(memory, steps, s)
    ensures Enabled(s, Receive)
    ensures Next(s, Receive).Received() == s.Received() + (if s.Received() in s.sent then 1 else 0)
  {
    ReachableInv(memory, steps, s);
    FirstAtIs(s.Received(), s.Received(), s.queueLen);
  }

  /** A bit of full_flags is set exactly when the live ticket that maps to it is sent and unreceived. */
  lemma FullFlags<M>(memory: seq<M>, steps: seq<Step<M>>, s: State<M>, j: nat)
    requires Reachable(memory, steps, s)
    requires s.Received() <= j < s.Claimed()
    ensures s.slots[j] < |s.fullFlags| && (s.fullFlags[s.slots[j]] <==> j in s.sent)
  {
    ReachableInv(memory, steps, s);
    FirstAtIs(s.Received(), j, s.queueLen);
  }

  /** And no other bit is set. */
  lemma NoStrayFlag<M>(memory: seq<M>, steps: seq<Step<M>>, s: State<M>, b: nat)
    requires Reachable(memory, steps, s)
    requires b < |s.fullFlags| && s.fullFlags[b]
    ensures exists j {:trigger s.slots[j]} :: s.Received() <= j < s.Claimed() && j in s.sent && s.slots[j] == b
  {
    ReachableInv(memory, steps, s);
    var j := FirstAt(s.Received(), b, s.queueLen);
    FirstAtMod(s.Received(), b, s.queueLen);
    assert s.slots[j] == b;
  }

  /** What a sender wrote stays what it wrote once the message is sent. */
  lemma {:induction false} SentStaysSent<M>(s: State<M>, steps: seq<Step<M>>, s': State<M>, n: nat)
    requires Run(s, steps, s') && n in s.sent
    ensures n in s'.sent && (n in s'.wrote <==> n in s.wrote)
    ensures n in s.wrote ==> s'.wrote[n] == s.wrote[n]
    decreases |steps|
  {
    if steps != [] {
      SentStaysSent(Next(s, steps[0]), steps[1..], s', n);
    }
  }

  // ---------- how claims end ----------

  /** A run in which every step is enabled, permitted or not. */
  ghost predicate EnabledRun<M>(s: State<M>, steps: seq<Step<M>>, s': State<M>)
    decreases |steps|
  {
    if steps == [] then s' == s
    else Enabled(s, steps[0]) && EnabledRun(Next(s, steps[0]), steps[1..], s')
  }

  /** No thread is inside messageq_claim. */
  ghost predicate Quiet<M>(s: State<M>) {
    s.failing == {} && s.granted == {} && s.trying == map[]
  }

  /** Steps of claims that have started, with a compare-and-swap that fails only if sendp has changed. */
  predicate Finishing<M>(step: Step<M>) {
    step.ClaimUndo? || step.ClaimLoad? || (step.ClaimCas? && !step.spurious)
  }

  /** How many threads were granted a slot and have not got it yet. */
  ghost function Promised<M>(s: State<M>): nat {
    |s.granted| + |s.trying|
  }

  /** The threads whose copy of sendp is out of date. */
  ghost function Stale<M>(s: State<M>): set<Tid> {
    set t | t in s.trying.Keys && s.trying[t] != s.sendp
  }

  /** A bound on the number of steps that it takes to finish all claims. */
  ghost function Work<M>(s: State<M>): nat {
    |s.failing| + Promised(s) * Promised(s) + |s.granted| + |Stale(s)|
  }

  /** Nothing but the places of threads, the counter, sendp and the slots claimed has changed. */
  ghost predicate OnlyClaims<M>(s: State<M>, s': State<M>) {
    && s' == s.(numFree := s'.numFree, sendp := s'.sendp, failing := s'.failing, granted := s'.granted,
                trying := s'.trying, slots := s'.slots)
    && s.slots <= s'.slots && s'.Claimed() + Promised(s') == s.Claimed() + Promised(s)
  }

  lemma FewerStale<M>(s: State<M>, s': State<M>, t: Tid)
    requires t in Stale(s) && t !in Stale(s') && Stale(s') <= Stale(s)
    ensures |Stale(s')| < |Stale(s)|
  {
    assert Stale(s') <= Stale(s) - {t};
    Cardinality(Stale(s'), Stale(s) - {t});
  }

  lemma {:induction false} Cardinality<A>(a: set<A>, b: set<A>)
    requires a <= b
    ensures |a| <= |b|
  {
    if a != {} {
      var x :| x in a;
      Cardinality(a - {x}, b - {x});
    }
  }

  /** A failed claim gives back what it subtracted and is over. */
  lemma UndoFinishes<M>(s: State<M>, t: Tid)
    requires Apart(s) && Enabled(s, ClaimUndo(t))
    ensures var s' := Next(s, ClaimUndo(t));
      Apart(s') && Enabled(s', ClaimSub(t)) && OnlyClaims(s, s') && Work(s') < Work(s)
  {
    assert Stale(Next(s, ClaimUndo(t))) == Stale(s);
  }

  lemma LoadFinishes<M>(s: State<M>, t: Tid)
    requires Apart(s) && Enabled(s, ClaimLoad(t))
    ensures var s' := Next(s, ClaimLoad(t));
      Apart(s') && t in s'.trying && s'.trying[t] == s'.sendp && OnlyClaims(s, s') && Work(s') < Work(s)
  {
    OneMoreKey(s.trying, t, s.sendp);
    assert Stale(Next(s, ClaimLoad(t))) == Stale(s);
  }

  /** A compare-and-swap brings the thread's copy up to date or ends its claim. */
  lemma CasFinishes<M>(s: State<M>, t: Tid)
    requires Apart(s) && Enabled(s, ClaimCas(t, false))
    ensures var s' := Next(s, ClaimCas(t, false));
      && Apart(s') && OnlyClaims(s, s') && Work(s') < Work(s)
      && if t in Stale(s) then t in s'.trying && s'.trying[t] == s'.sendp && s'.slots == s.slots
         else Enabled(s', ClaimSub(t)) && s'.slots == s.slots + [s.trying[t]]
  {
    var s' := Next(s, ClaimCas(t, false));
    if t in Stale(s) {
      assert s'.trying.Keys == s.trying.Keys && |s'.trying| == |s'.trying.Keys| && |s.trying| == |s.trying.Keys|;
      FewerStale(s, s', t);
    } else {
      CasEndsClaim(s, t);
    }
  }

  /** A spurious failure claims nothing and leaves the thread ready to try again, with a copy that is up to
      date. */
  lemma CasFailsSpuriously<M>(s: State<M>, t: Tid)
    requires Enabled(s, ClaimCas(t, true))
    ensures var s' := Next(s, ClaimCas(t, true));
      OnlyClaims(s, s') && s'.slots == s.slots && t in s'.trying && s'.trying[t] == s'.sendp == s.sendp
  {
    var s' := Next(s, ClaimCas(t, true));
    assert s'.trying.Keys == s.trying.Keys && |s'.trying| == |s'.trying.Keys| && |s.trying| == |s.trying.Keys|;
  }

  lemma CasLeaves<M>(s: State<M>, t: Tid)
    requires Enabled(s, ClaimCas(t, false)) && s.trying[t] == s.sendp
    ensures var s' := Next(s, ClaimCas(t, false));
      s'.trying.Keys == s.trying.Keys - {t} && |s'.trying| == |s.trying| - 1
  {
    var s' := Next(s, ClaimCas(t, false));
    assert s'.trying.Keys == s.trying.Keys - {t};
    assert |s'.trying| == |s'.trying.Keys| && |s.trying| == |s.trying.Keys|;
  }

  lemma CasEndsClaim<M>(s: State<M>, t: Tid)
    requires Apart(s) && Enabled(s, ClaimCas(t, false)) && s.trying[t] == s.sendp
    ensures var s' := Next(s, ClaimCas(t, false));
      Apart(s') && t !in s'.trying && |s'.trying| == |s.trying| - 1 && Work(s') < Work(s)
  {
    var s' := Next(s, ClaimCas(t, false));
    CasLeaves(s, t);
    Cardinality(Stale(s'), s'.trying.Keys);
    assert |Stale(s')| <= |s'.trying|;
    LessSquare(Promised(s), |Stale(s')|);
  }

  lemma LessSquare(n: nat, k: nat)
    requires k < n
    ensures (n - 1) * (n - 1) + k < n * n
  {
  }

  lemma FinishingStep<M>(s: State<M>, step: Step<M>)
    requires Apart(s) && Enabled(s, step) && Finishing(step)
    ensures Apart(Next(s, step)) && OnlyClaims(s, Next(s, step)) && Work(Next(s, step)) < Work(s)
  {
    match step
    case ClaimUndo(t) => UndoFinishes(s, t);
    case ClaimLoad(t) => LoadFinishes(s, t);
    case ClaimCas(t, _) => CasFinishes(s, t);
  }

  /** No schedule keeps the claims that have started from ending: each of their steps but for spurious
      failures is one of a bounded number, and until all claims are over, one of them is possible. */
  lemma {:induction false} ClaimsTerminate<M>(s: State<M>, steps: seq<Step<M>>, s': State<M>)
    requires Apart(s) && EnabledRun(s, steps, s') && forall step :: step in steps ==> Finishing(step)
    ensures Apart(s') && OnlyClaims(s, s') && |steps| + Work(s') <= Work(s)
    ensures Quiet(s') <==> forall step: Step<M> :: Finishing(step) ==> !Enabled(s', step)
    decreases |steps|
  {
    if steps != [] {
      FinishingStep(s, steps[0]);
      assert forall step :: step in steps[1..] ==> step in steps;
      ClaimsTerminate(Next(s, steps[0]), steps[1..], s');
    } else if !Quiet(s) {
      var step := SomeFinishing(s);
    }
  }

  lemma SomeFinishing<M>(s: State<M>) returns (step: Step<M>)
    requires !Quiet(s)
    ensures Finishing(step) && Enabled(s, step)
  {
    if s.failing != {} {
      var t :| t in s.failing;
      step := ClaimUndo(t);
    } else if s.granted != {} {
      var t :| t in s.granted;
      step := ClaimLoad(t);
    } else {
      var t :| t in s.trying;
      step := ClaimCas(t, false);
    }
  }

  /** All claims that have started can end, whatever else is going on. */
  lemma {:induction false} FinishClaims<M>(s: State<M>) returns (steps: seq<Step<M>>, s': State<M>)
    requires Apart(s)
    ensures EnabledRun(s, steps, s') && (forall step :: step in steps ==> Finishing(step))
    ensures Quiet(s') && OnlyClaims(s, s')
    decreases Work(s)
  {
    if Quiet(s) {
      return [], s;
    }
    var step := SomeFinishing(s);
    FinishingStep(s, step);
    var rest;
    rest, s' := FinishClaims(Next(s, step));
    steps := [step] + rest;
    assert steps[1..] == rest;
  }

  /** Steps of claims that have started are always permitted. */
  lemma {:induction false} FinishingIsRun<M>(s: State<M>, steps: seq<Step<M>>, s': State<M>)
    requires EnabledRun(s, steps, s') && forall step :: step in steps ==> Finishing(step)
    ensures Run(s, steps, s')
    decreases |steps|
  {
    if steps != [] {
      var rest := steps[1..];
      assert Finishing(steps[0]) && Permitted(s, steps[0]);
      forall step | step in rest ensures Finishing(step) {
        assert step in steps;
      }
      FinishingIsRun(Next(s, steps[0]), rest, s');
    }
  }

  /** When all claims that have started are over, the counter is the number of free slots: whoever was
      granted a slot has one, and whoever failed has left no trace. */
  lemma CounterSettles<M>(memory: seq<M>, steps: seq<Step<M>>, s: State<M>, rest: seq<Step<M>>, s': State<M>)
    requires Reachable(memory, steps, s)
    requires EnabledRun(s, rest, s') && (forall step :: step in rest ==> Finishing(step)) && Quiet(s')
    ensures s'.numFree == s'.queueLen - (s'.Claimed() - s'.released)
    ensures s'.Claimed() == s.Claimed() + |s.granted| + |s.trying| && OnlyClaims(s, s')
  {
    ReachableInv(memory, steps, s);
    FinishingIsRun(s, rest, s');
    RunKeepsInv(s, rest, s');
    ClaimsTerminate(s, rest, s');
  }

  /** And every reachable state leads there by such steps alone. */
  lemma ClaimsSettle<M>(memory: seq<M>, steps: seq<Step<M>>, s: State<M>)
    returns (rest: seq<Step<M>>, s': State<M>)
    requires Reachable(memory, steps, s)
    ensures Run(s, rest, s') && (forall step :: step in rest ==> Finishing(step)) && Quiet(s')
    ensures s'.numFree == s'.queueLen - (s'.Claimed() - s'.released)
    ensures s'.Claimed() == s.Claimed() + |s.granted| + |s.trying| && OnlyClaims(s, s')
  {
    ReachableInv(memory, steps, s);
    rest, s' := FinishClaims(s);
    FinishingIsRun(s, rest, s');
    CounterSettles(memory, steps, s, rest, s');
  }

  /** What a thread does in messageq_claim leaves all other threads where they are. */
  lemma OthersUnmoved<M>(s: State<M>, step: Step<M>, t: Tid)
    requires Enabled(s, step)
    requires (step.ClaimSub? || step.ClaimUndo? || step.ClaimLoad? || step.ClaimCas?) ==> step.t != t
    ensures var s' := Next(s, step);
      && (t in s'.failing <==> t in s.failing) && (t in s'.granted <==> t in s.granted)
      && (t in s'.trying <==> t in s.trying) && (t in s.trying ==> s'.trying[t] == s.trying[t])
  {
  }

  // ---------- what a run has done ----------

  ghost function Started<M>(steps: seq<Step<M>>): nat {
    if steps == [] then 0 else (if steps[0].ClaimSub? then 1 else 0) + Started(steps[1..])
  }

  ghost function Undone<M>(steps: seq<Step<M>>): nat {
    if steps == [] then 0 else (if steps[0].ClaimUndo? then 1 else 0) + Undone(steps[1..])
  }

  ghost function Releases<M>(steps: seq<Step<M>>): nat {
    if steps == [] then 0 else (if steps[0].Release? then 1 else 0) + Releases(steps[1..])
  }

  /** What was last written for a ticket, if anything. */
  ghost function Written<M>(steps: seq<Step<M>>, j: nat): (w: Option<M>) {
    if steps == [] then None else
    var later := Written(steps[1..], j);
    if later.None? && steps[0].Write? && steps[0].ticket == j then Some(steps[0].m) else later
  }

  lemma {:induction false} StepsCounted<M>(s: State<M>, steps: seq<Step<M>>, s': State<M>)
    requires Apart(s) && EnabledRun(s, steps, s')
    ensures Apart(s') && s'.released == s.released + Releases(steps)
    ensures s'.Claimed() + Promised(s') + |s'.failing| + Undone(steps)
         == s.Claimed() + Promised(s) + |s.failing| + Started(steps)
    decreases |steps|
  {
    if steps != [] {
      StepCounted(s, steps[0]);
      StepsCounted(Next(s, steps[0]), steps[1..], s');
    }
  }

  lemma StepCounted<M>(s: State<M>, step: Step<M>)
    requires Apart(s) && Enabled(s, step)
    ensures var s' := Next(s, step);
      && Apart(s')
      && s'.Claimed() + Promised(s') + |s'.failing| + (if step.ClaimUndo? then 1 else 0)
         == s.Claimed() + Promised(s) + |s.failing| + (if step.ClaimSub? then 1 else 0)
  {
    match step
    case ClaimSub(t) => SubEffect(s, t);
    case ClaimLoad(t) => LoadEffect(s, t);
    case ClaimCas(t, spurious) => CasCounted(s, t, spurious);
    case _ =>
  }

  lemma CasCounted<M>(s: State<M>, t: Tid, spurious: bool)
    requires Apart(s) && Enabled(s, ClaimCas(t, spurious))
    ensures var s' := Next(s, ClaimCas(t, spurious));
      Apart(s') && s'.Claimed() + |s'.trying| == s.Claimed() + |s.trying|
  {
    var s' := Next(s, ClaimCas(t, spurious));
    if spurious || s.trying[t] != s.sendp {
      assert s'.trying.Keys == s.trying.Keys && |s'.trying| == |s'.trying.Keys| && |s.trying| == |s.trying.Keys|;
    } else {
      CasLeaves(s, t);
    }
  }

  lemma {:induction false} StepsCounter<M>(s: State<M>, steps: seq<Step<M>>, s': State<M>, n: int)
    requires EnabledRun(s, steps, s') && s.numFree == Wrap8(n)
    ensures s'.numFree == Wrap8(n - Started(steps) + Undone(steps) + Releases(steps))
    decreases |steps|
  {
    if steps != [] {
      Wrap8Inc(n);
      Wrap8Dec(n);
      var step := steps[0];
      var n1 := if step.ClaimSub? then n - 1 else if step.ClaimUndo? || step.Release? then n + 1 else n;
      StepsCounter(Next(s, step), steps[1..], s', n1);
    }
  }

  lemma InitIdle<M>(memory: seq<M>)
    requires 1 <= |memory| <= 32
    ensures var s := Init(memory);
      && Apart(s) && s.numFree == Wrap8(|memory|)
      && s.Claimed() == 0 && Promised(s) == 0 && |s.failing| == 0 && s.released == 0
  {
  }

  /** Every claim that was ever started has failed and undone its subtraction, or holds a ticket, or is
      still in progress; the counter is what the subtractions and additions of the run make of the
      length. This is so even in runs that break the condition. */
  lemma ClaimsAccountedFor<M>(memory: seq<M>, steps: seq<Step<M>>, s: State<M>)
    requires 1 <= |memory| <= 32 && EnabledRun(Init(memory), steps, s)
    ensures Started(steps) == Undone(steps) + s.Claimed() + |s.failing| + |s.granted| + |s.trying|
    ensures s.numFree == Wrap8(|memory| - Started(steps) + Undone(steps) + Releases(steps))
    ensures s.released == Releases(steps)
  {
    InitIdle(memory);
    StepsCounted(Init(memory), steps, s);
    StepsCounter(Init(memory), steps, s, |memory|);
  }

  lemma {:induction false} TicketHistory<M>(s: State<M>, steps: seq<Step<M>>, s': State<M>, j: nat)
    requires EnabledRun(s, steps, s')
    ensures j in s'.sent <==> j in s.sent || Step.Send(j) in steps
    ensures var w := Written(steps, j);
      if w.Some? then j in s'.wrote && s'.wrote[j] == w.value
      else (j in s'.wrote <==> j in s.wrote) && (j in s.wrote ==> s'.wrote[j] == s.wrote[j])
    decreases |steps|
  {
    if steps != [] {
      assert steps == [steps[0]] + steps[1..];
      TicketHistory(Next(s, steps[0]), steps[1..], s', j);
    }
  }

  lemma {:induction false} RunIsEnabled<M>(s: State<M>, steps: seq<Step<M>>, s': State<M>)
    requires Run(s, steps, s')
    ensures EnabledRun(s, steps, s')
    decreases |steps|
  {
    if steps != [] {
      RunIsEnabled(Next(s, steps[0]), steps[1..], s');
    }
  }

  /** What the n-th receive returns was sent by a step of the run, and its slot holds what the last step
      that filled it in wrote, until it is released. */
  lemma ReceivedWasSent<M>(memory: seq<M>, steps: seq<Step<M>>, s: State<M>, n: nat)
    requires Reachable(memory, steps, s) && n < s.Received()
    ensures Step.Send(n) in steps && s.taken[n] < |s.cells|
    ensures s.released <= n && Written(steps, n).Some? ==> s.cells[s.taken[n]] == Written(steps, n).value
  {
    ReceivedInOrder(memory, steps, s, n);
    RunIsEnabled(Init(memory), steps, s);
    TicketHistory(Init(memory), steps, s, n);
  }

  // ---------- what happens when the condition fails ----------

  /** Slots are numbered as tickets are. */
  ghost predicate Numbered<M>(s: State<M>) {
    && 1 <= s.queueLen && s.sendp == s.Claimed() % s.queueLen
    && forall j :: 0 <= j < |s.slots| ==> s.slots[j] == j % s.queueLen
  }

  lemma {:induction false} RunNumbered<M>(s: State<M>, steps: seq<Step<M>>, s': State<M>)
    requires Numbered(s) && EnabledRun(s, steps, s')
    ensures Numbered(s')
    decreases |steps|
  {
    if steps != [] {
      if steps[0].ClaimCas? {
        ModStep(s.Claimed(), s.queueLen);
      }
      RunNumbered(Next(s, steps[0]), steps[1..], s');
    }
  }

  /** A claim that starts when the condition fails is promised a slot that there is not. */
  lemma UnsoundPromises<M>(s: State<M>, t: Tid)
    requires Inv(s) && Enabled(s, ClaimSub(t)) && !Sound(s)
    ensures var s1 := Next(s, ClaimSub(t));
      Apart(s1) && Numbered(s1) && s1.Claimed() - s1.released + Promised(s1) == s1.queueLen + 1
  {
    assert |s.granted + {t}| == |s.granted| + 1;
  }

  lemma SameSlot<M>(s: State<M>, j: nat)
    requires Numbered(s) && j + s.queueLen < s.Claimed()
    ensures s.slots[j] == s.slots[j + s.queueLen]
  {
    ModUnique(j + s.queueLen, j / s.queueLen + 1, j % s.queueLen, s.queueLen);
  }

  /** If more slots are promised than there are, more tickets than slots can be claimed. */
  lemma OverfullRun<M>(s: State<M>) returns (steps: seq<Step<M>>, s': State<M>)
    requires Apart(s) && Numbered(s) && s.Claimed() - s.released + Promised(s) == s.queueLen + 1
    ensures EnabledRun(s, steps, s') && Numbered(s') && s'.released + s'.queueLen < s'.Claimed()
  {
    steps, s' := FinishClaims(s);
    RunNumbered(s, steps, s');
  }

  /** Whenever the condition fails at a fetch_sub, the run can go on so that one slot has two owners. */
  lemma UnsoundShares<M>(s: State<M>, t: Tid) returns (steps: seq<Step<M>>, s': State<M>)
    requires Inv(s) && Enabled(s, ClaimSub(t)) && !Sound(s)
    ensures EnabledRun(Next(s, ClaimSub(t)), steps, s')
    ensures s'.released + s'.queueLen < s'.Claimed()
    ensures s'.slots[s'.released] == s'.slots[s'.released + s'.queueLen]
  {
    UnsoundPromises(s, t);
    steps, s' := OverfullRun(Next(s, ClaimSub(t)));
    SameSlot(s', s'.released);
  }

  // ---------- a run that breaks the condition ----------

  /** Take the steps of a run whether they are permitted or only enabled. */
  function Replay<M>(s: State<M>, steps: seq<Step<M>>): (r: State<M>)
    decreases |steps|
  {
    if steps == [] || !Enabled(s, steps[0]) then s else Replay(Next(s, steps[0]), steps[1..])
  }

  /** With a queue of one slot: while thread 1 fails to claim and has not yet undone its subtraction,
      thread 2 is granted the slot that thread 0 still holds. */
  lemma OverlappingClaims(m: int)
    ensures var s1 := Replay(Init([m]), Claim(0) + [ClaimSub(1)]); var s2 := Replay(s1, Claim(2));
      && !Sound(s1) && Enabled(s1, ClaimSub(2))
      && s2.slots == [0, 0] && s2.released == 0 && s2.sent == {}
  {
    var s0 := Init([m]);
    ClaimReplays(s0, 0, [ClaimSub(1)]);
    var s3 := s0.(numFree := 0, slots := [0]);
    assert Claimed1(s0, 0) == s3;
    var s4 := s3.(numFree := 255, failing := {1});
    assert Replay(s4, []) == s4;
    assert Replay(s3, [ClaimSub(1)]) == s4 && !Sound(s4);
    ClaimReplays(s4, 2, []);
    assert Claim<int>(2) + [] == Claim<int>(2);
    assert Replay(Claimed1(s4, 2), []) == Claimed1(s4, 2);
  }

  /** All steps of one thread's uncontended claim. */
  function Claim<M>(t: Tid): seq<Step<M>> {
    [ClaimSub(t), ClaimLoad(t), ClaimCas(t, false)]
  }

  /** The state after them, if num_free does not read as zero. */
  function Claimed1<M>(s: State<M>, t: Tid): State<M> {
    s.(numFree := Dec8(s.numFree), sendp := Succ(s.sendp, s.queueLen), slots := s.slots + [s.sendp])
  }

  /** The steps of a claim that fails. */
  function FailedClaim<M>(t: Tid): seq<Step<M>> {
    [ClaimSub(t), ClaimUndo(t)]
  }

  /** They leave the queue as it was. */
  lemma FailedClaimReplays<M>(s: State<M>, t: Tid)
    requires Enabled(s, ClaimSub(t)) && s.numFree == 0
    ensures Replay(s, FailedClaim(t)) == s
  {
    var s1 := Next(s, ClaimSub(t));
    assert s.failing + {t} - {t} == s.failing;
    assert Next(s1, ClaimUndo(t)) == s;
    assert FailedClaim<M>(t)[1..] == [ClaimUndo(t)] && FailedClaim<M>(t)[1..][1..] == [];
    assert Replay(s, []) == s;
    assert Replay(s1, [ClaimUndo(t)]) == s;
  }

  lemma ClaimReplays<M>(s: State<M>, t: Tid, rest: seq<Step<M>>)
    requires Enabled(s, ClaimSub(t)) && s.numFree > 0
    ensures Replay(s, Claim(t) + rest) == Replay(Claimed1(s, t), rest)
  {
    var s1 := Next(s, ClaimSub(t));
    var s2 := Next(s1, ClaimLoad(t));
    var s3 := Next(s2, ClaimCas(t, false));
    assert s1.granted - {t} == s.granted;
    assert s.trying[t := s.sendp] - {t} == s.trying;
    assert s3 == Claimed1(s, t);
    var steps := Claim(t) + rest;
    assert steps[1..][1..][1..] == rest;
    assert Replay(s2, steps[1..][1..]) == Replay(s3, rest);
    assert Replay(s1, steps[1..]) == Replay(s2, steps[1..][1..]);
  }
}
