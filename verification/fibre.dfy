/** The fibre scheduler of librfn/fibre.c as it works in memory: one kernel object, two linked lists that
    share the link of every fibre, and the queue of atomic requests. Each function is proved equal to
    its counterpart in module Scheduler. */
module Fibre {
  import opened List
  import opened Scheduler
  import opened Words
  import opened Wrappers
  import Mq = MessageQueueObject

  type Fibre = Node<Descriptor>

  // ---------- the two lists ----------

  ghost predicate LinkOk(f: Fibre, rq: seq<Fibre>, tq: seq<Fibre>)
    reads f`next
  {
    f !in rq && f !in tq ==> f.next == null
  }

  /** The two lists hold disjoint sequences of known fibres, and a fibre in neither has a null link. */
  ghost predicate QueuesHold(runq: LinkedList<Descriptor>, timerq: LinkedList<Descriptor>,
                             rq: seq<Fibre>, tq: seq<Fibre>, fibres: set<Fibre>)
    reads runq, timerq, runq.nodes`next, timerq.nodes`next, fibres`next
  {
    && runq != timerq && runq.Valid() && timerq.Valid() && runq.nodes == rq && timerq.nodes == tq
    && (forall f :: f in rq ==> f !in tq && f in fibres)
    && (forall f :: f in tq ==> f in fibres)
    && (forall f {:trigger LinkOk(f, rq, tq)} :: f in fibres ==> LinkOk(f, rq, tq))
  }

  lemma QueuesHoldSwapped(runq: LinkedList<Descriptor>, timerq: LinkedList<Descriptor>,
                          rq: seq<Fibre>, tq: seq<Fibre>, fibres: set<Fibre>)
    requires QueuesHold(runq, timerq, rq, tq, fibres)
    ensures QueuesHold(timerq, runq, tq, rq, fibres)
  {
    forall f | f in fibres ensures LinkOk(f, tq, rq) {
      assert LinkOk(f, rq, tq);
    }
  }

  /** Takes a fibre off one of the two lists. */
  method Unqueue(list: LinkedList<Descriptor>, other: LinkedList<Descriptor>, f: Fibre,
                 ghost lq: seq<Fibre>, ghost oq: seq<Fibre>, ghost fibres: set<Fibre>) returns (found: bool)
    requires QueuesHold(list, other, lq, oq, fibres) && f in fibres
    modifies list, fibres`next
    ensures QueuesHold(list, other, Without(lq, f), oq, fibres)
    ensures found <==> f in lq
  {
    WithoutKeeps(lq, f);
    assert forall i :: 0 <= i < |oq| ==> oq[i] in oq && oq[i] !in lq;
    found := list.Remove(f);
    assert Linked(oq);
    forall g | g in fibres ensures LinkOk(g, Without(lq, f), oq) {
      assert old(LinkOk(g, lq, oq));
    }
  }

  /** Puts a fibre that is in no list at the end of one of them. */
  method Append(list: LinkedList<Descriptor>, other: LinkedList<Descriptor>, f: Fibre,
                ghost lq: seq<Fibre>, ghost oq: seq<Fibre>, ghost fibres: set<Fibre>)
    requires QueuesHold(list, other, lq, oq, fibres) && f in fibres && f !in lq && f !in oq
    modifies list, fibres`next
    ensures QueuesHold(list, other, lq + [f], oq, fibres)
  {
    assert LinkOk(f, lq, oq);
    assert forall i :: 0 <= i < |oq| ==> oq[i] in oq && oq[i] !in lq;
    list.Insert(f);
    assert Linked(oq);
    forall g | g in fibres ensures LinkOk(g, lq + [f], oq) {
      assert old(LinkOk(g, lq, oq));
    }
  }

  /** Takes a fibre off the timer queue, if it is there, and makes it runnable. */
  method Requeue(runq: LinkedList<Descriptor>, timerq: LinkedList<Descriptor>, f: Fibre,
                 ghost rq: seq<Fibre>, ghost tq: seq<Fibre>, ghost fibres: set<Fibre>)
    requires QueuesHold(runq, timerq, rq, tq, fibres) && f in fibres && f !in rq
    modifies runq, timerq, fibres`next
    ensures QueuesHold(runq, timerq, rq + [f], Without(tq, f), fibres)
  {
    QueuesHoldSwapped(runq, timerq, rq, tq, fibres);
    var _ := Unqueue(timerq, runq, f, tq, rq, fibres);
    WithoutKeeps(tq, f);
    QueuesHoldSwapped(timerq, runq, Without(tq, f), rq, fibres);
    Append(runq, timerq, f, rq, Without(tq, f), fibres);
  }

  /** One round of handle_timerq. */
  method Expire(runq: LinkedList<Descriptor>, timerq: LinkedList<Descriptor>, iter: Iterator<Descriptor>,
                ghost rq: seq<Fibre>, ghost tq: seq<Fibre>, ghost fibres: set<Fibre>) returns (node: Node?<Descriptor>)
    requires QueuesHold(runq, timerq, rq, tq, fibres) && tq != []
    requires iter.list == timerq && iter.pos == 0 && iter.prevnext == HeadSlot
    modifies runq, timerq, fibres`next
    ensures QueuesHold(runq, timerq, rq + [tq[0]], tq[1..], fibres) && node == NodeAt(tq[1..], 0)
  {
    var timeoutFibre := timerq.head;
    assert tq == [tq[0]] + tq[1..];
    node := RemoveHead(runq, timerq, iter, rq, tq, fibres);
    Append(runq, timerq, timeoutFibre, rq, tq[1..], fibres);
  }

  /** Both removals of fibre_kill. */
  method UnqueueBoth(runq: LinkedList<Descriptor>, timerq: LinkedList<Descriptor>, f: Fibre,
                     ghost rq: seq<Fibre>, ghost tq: seq<Fibre>, ghost fibres: set<Fibre>) returns (res: bool)
    requires QueuesHold(runq, timerq, rq, tq, fibres) && f in fibres
    modifies runq, timerq, fibres`next
    ensures QueuesHold(runq, timerq, Without(rq, f), Without(tq, f), fibres)
    ensures res <==> f in rq || f in tq
  {
    var running := Unqueue(runq, timerq, f, rq, tq, fibres);
    QueuesHoldSwapped(runq, timerq, Without(rq, f), tq, fibres);
    var sleeping := Unqueue(timerq, runq, f, tq, Without(rq, f), fibres);
    QueuesHoldSwapped(timerq, runq, Without(tq, f), Without(rq, f), fibres);
    res := running || sleeping;
  }

  /** A new fibre joins the ones that are in no list. */
  lemma AddFibre(runq: LinkedList<Descriptor>, timerq: LinkedList<Descriptor>, f: Fibre,
                 rq: seq<Fibre>, tq: seq<Fibre>, fibres: set<Fibre>)
    requires runq != timerq && runq.Valid() && timerq.Valid() && runq.nodes == rq && timerq.nodes == tq
    requires (forall g :: g in rq ==> g !in tq && g in fibres) && (forall g :: g in tq ==> g in fibres)
    requires f.next == null && forall g {:trigger LinkOk(g, rq, tq)} :: g in fibres && g != f ==> LinkOk(g, rq, tq)
    ensures QueuesHold(runq, timerq, rq, tq, fibres + {f})
  {
    forall g | g in fibres + {f} ensures LinkOk(g, rq, tq) {
      assert g in fibres && g != f ==> LinkOk(g, rq, tq);
    }
  }

  /** The removal of handle_timerq: the iterator stays at the head of the timer queue. */
  method RemoveHead(runq: LinkedList<Descriptor>, timerq: LinkedList<Descriptor>, iter: Iterator<Descriptor>,
                    ghost rq: seq<Fibre>, ghost tq: seq<Fibre>, ghost fibres: set<Fibre>)
    returns (node: Node?<Descriptor>)
    requires QueuesHold(runq, timerq, rq, tq, fibres) && tq != []
    requires iter.Valid() && iter.list == timerq && iter.pos == 0
    modifies timerq, fibres`next
    ensures QueuesHold(runq, timerq, rq, tq[1..], fibres)
    ensures node == NodeAt(tq[1..], 0)
  {
    assert forall i :: 0 <= i < |rq| ==> rq[i] in rq && rq[i] !in tq;
    assert tq == [tq[0]] + tq[1..];
    node := iter.Remove();
    assert Linked(rq);
    forall g | g in fibres ensures LinkOk(g, rq, tq[1..]) {
      assert old(LinkOk(g, rq, tq));
    }
  }

  /** The insertion of fibre_timeout. */
  method Sleep(runq: LinkedList<Descriptor>, timerq: LinkedList<Descriptor>, f: Fibre,
               ghost rq: seq<Fibre>, ghost tq: seq<Fibre>, ghost fibres: set<Fibre>)
    requires QueuesHold(runq, timerq, rq, tq, fibres) && f in fibres && f !in rq && f !in tq
    modifies timerq, fibres`next
    ensures QueuesHold(runq, timerq, rq, InsertAt(tq, f, InsertIx(DuetimeCmp, f.key, old(Keys(tq)))), fibres)
  {
    assert LinkOk(f, rq, tq);
    assert forall i :: 0 <= i < |rq| ==> rq[i] in rq && rq[i] !in tq && rq[i] != f;
    ghost var k := InsertIx(DuetimeCmp, f.key, Keys(tq));
    InsertAtKeeps(tq, f, k);
    timerq.InsertSorted(f, DuetimeCmp);
    assert Linked(rq);
    forall g | g in fibres ensures LinkOk(g, rq, InsertAt(tq, f, k)) {
      assert old(LinkOk(g, rq, tq));
    }
  }

  method Extract(runq: LinkedList<Descriptor>, timerq: LinkedList<Descriptor>,
                 ghost rq: seq<Fibre>, ghost tq: seq<Fibre>, ghost fibres: set<Fibre>) returns (f: Node?<Descriptor>)
    requires QueuesHold(runq, timerq, rq, tq, fibres)
    modifies runq, fibres`next
    ensures QueuesHold(runq, timerq, Rest(rq), tq, fibres)
    ensures f == NodeAt(rq, 0)
  {
    assert forall i :: 0 <= i < |tq| ==> tq[i] in tq && tq[i] !in rq;
    f := runq.Extract();
    assert timerq.Valid();
    if f != null {
      assert rq == [f] + rq[1..];
      forall g | g in fibres ensures LinkOk(g, rq[1..], tq) {
        assert old(LinkOk(g, rq, tq));
      }
    }
  }

  method NewQueues() returns (runq: LinkedList<Descriptor>, timerq: LinkedList<Descriptor>)
    ensures fresh(runq) && fresh(timerq) && QueuesHold(runq, timerq, [], [], {})
  {
    runq := new LinkedList();
    timerq := new LinkedList();
  }

  // ---------- the atomic requests ----------

  ghost predicate RequestsHold(q: Mq.Queue<Fibre>, pending: seq<Fibre>, held: int)
    reads q, q.cells
  {
    && q.Valid() && Mq.Tidy(q.s) && q.queueLen == ATOMIC_SLOTS
    && Mq.Pending(q.s) == pending && Mq.Held(q.s) == held
  }

  /** messageq_init over eight slots. */
  method NewRequests() returns (q: Mq.Queue<Fibre>)
    ensures fresh(q) && fresh(q.cells) && RequestsHold(q, [], 0)
  {
    var placeholder := new Node(Descriptor(Yielded, 0, 0));
    var memory := new Fibre[ATOMIC_SLOTS](_ => placeholder);
    q := new Mq.Queue(memory);
  }

  ghost function Rest<A>(s: seq<A>): seq<A> {
    if s == [] then [] else s[1..]
  }

  method TakeRequest(q: Mq.Queue<Fibre>, ghost pending: seq<Fibre>, ghost held: int) returns (slot: int)
    requires RequestsHold(q, pending, held)
    modifies q
    ensures if pending == [] then slot == -1 else 0 <= slot < q.cells.Length && q.cells[slot] == pending[0]
    ensures RequestsHold(q, Rest(pending), if pending == [] then held else held + 1)
  {
    Mq.ReceiveTidy(q.s);
    slot := q.Receive();
  }

  method ReleaseRequest(q: Mq.Queue<Fibre>, ghost pending: seq<Fibre>, ghost held: int)
    requires RequestsHold(q, pending, held) && held > 0
    modifies q
    ensures RequestsHold(q, pending, held - 1)
  {
    Mq.ReleaseTidy(q.s);
    q.Release();
  }

  method PostRequest(q: Mq.Queue<Fibre>, f: Fibre, ghost pending: seq<Fibre>, ghost held: int) returns (ok: bool)
    requires RequestsHold(q, pending, held)
    modifies q, q.cells
    ensures ok <==> |pending| + held < ATOMIC_SLOTS
    ensures RequestsHold(q, if ok then pending + [f] else pending, held)
  {
    Mq.NumFree(q.s);
    ghost var s := q.s;
    var slot := q.Claim();
    if slot == -1 {
      return false;
    }
    Mq.PostedByStep(s, f);
    Mq.PostedTidy(s, f);
    q.Store(slot, f, s.Claimed());
    q.Send(slot, s.Claimed());
    return true;
  }

  // ---------- the kernel ----------

  function ToOption(f: Node?<Descriptor>): Option<Fibre> {
    if f == null then None else Some(f)
  }

  ghost predicate DescOk(f: Fibre, states: map<Fibre, FibreState>, privs: map<Fibre, nat>, dues: map<Fibre, nat>)
    reads f`key
  {
    f.key == Lookup(states, privs, dues, f)
  }

  ghost predicate DescsHold(fibres: set<Fibre>,
                            states: map<Fibre, FibreState>, privs: map<Fibre, nat>, dues: map<Fibre, nat>)
    reads fibres`key
  {
    && (forall f {:trigger DescOk(f, states, privs, dues)} :: f in fibres ==> DescOk(f, states, privs, dues))
    && states.Keys <= fibres && privs.Keys <= fibres && dues.Keys <= fibres
  }

  method StoreDuetime(f: Fibre, duetime: nat, ghost fibres: set<Fibre>, ghost states: map<Fibre, FibreState>,
                      ghost privs: map<Fibre, nat>, ghost dues: map<Fibre, nat>)
    requires DescsHold(fibres, states, privs, dues) && f in fibres
    modifies f`key
    ensures DescsHold(fibres, states, privs, dues[f := duetime])
  {
    assert DescOk(f, states, privs, dues);
    f.key := f.key.(duetime := duetime);
    forall g | g in fibres ensures DescOk(g, states, privs, dues[f := duetime]) {
      assert old(DescOk(g, states, privs, dues));
    }
  }

  method StorePriv(f: Fibre, priv: nat, ghost fibres: set<Fibre>, ghost states: map<Fibre, FibreState>,
                   ghost privs: map<Fibre, nat>, ghost dues: map<Fibre, nat>)
    requires DescsHold(fibres, states, privs, dues) && f in fibres
    modifies f`key
    ensures DescsHold(fibres, states, privs[f := priv], dues)
  {
    assert DescOk(f, states, privs, dues);
    f.key := f.key.(priv := priv);
    forall g | g in fibres ensures DescOk(g, states, privs[f := priv], dues) {
      assert old(DescOk(g, states, privs, dues));
    }
  }

  method StoreState(f: Fibre, state: FibreState, ghost fibres: set<Fibre>, ghost states: map<Fibre, FibreState>,
                    ghost privs: map<Fibre, nat>, ghost dues: map<Fibre, nat>)
    requires DescsHold(fibres, states, privs, dues) && f in fibres
    modifies f`key
    ensures DescsHold(fibres, states[f := state], privs, dues)
  {
    assert DescOk(f, states, privs, dues);
    f.key := f.key.(state := state);
    forall g | g in fibres ensures DescOk(g, states[f := state], privs, dues) {
      assert old(DescOk(g, states, privs, dues));
    }
  }

  /** The due times in the keys of a list. */
  lemma KeysAreDescs(s: Sched<Fibre>, fibres: set<Fibre>)
    requires DescsHold(fibres, s.states, s.privs, s.dues) && forall f :: f in s.timerq ==> f in fibres
    ensures Keys(s.timerq) == Descs(s, s.timerq)
  {
    forall i | 0 <= i < |s.timerq| ensures s.timerq[i].key == Desc(s, s.timerq[i]) {
      assert s.timerq[i] in s.timerq;
      assert DescOk(s.timerq[i], s.states, s.privs, s.dues);
    }
  }

  lemma AddDesc(f: Fibre, fibres: set<Fibre>, states: map<Fibre, FibreState>, privs: map<Fibre, nat>,
                dues: map<Fibre, nat>)
    requires f.key == Descriptor(Yielded, 0, 0)
    requires forall g {:trigger DescOk(g, states, privs, dues)} ::
               g in fibres && g != f ==> DescOk(g, states, privs, dues)
    requires states.Keys <= fibres && privs.Keys <= fibres && dues.Keys <= fibres
    ensures DescsHold(fibres + {f}, states - {f}, privs - {f}, dues - {f})
  {
    forall g | g in fibres + {f} ensures DescOk(g, states - {f}, privs - {f}, dues - {f}) {
      assert g in fibres && g != f ==> DescOk(g, states, privs, dues);
    }
  }

  /** memset of fibre_init. */
  method ClearFibre(f: Fibre, runq: LinkedList<Descriptor>, timerq: LinkedList<Descriptor>,
                    ghost s: Sched<Fibre>, ghost fibres: set<Fibre>)
    requires QueuesHold(runq, timerq, s.runq, s.timerq, fibres) && DescsHold(fibres, s.states, s.privs, s.dues)
    requires f !in s.runq && f !in s.timerq
    modifies f
    ensures QueuesHold(runq, timerq, s.runq, s.timerq, fibres + {f})
    ensures DescsHold(fibres + {f}, s.states - {f}, s.privs - {f}, s.dues - {f})
  {
    assert forall i :: 0 <= i < |s.runq| ==> s.runq[i] in s.runq;
    assert forall i :: 0 <= i < |s.timerq| ==> s.timerq[i] in s.timerq;
    f.next := null;
    f.key := Descriptor(Yielded, 0, 0);
    assert Linked(s.runq) && Linked(s.timerq);
    forall g | g in fibres && g != f
      ensures LinkOk(g, s.runq, s.timerq) && DescOk(g, s.states, s.privs, s.dues) {
      assert old(LinkOk(g, s.runq, s.timerq)) && old(DescOk(g, s.states, s.privs, s.dues));
    }
    AddFibre(runq, timerq, f, s.runq, s.timerq, fibres);
    AddDesc(f, fibres, s.states, s.privs, s.dues);
  }

  /** All fibres that the scheduler knows of have been initialised. */
  ghost predicate Known(s: Sched<Fibre>, fibres: set<Fibre>) {
    && (forall f :: f in s.runq ==> f in fibres)
    && (forall f :: f in s.timerq ==> f in fibres)
    && (forall f :: f in s.pending ==> f in fibres)
    && (s.current.Some? ==> s.current.value in fibres)
  }

  // ---------- the abstract steps keep the queues apart and the fibres known ----------

  ghost predicate Sound(s: Sched<Fibre>, fibres: set<Fibre>) {
    Inv(s) && Known(s, fibres)
  }

  lemma InitialSound()
    ensures Sound(Initial(), {})
  {
  }

  lemma RestSound(s: Sched<Fibre>, fibres: set<Fibre>)
    requires Sound(s, fibres)
    ensures Sound(s.(pending := Rest(s.pending)), fibres)
  {
  }

  lemma RequestSound(s: Sched<Fibre>, f: Fibre, fibres: set<Fibre>)
    requires Sound(s, fibres) && f in fibres && |s.pending| < ATOMIC_SLOTS
    ensures Sound(s.(pending := s.pending + [f]), fibres)
  {
  }

  lemma InitSound(s: Sched<Fibre>, f: Fibre, fibres: set<Fibre>)
    requires Sound(s, fibres)
    ensures Sound(Scheduler.FibreInit(s, f), fibres + {f})
  {
  }

  lemma EnqueueSound(s: Sched<Fibre>, f: Fibre, fibres: set<Fibre>)
    requires Sound(s, fibres) && f in fibres
    ensures Sound(Enqueue(s, f), fibres)
  {
    EnqueueKeepsInv(s, f);
  }

  lemma RemovedSound(s: Sched<Fibre>, f: Fibre, fibres: set<Fibre>)
    requires Sound(s, fibres)
    ensures Sound(s.(runq := Without(s.runq, f), timerq := Without(s.timerq, f)), fibres)
  {
    WithoutKeeps(s.runq, f);
    WithoutKeeps(s.timerq, f);
  }

  lemma ExpiredSound(s: Sched<Fibre>, fibres: set<Fibre>)
    requires Sound(s, fibres) && s.timerq != []
    ensures Sound(s.(timerq := s.timerq[1..], runq := s.runq + [s.timerq[0]]), fibres)
  {
    MovePrefix(s.timerq, s.runq, 1);
    assert s.timerq[..1] == [s.timerq[0]];
  }

  lemma TakenSound(s: Sched<Fibre>, fibres: set<Fibre>)
    requires Sound(s, fibres)
    ensures Sound(s.(runq := Rest(s.runq)), fibres)
    ensures s.runq != [] ==> s.runq[0] in fibres && s.runq[0] !in Rest(s.runq) && s.runq[0] !in s.timerq
  {
    if s.runq != [] {
      assert s.runq == [s.runq[0]] + s.runq[1..];
    }
  }

  lemma AsleepSound(s: Sched<Fibre>, f: Fibre, fibres: set<Fibre>)
    requires Sound(s, fibres) && f in fibres && f !in s.runq && f !in s.timerq
    ensures Sound(FallAsleep(s, f), fibres)
  {
    InsertAtKeeps(s.timerq, f, InsertIx(DuetimeCmp, Desc(s, f), Descs(s, s.timerq)));
  }

  class Kernel {
    var current: Node?<Descriptor>
    var state: FibreState
    var now: nat
    const runq: LinkedList<Descriptor>
    const timerq: LinkedList<Descriptor>
    const atomicRunq: Mq.Queue<Fibre>
    ghost var fibres: set<Fibre>
    ghost var s: Sched<Fibre>

    /** held is the number of atomic requests that are received and not yet released. */
    ghost predicate Valid(held: int)
      reads this, runq, timerq, runq.nodes`next, timerq.nodes`next, atomicRunq, atomicRunq.cells, fibres
    {
      && QueuesHold(runq, timerq, s.runq, s.timerq, fibres)
      && RequestsHold(atomicRunq, s.pending, held)
      && DescsHold(fibres, s.states, s.privs, s.dues)
      && Sound(s, fibres)
      && s.current == ToOption(current) && s.state == state && s.now == now
    }

    /** The abstract state that the kernel stands for; None if its memory is inconsistent. */
    ghost function View(held: int): Option<Sched<Fibre>>
      reads this, runq, timerq, runq.nodes`next, timerq.nodes`next, atomicRunq, atomicRunq.cells, fibres
    {
      if Valid(held) then Some(s) else None
    }

    constructor ()
      ensures View(0) == Some(Initial()) && fibres == {}
    {
      current, state, now := null, Yielded, 0;
      var rq, tq := NewQueues();
      var requests := NewRequests();
      runq, timerq, atomicRunq := rq, tq, requests;
      fibres, s := {}, Initial();
      InitialSound();
    }

    /** messageq_receive. */
    method Receive(ghost held: int) returns (slot: int)
      requires View(held).Some?
      modifies `s, atomicRunq
      ensures View(if old(s.pending) == [] then held else held + 1) == Some(old(s).(pending := Rest(old(s.pending))))
      ensures if old(s.pending) == [] then slot == -1
              else 0 <= slot < atomicRunq.cells.Length && atomicRunq.cells[slot] == old(s.pending)[0]
    {
      ghost var rest := s.(pending := Rest(s.pending));
      RestSound(s, fibres);
      slot := TakeRequest(atomicRunq, s.pending, held);
      s := rest;
    }

    /** messageq_release. */
    method Release(ghost held: int)
      requires View(held).Some? && held > 0
      modifies atomicRunq
      ensures View(held - 1) == Some(s)
    {
      ReleaseRequest(atomicRunq, s.pending, held);
    }

    method HandleAtomicRunq(ghost held: int)
      requires View(held).Some? && held >= 0
      modifies `s, runq, timerq, atomicRunq, fibres`next
      ensures View(held) == Some(Drain(old(s)))
      decreases |s.pending|, 0
    {
      ghost var p, rest, drained := s.pending, s.(pending := Rest(s.pending)), Drain(s);
      var slot := Receive(held);
      while slot != -1
        invariant if slot == -1 then View(held) == Some(drained) else
                    && View(held + 1) == Some(rest)
                    && p != [] && 0 <= slot < atomicRunq.cells.Length && atomicRunq.cells[slot] == p[0]
        decreases slot != -1
      {
        slot := Serve(slot, held);
      }
    }

    /** Serves a request, which serves all later ones first; then there is no next one. */
    method Serve(slot: int, ghost held: int) returns (next: int)
      requires View(held + 1).Some? && held >= 0
      requires 0 <= slot < atomicRunq.cells.Length && atomicRunq.cells[slot] in fibres
      modifies `s, runq, timerq, atomicRunq, fibres`next
      ensures View(held) == Some(Scheduler.FibreRun(old(s), atomicRunq.cells[slot])) && next == -1
      decreases |s.pending|, 2
    {
      DrainAppends(s);
      FibreRun(atomicRunq.cells[slot], held + 1);
      Release(held + 1);
      next := Receive(held);
    }

    method FibreRun(f: Fibre, ghost held: int)
      requires View(held).Some? && held >= 0 && f in fibres
      modifies `s, runq, timerq, atomicRunq, fibres`next
      ensures View(held) == Some(Scheduler.FibreRun(old(s), f))
      decreases |s.pending|, 1
    {
      HandleAtomicRunq(held);
      var found, _ := runq.Contains(f);
      if !found {
        MoveToRunq(f, held);
      }
    }

    /** The part of fibre_run for a fibre that is not runnable. */
    method MoveToRunq(f: Fibre, ghost held: int)
      requires View(held).Some? && f in fibres && f !in s.runq
      modifies `s, runq, timerq, fibres`next
      ensures View(held) == Some(Enqueue(old(s), f))
    {
      EnqueueSound(s, f, fibres);
      Requeue(runq, timerq, f, s.runq, s.timerq, fibres);
      s := Enqueue(s, f);
    }

    /** fibre_init zeroes a descriptor, new or idle. */
    method FibreInit(f: Fibre)
      requires View(0).Some? && f !in s.runq && f !in s.timerq
      modifies `s, `fibres, f
      ensures View(0) == Some(Scheduler.FibreInit(old(s), f)) && fibres == old(fibres) + {f}
    {
      ghost var s0, fibres0 := s, fibres;
      InitSound(s, f, fibres);
      s, fibres := Scheduler.FibreInit(s, f), fibres + {f};
      ClearFibre(f, runq, timerq, s0, fibres0);
    }

    /** A slot that is received and not yet released is not free. */
    method FibreRunAtomic(f: Fibre, ghost held: int) returns (ok: bool)
      requires View(held).Some? && held >= 0 && f in fibres
      modifies `s, atomicRunq, atomicRunq.cells
      ensures ok <==> |old(s.pending)| + held < ATOMIC_SLOTS
      ensures View(held) == Some(if ok then old(s).(pending := old(s.pending) + [f]) else old(s))
    {
      ghost var p := s.pending;
      if |p| + held < ATOMIC_SLOTS {
        RequestSound(s, f, fibres);
        s := s.(pending := p + [f]);
      }
      assert Sound(s, fibres);
      ok := PostRequest(atomicRunq, f, p, held);
    }

    method FibreKill(f: Fibre) returns (res: bool)
      requires View(0).Some? && f in fibres
      modifies `s, runq, timerq, atomicRunq, fibres`next
      ensures View(0) == Some(Scheduler.FibreKill(old(s), f))
      ensures res <==> f in Drain(old(s)).runq || f in Drain(old(s)).timerq
    {
      HandleAtomicRunq(0);
      res := RemoveEverywhere(f);
    }

    method RemoveEverywhere(f: Fibre) returns (res: bool)
      requires View(0).Some? && f in fibres
      modifies `s, runq, timerq, fibres`next
      ensures View(0) == Some(old(s).(runq := Without(old(s.runq), f), timerq := Without(old(s.timerq), f)))
      ensures res <==> f in old(s.runq) || f in old(s.timerq)
    {
      RemovedSound(s, f, fibres);
      res := UnqueueBoth(runq, timerq, f, s.runq, s.timerq, fibres);
      s := s.(runq := Without(s.runq, f), timerq := Without(s.timerq, f));
    }

    method FibreTimeout(duetime: nat) returns (elapsed: bool)
      requires View(0).Some? && Permitted(s, Timeout(duetime))
      modifies `s, timerq, fibres`next, fibres`key
      ensures View(0) == Some(Scheduler.FibreTimeout(old(s), duetime))
      ensures elapsed <==> CycleCmp32(duetime, now) <= 0
      ensures !elapsed ==> current != null && current.key.duetime == duetime
    {
      if CycleCmp32(duetime, now) <= 0 {
        return true;
      }
      SetDuetime(duetime);
      var found, _ := runq.Contains(current);
      if !found {
        SleepCurrent();
      }
      elapsed := false;
      assert DescOk(current, s.states, s.privs, s.dues);
    }

    method SetDuetime(duetime: nat)
      requires View(0).Some? && s.current.Some?
      modifies `s, current`key
      ensures var s0 := old(s); View(0) == Some(s0.(dues := s0.dues[s0.current.value := duetime]))
    {
      StoreDuetime(current, duetime, fibres, s.states, s.privs, s.dues);
      s := s.(dues := s.dues[current := duetime]);
    }

    /** The call of list_insert_sorted in fibre_timeout. */
    method SleepCurrent()
      requires View(0).Some? && s.current.Some? && s.current.value !in s.runq && s.current.value !in s.timerq
      modifies `s, timerq, fibres`next
      ensures View(0) == Some(old(FallAsleep(s, s.current.value)))
    {
      KeysAreDescs(s, fibres);
      assert DescOk(current, s.states, s.privs, s.dues);
      ghost var asleep := FallAsleep(s, current);
      AsleepSound(s, current, fibres);
      Sleep(runq, timerq, current, s.runq, s.timerq, fibres);
      s := asleep;
    }

    method UpdateCurrentState()
      requires View(0).Some? && s.current.Some?
      modifies `s, runq, timerq, atomicRunq, fibres`next, fibres`key
      ensures View(0) == Some(Scheduler.UpdateCurrentState(old(s)))
    {
      SetState();
      match state
      case Yielded => FibreRun(current, 0);
      case Failed | Exited => SetPriv(0);
      case Waiting =>
    }

    method SetState()
      requires View(0).Some? && s.current.Some?
      modifies `s, current`key
      ensures var s0 := old(s); View(0) == Some(s0.(states := s0.states[s0.current.value := s0.state]))
    {
      StoreState(current, state, fibres, s.states, s.privs, s.dues);
      s := s.(states := s.states[current := state]);
    }

    /** PT_INIT, or an assignment to the resume point by the entrypoint. */
    method SetPriv(priv: nat)
      requires View(0).Some? && s.current.Some?
      modifies `s, current`key
      ensures var s0 := old(s); View(0) == Some(s0.(privs := s0.privs[s0.current.value := priv]))
    {
      StorePriv(current, priv, fibres, s.states, s.privs, s.dues);
      s := s.(privs := s.privs[current := priv]);
    }

    method HandleTimerq()
      requires View(0).Some?
      modifies `s, runq, timerq, fibres`next
      ensures View(0) == Some(Scheduler.HandleTimerq(old(s)))
    {
      var iter := new Iterator.Iterate(timerq);
      ExpireAll(iter, timerq.head);
    }

    method ExpireAll(iter: Iterator<Descriptor>, first: Node?<Descriptor>)
      requires View(0).Some? && first == timerq.head
      requires iter.list == timerq && iter.pos == 0 && iter.prevnext == HeadSlot
      modifies `s, runq, timerq, fibres`next
      ensures View(0) == Some(Scheduler.HandleTimerq(old(s)))
    {
      ghost var h := Scheduler.HandleTimerq(s);
      var node := first;
      assert node != null ==> DescOk(node, s.states, s.privs, s.dues);
      while node != null && CycleCmp32(node.key.duetime, now) <= 0
        invariant View(0).Some? && Scheduler.HandleTimerq(s) == h
        invariant node == NodeAt(s.timerq, 0) && (node != null ==> node.key == Desc(s, s.timerq[0]))
        decreases |s.timerq|
      {
        node := ExpireHead(iter);
      }
    }

    method ExpireHead(iter: Iterator<Descriptor>) returns (node: Node?<Descriptor>)
      requires View(0).Some? && iter.list == timerq && iter.pos == 0 && iter.prevnext == HeadSlot
      requires s.timerq != []
      modifies `s, runq, timerq, fibres`next
      ensures var s0 := old(s); View(0) == Some(s0.(timerq := s0.timerq[1..], runq := s0.runq + [s0.timerq[0]]))
      ensures node == NodeAt(s.timerq, 0) && (node != null ==> node.key == Desc(s, s.timerq[0]))
    {
      ExpiredSound(s, fibres);
      ghost var f := s.timerq[0];
      node := Expire(runq, timerq, iter, s.runq, s.timerq, fibres);
      s := s.(timerq := s.timerq[1..], runq := s.runq + [f]);
      assert node != null ==> DescOk(node, s.states, s.privs, s.dues);
    }

    method GetNextTask()
      requires View(0).Some?
      modifies `s, `current, runq, fibres`next
      ensures View(0) == Some(Scheduler.GetNextTask(old(s)))
    {
      var f := TakeNext();
      SetCurrent(f);
    }

    method TakeNext() returns (f: Node?<Descriptor>)
      requires View(0).Some?
      modifies `s, runq, fibres`next
      ensures View(0) == Some(old(s).(runq := Rest(old(s.runq)))) && f == NodeAt(old(s.runq), 0)
      ensures f != null ==> f in fibres && f !in s.runq && f !in s.timerq
    {
      ghost var rq := s.runq;
      TakenSound(s, fibres);
      s := s.(runq := Rest(rq));
      f := Extract(runq, timerq, rq, s.timerq, fibres);
    }

    method SetCurrent(f: Node?<Descriptor>)
      requires View(0).Some? && (f != null ==> f in fibres)
      modifies `s, `current
      ensures View(0) == Some(old(s).(current := ToOption(f)))
    {
      current := f;
      s := s.(current := ToOption(f));
    }

    method GetNextWakeup() returns (time: nat)
      requires View(0).Some?
      ensures time == NextWakeup(s)
    {
      var noRequests := atomicRunq.Empty();
      var noneRunnable := runq.IsEmpty();
      if !noRequests || !noneRunnable {
        return now;
      }
      var noSleepers := timerq.IsEmpty();
      if noSleepers {
        return (now + UNBOUNDED_SLEEP) % WORD;
      }
      var f := timerq.Peek();
      assert DescOk(f, s.states, s.privs, s.dues);
      return f.key.duetime;
    }

    /** One call that a fibre makes while it is being executed, or that is made from outside. */
    method Perform(a: Action<Fibre>)
      requires View(0).Some? && Permitted(s, a)
      requires (a.Run? || a.RunAtomic? || a.Kill?) ==> a.f in fibres
      modifies `s, runq, timerq, atomicRunq, atomicRunq.cells, fibres`next, fibres`key
      ensures View(0) == Some(Act(old(s), a))
    {
      match a
      case Run(f) => FibreRun(f, 0);
      case RunAtomic(f) => var _ := FibreRunAtomic(f, 0);
      case Kill(f) => var _ := FibreKill(f);
      case Timeout(duetime) => var _ := FibreTimeout(duetime);
      case SaveResumePoint(priv) => SetPriv(priv);
    }

    /** The entrypoint of a fibre, which makes the calls of a script and returns a result. */
    method Entrypoint(script: seq<Action<Fibre>>, result: FibreState) returns (r: FibreState)
      requires View(0).Some? && AllPermitted(s, script)
      requires forall a :: a in script && (a.Run? || a.RunAtomic? || a.Kill?) ==> a.f in fibres
      modifies `s, runq, timerq, atomicRunq, atomicRunq.cells, fibres`next, fibres`key
      ensures View(0) == Some(ActAll(old(s), script)) && r == result
    {
      ghost var s1 := ActAll(s, script);
      var i := 0;
      while i < |script|
        invariant i <= |script| && View(0).Some? && AllPermitted(s, script[i..]) && ActAll(s, script[i..]) == s1
      {
        assert script[i] in script && script[i..][1..] == script[i + 1..];
        Perform(script[i]);
        i := i + 1;
      }
      r := result;
    }

    method SetNow(time: nat, ghost t: int)
      requires View(0).Some? && time == t % WORD
      modifies `s, `now
      ensures View(0) == Some(SetClock(old(s), t))
    {
      now := time;
      s := SetClock(s, t);
    }

    method IsSingleFibre() returns (single: bool)
      requires View(0).Some?
      ensures single <==> SingleFibre(s)
    {
      var noneRunnable := runq.IsEmpty();
      var noSleepers := timerq.IsEmpty();
      var noRequests := atomicRunq.Empty();
      single := !(state != Yielded || !noneRunnable || !noSleepers || !noRequests);
    }

    method Reschedule()
      requires View(0).Some?
      modifies `s, `current, runq, timerq, atomicRunq, fibres`next, fibres`key
      ensures View(0) == Some(Scheduler.Reschedule(old(s)))
    {
      HandleAtomicRunq(0);
      UpdateIfAny();
      HandleTimerq();
      GetNextTask();
    }

    method UpdateIfAny()
      requires View(0).Some?
      modifies `s, runq, timerq, atomicRunq, fibres`next, fibres`key
      ensures View(0) == Some(Scheduler.UpdateIfAny(old(s)))
    {
      if current != null {
        UpdateCurrentState();
      }
    }

    /** Everything before the call of an entrypoint. */
    method Prepare(time: nat, ghost t: int)
      requires View(0).Some? && time == t % WORD
      modifies `s, `now, `current, runq, timerq, atomicRunq, fibres`next, fibres`key
      ensures View(0) == Some(Dispatch(old(s), t))
    {
      SetNow(time, t);
      var single := IsSingleFibre();
      if !single {
        Reschedule();
      }
    }

    /** The return value. */
    method Conclude() returns (wakeup: nat)
      requires View(0).Some?
      ensures wakeup == Wakeup(s)
    {
      if current != null && state == Yielded {
        return now;
      }
      wakeup := GetNextWakeup();
    }

    /** The call of the current fibre's entrypoint, if there is one. */
    method CallCurrent(script: seq<Action<Fibre>>, result: FibreState)
      requires View(0).Some? && (s.current.Some? ==> AllPermitted(s, script))
      requires forall a :: a in script && (a.Run? || a.RunAtomic? || a.Kill?) ==> a.f in fibres
      modifies `s, `state, runq, timerq, atomicRunq, atomicRunq.cells, fibres`next, fibres`key
      ensures View(0) == Some(CallEntrypoint(old(s), script, result))
    {
      if current != null {
        var r := Entrypoint(script, result);
        SetResult(r);
      }
    }

    /** fibre_scheduler_next at a time that is a residue of t. The fibre that it calls behaves according to
        the script. */
    method SchedulerNext(time: nat, ghost t: int, script: seq<Action<Fibre>>, result: FibreState) returns (wakeup: nat)
      requires View(0).Some? && time == t % WORD && Enabled(s, Event.Schedule(t, script, result))
      requires forall a :: a in script && (a.Run? || a.RunAtomic? || a.Kill?) ==> a.f in fibres
      modifies `s, `now, `current, `state, runq, timerq, atomicRunq, atomicRunq.cells, fibres`next, fibres`key
      ensures View(0) == Some(Next(old(s), Event.Schedule(t, script, result)))
      ensures wakeup == Wakeup(s)
    {
      PrepareAndCall(time, t, script, result);
      wakeup := Conclude();
    }

    method PrepareAndCall(time: nat, ghost t: int, script: seq<Action<Fibre>>, result: FibreState)
      requires View(0).Some? && time == t % WORD && Enabled(s, Event.Schedule(t, script, result))
      requires forall a :: a in script && (a.Run? || a.RunAtomic? || a.Kill?) ==> a.f in fibres
      modifies `s, `now, `current, `state, runq, timerq, atomicRunq, atomicRunq.cells, fibres`next, fibres`key
      ensures View(0) == Some(Next(old(s), Event.Schedule(t, script, result)))
    {
      ghost var d := Dispatch(s, t);
      Prepare(time, t);
      assert s == d;
      CallCurrent(script, result);
    }

    method SetResult(r: FibreState)
      requires View(0).Some?
      modifies `s, `state
      ensures View(0) == Some(old(s).(state := r))
    {
      state := r;
      s := s.(state := r);
    }
  }
}
