/** The lock-free ring buffer of librfn/ringbuf.c: one producer in ringbuf_put, one consumer in
    ringbuf_get, one step of the transition system per access to shared memory. */
module RingBuffer {
  import opened Residues
  import opened Words

  /** Where the producer is in ringbuf_put(d); w is its copy of writei. */
  datatype Producer =
    | PIdle
    | PStart(d: Byte, w: nat)    // writei loaded
    | PRoom(d: Byte, w: nat)     // readi loaded, the ring is not full
    | PStored(d: Byte, w: nat)   // the byte stored

  /** Where the consumer is in ringbuf_get; r is its copy of readi. */
  datatype Consumer =
    | CIdle
    | CStart(r: nat)             // readi loaded
    | CSome(r: nat)              // writei loaded, the ring is not empty
    | CLoaded(r: nat, d: Byte)   // the byte loaded

  /** accepted and returned are the bytes of all successful puts and gets so far. */
  datatype State = State(bufLen: nat, bufp: seq<Byte>, readi: nat, writei: nat,
                         producer: Producer, consumer: Consumer,
                         accepted: seq<Byte>, returned: seq<Byte>)

  datatype Step =
    | PutLoadWritei(d: Byte) | PutLoadReadi | PutStoreByte | PutStoreWritei
    | GetLoadReadi | GetLoadWritei | GetLoadByte | GetStoreReadi

  function Init(memory: seq<Byte>): State {
    State(|memory|, memory, 0, 0, PIdle, CIdle, [], [])
  }

  predicate Enabled(s: State, step: Step) {
    match step
    case PutLoadWritei(_) => s.producer.PIdle?
    case PutLoadReadi => s.producer.PStart?
    case PutStoreByte => s.producer.PRoom? && s.producer.w < |s.bufp|
    case PutStoreWritei => s.producer.PStored?
    case GetLoadReadi => s.consumer.CIdle?
    case GetLoadWritei => s.consumer.CStart?
    case GetLoadByte => s.consumer.CSome? && s.consumer.r < |s.bufp|
    case GetStoreReadi => s.consumer.CLoaded?
  }

  /** Both functions advance an index and subtract the length when it gets out of range. */
  function Bump(i: nat, len: nat): nat {
    if i + 1 >= len then i + 1 - len else i + 1
  }

  function Next(s: State, step: Step): State
    requires Enabled(s, step)
  {
    match step
    case PutLoadWritei(d) => s.(producer := PStart(d, s.writei))
    case PutLoadReadi =>
      var PStart(d, w) := s.producer;
      s.(producer := if Bump(w, s.bufLen) == s.readi then PIdle else PRoom(d, w))
    case PutStoreByte =>
      var PRoom(d, w) := s.producer;
      s.(producer := PStored(d, w), bufp := s.bufp[w := d])
    case PutStoreWritei =>
      var PStored(d, w) := s.producer;
      s.(producer := PIdle, writei := Bump(w, s.bufLen), accepted := s.accepted + [d])
    case GetLoadReadi => s.(consumer := CStart(s.readi))
    case GetLoadWritei =>
      var CStart(r) := s.consumer;
      s.(consumer := if r == s.writei then CIdle else CSome(r))
    case GetLoadByte =>
      var CSome(r) := s.consumer;
      s.(consumer := CLoaded(r, s.bufp[r]))
    case GetStoreReadi =>
      var CLoaded(r, d) := s.consumer;
      s.(consumer := CIdle, readi := Bump(r, s.bufLen), returned := s.returned + [d])
  }

  // ---------- the invariant ----------

  ghost predicate Ring(s: State) {
    && 1 <= s.bufLen == |s.bufp|
    && s.readi == |s.returned| % s.bufLen
    && s.writei == |s.accepted| % s.bufLen
    && s.returned <= s.accepted
    && |s.accepted| - |s.returned| <= s.bufLen - 1
  }

  /** The cells between the indices hold the bytes accepted and not yet returned. */
  ghost predicate Stored(s: State)
    requires Ring(s)
  {
    forall k :: |s.returned| <= k < |s.accepted| ==> s.bufp[k % s.bufLen] == s.accepted[k]
  }

  ghost predicate Threads(s: State)
    requires Ring(s)
  {
    && (match s.producer
        case PIdle => true
        case PStart(_, w) => w == s.writei
        case PRoom(_, w) => w == s.writei && |s.accepted| - |s.returned| < s.bufLen - 1
        case PStored(d, w) => w == s.writei && |s.accepted| - |s.returned| < s.bufLen - 1 && s.bufp[w] == d)
    && (match s.consumer
        case CIdle => true
        case CStart(r) => r == s.readi
        case CSome(r) => r == s.readi && |s.returned| < |s.accepted|
        case CLoaded(r, d) => r == s.readi && |s.returned| < |s.accepted| && d == s.accepted[|s.returned|])
  }

  ghost predicate Inv(s: State) {
    Ring(s) && Stored(s) && Threads(s)
  }

  lemma InitInv(memory: seq<Byte>)
    requires |memory| >= 1
    ensures Inv(Init(memory))
  {
  }

  lemma BumpMod(n: nat, len: nat)
    requires len > 0
    ensures Bump(n % len, len) == (n + 1) % len
  {
    ModStep(n, len);
  }

  /** What the two comparisons of indices mean. */
  lemma Comparisons(s: State)
    requires Ring(s)
    ensures s.readi == s.writei <==> |s.accepted| == |s.returned|
    ensures Bump(s.writei, s.bufLen) == s.readi <==> |s.accepted| - |s.returned| == s.bufLen - 1
  {
    var n, m, len := |s.returned|, |s.accepted|, s.bufLen;
    if n < m {
      ModWindow(n, m, len);
    }
    BumpMod(m, len);
    if m + 1 < n + len {
      if n < m + 1 {
        ModWindow(n, m + 1, len);
      }
    } else {
      ModUnique(m + 1, n / len + 1, n % len, len);
    }
  }

  /** The cell that the producer is about to write is not unread. */
  lemma WrittenCellIsRead(s: State, k: nat)
    requires Inv(s) && s.producer.PRoom? && |s.returned| <= k < |s.accepted|
    ensures s.producer.w != k % s.bufLen
  {
    ModWindow(k, |s.accepted|, s.bufLen);
  }

  lemma StepKeepsInv(s: State, step: Step)
    requires Inv(s) && Enabled(s, step)
    ensures Inv(Next(s, step))
  {
    match step
    case PutStoreByte => StoreByteKeepsInv(s);
    case PutStoreWritei => StoreWriteiKeepsInv(s);
    case GetStoreReadi => BumpMod(|s.returned|, s.bufLen);
    case _ => Comparisons(s);
  }

  lemma StoreByteKeepsInv(s: State)
    requires Inv(s) && Enabled(s, PutStoreByte)
    ensures Inv(Next(s, PutStoreByte))
  {
    var s' := Next(s, PutStoreByte);
    forall k | |s.returned| <= k < |s.accepted| ensures s'.bufp[k % s'.bufLen] == s'.accepted[k] {
      WrittenCellIsRead(s, k);
    }
  }

  lemma StoreWriteiKeepsInv(s: State)
    requires Inv(s) && Enabled(s, PutStoreWritei)
    ensures Inv(Next(s, PutStoreWritei))
  {
    BumpMod(|s.accepted|, s.bufLen);
  }

  // ---------- whole runs ----------

  ghost predicate Run(s: State, steps: seq<Step>, s': State)
    decreases |steps|
  {
    if steps == [] then s' == s
    else Enabled(s, steps[0]) && Run(Next(s, steps[0]), steps[1..], s')
  }

  lemma {:induction false} RunKeepsInv(s: State, steps: seq<Step>, s': State)
    requires Inv(s) && Run(s, steps, s')
    ensures Inv(s')
    decreases |steps|
  {
    if steps != [] {
      StepKeepsInv(s, steps[0]);
      RunKeepsInv(Next(s, steps[0]), steps[1..], s');
    }
  }

  ghost predicate Reachable(memory: seq<Byte>, steps: seq<Step>, s: State) {
    |memory| >= 1 && Run(Init(memory), steps, s)
  }

  lemma ReachableInv(memory: seq<Byte>, steps: seq<Step>, s: State)
    requires Reachable(memory, steps, s)
    ensures Inv(s)
  {
    InitInv(memory);
    RunKeepsInv(Init(memory), steps, s);
  }

  lemma {:induction false} RunLength(s: State, steps: seq<Step>, s': State)
    requires Run(s, steps, s')
    ensures s'.bufLen == s.bufLen
    decreases |steps|
  {
    if steps != [] {
      RunLength(Next(s, steps[0]), steps[1..], s');
    }
  }

  /** No index ever leaves the buffer: the assertion in ringbuf_get holds, and neither thread gets stuck at
      an access to a cell. */
  lemma IndicesInRange(memory: seq<Byte>, steps: seq<Step>, s: State)
    requires Reachable(memory, steps, s)
    ensures s.bufLen == |s.bufp| == |memory| && s.readi < s.bufLen && s.writei < s.bufLen
    ensures s.producer.PRoom? ==> Enabled(s, PutStoreByte)
    ensures s.consumer.CSome? ==> Enabled(s, GetLoadByte)
  {
    ReachableInv(memory, steps, s);
    RunLength(Init(memory), steps, s);
  }

  /** In every interleaving, the bytes returned are the first of those accepted, in order, and there
      are always fewer unread bytes than cells. */
  lemma FirstInFirstOut(memory: seq<Byte>, steps: seq<Step>, s: State)
    requires Reachable(memory, steps, s)
    ensures s.returned <= s.accepted
    ensures |s.accepted| - |s.returned| <= |memory| - 1
  {
    ReachableInv(memory, steps, s);
    RunLength(Init(memory), steps, s);
  }

  // ---------- what a run has done ----------

  /** The bytes of the puts that a run completes, where d is the byte of a put that is going on already. */
  ghost function Completed(steps: seq<Step>, d: Byte): seq<Byte> {
    if steps == [] then [] else
    match steps[0]
    case PutLoadWritei(d1) => Completed(steps[1..], d1)
    case PutStoreWritei => [d] + Completed(steps[1..], d)
    case _ => Completed(steps[1..], d)
  }

  ghost function Gets(steps: seq<Step>): nat {
    if steps == [] then 0 else (if steps[0].GetStoreReadi? then 1 else 0) + Gets(steps[1..])
  }

  lemma {:induction false} RunCompletes(s: State, steps: seq<Step>, s': State, d: Byte)
    requires Run(s, steps, s') && (!s.producer.PIdle? ==> s.producer.d == d)
    ensures s'.accepted == s.accepted + Completed(steps, d)
    ensures |s'.returned| == |s.returned| + Gets(steps)
    decreases |steps|
  {
    if steps != [] {
      var d1 := if steps[0].PutLoadWritei? then steps[0].d else d;
      RunCompletes(Next(s, steps[0]), steps[1..], s', d1);
    }
  }

  /** In every interleaving, the gets that have stored readi return the first of the bytes of the puts that
      have stored writei, in order, and there are always fewer unread bytes than cells. */
  lemma GetsReturnPuts(memory: seq<Byte>, steps: seq<Step>, s: State)
    requires Reachable(memory, steps, s)
    ensures 0 <= |Completed(steps, 0)| - Gets(steps) <= |memory| - 1
    ensures s.accepted == Completed(steps, 0) && s.returned == Completed(steps, 0)[..Gets(steps)]
  {
    RunCompletes(Init(memory), steps, s, 0);
    FirstInFirstOut(memory, steps, s);
  }

  /** The byte that a get returns is the one that it appends to the history. */
  lemma GetReturns(memory: seq<Byte>, steps: seq<Step>, s: State)
    requires Reachable(memory, steps, s) && s.consumer.CLoaded?
    ensures |s.returned| < |s.accepted| && s.consumer.d == s.accepted[|s.returned|]
    ensures Next(s, GetStoreReadi).returned == s.returned + [s.consumer.d]
  {
    ReachableInv(memory, steps, s);
  }

  /** The next byte stored goes to a cell that holds no unread byte. */
  lemma NoOverwrite(memory: seq<Byte>, steps: seq<Step>, s: State, k: nat)
    requires Reachable(memory, steps, s)
    requires Enabled(s, PutStoreByte) && |s.returned| <= k < |s.accepted|
    ensures 0 < s.bufLen == |s.bufp| == |Next(s, PutStoreByte).bufp|
    ensures s.bufp[k % s.bufLen] == Next(s, PutStoreByte).bufp[k % s.bufLen] == s.accepted[k]
  {
    ReachableInv(memory, steps, s);
    WrittenCellIsRead(s, k);
  }

  /** A put gives up exactly when the ring is full at its load of readi. */
  lemma PutFailsWhenFull(memory: seq<Byte>, steps: seq<Step>, s: State)
    requires Reachable(memory, steps, s)
    requires Enabled(s, PutLoadReadi)
    ensures Next(s, PutLoadReadi).producer.PIdle? <==> |s.accepted| - |s.returned| == |memory| - 1
  {
    ReachableInv(memory, steps, s);
    RunLength(Init(memory), steps, s);
    Comparisons(s);
  }

  /** A get returns -1 exactly when the ring is empty at its load of writei. */
  lemma GetFailsWhenEmpty(memory: seq<Byte>, steps: seq<Step>, s: State)
    requires Reachable(memory, steps, s)
    requires Enabled(s, GetLoadWritei)
    ensures Next(s, GetLoadWritei).consumer.CIdle? <==> s.accepted == s.returned
  {
    ReachableInv(memory, steps, s);
    Comparisons(s);
  }

  // ---------- the ring buffer as an object, with its functions running uninterrupted ----------

  class RingBuf {
    const bufp: array<Byte>
    const bufLen: nat
    var readi: nat
    var writei: nat
    ghost var s: State

    ghost predicate Valid()
      reads this, bufp
    {
      && Inv(s) && s.producer.PIdle? && s.consumer.CIdle?
      && s.bufLen == bufLen && s.readi == readi && s.writei == writei && s.bufp == bufp[..]
    }

    /** The bytes put and not yet got. */
    ghost function Unread(): seq<Byte>
      requires Valid()
      reads this, bufp
    {
      s.accepted[|s.returned|..]
    }

    constructor (memory: array<Byte>)
      requires memory.Length >= 1
      ensures Valid() && Unread() == [] && bufp == memory && bufLen == memory.Length
    {
      bufp, bufLen, readi, writei := memory, memory.Length, 0, 0;
      s := Init(memory[..]);
      new;
      InitInv(memory[..]);
    }

    method Get() returns (d: int)
      requires Valid()
      modifies this
      ensures Valid()
      ensures if old(Unread()) == [] then d == -1 && Unread() == []
              else d == old(Unread())[0] && Unread() == old(Unread())[1..]
    {
      Comparisons(s);
      var r := readi;
      if r == writei {
        return -1;
      }
      d := bufp[r];
      BumpMod(|s.returned|, s.bufLen);
      r := r + 1;
      if r >= bufLen {
        r := r - bufLen;
      }
      readi := r;
      s := s.(readi := r, returned := s.returned + [d]);
    }

    method Empty() returns (empty: bool)
      requires Valid()
      ensures empty <==> Unread() == []
    {
      Comparisons(s);
      empty := readi == writei;
    }

    method Put(d: Byte) returns (ok: bool)
      requires Valid()
      modifies this, bufp
      ensures Valid()
      ensures ok <==> |old(Unread())| < bufLen - 1
      ensures Unread() == if ok then old(Unread()) + [d] else old(Unread())
    {
      Comparisons(s);
      BumpMod(|s.accepted|, s.bufLen);
      var w := writei;
      var old_writei := w;
      w := w + 1;
      if w >= bufLen {
        w := w - bufLen;
      }
      if w == readi {
        return false;
      }
      ghost var s1 := s.(producer := PRoom(d, old_writei));
      StoreByteKeepsInv(s1);
      StoreWriteiKeepsInv(Next(s1, PutStoreByte));
      bufp[old_writei] := d;
      writei := w;
      s := Next(Next(s1, PutStoreByte), PutStoreWritei);
      return true;
    }
  }
}
