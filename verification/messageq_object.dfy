/** The message queue as an object in memory, with its functions running uninterrupted. Each function
    takes the atomic steps of module MessageQueue, in the order of the code. */
module MessageQueueObject {
  import opened Residues
  import opened MessageQueue

  /** Every claimed message has been filled in and sent. */
  ghost predicate Tidy<M>(s: State<M>) {
    && Inv(s) && Quiet(s)
    && forall j :: 0 <= j < s.Claimed() ==> j in s.sent && j in s.wrote
  }

  /** The messages sent and not yet received, oldest first. */
  ghost function Pending<M>(s: State<M>): seq<M>
    requires Tidy(s)
  {
    seq(s.Claimed() - s.Received(), i requires 0 <= i < s.Claimed() - s.Received() => s.wrote[s.Received() + i])
  }

  /** The number of messages received and not yet released. */
  ghost function Held<M>(s: State<M>): int {
    s.Received() - s.released
  }

  /** Claim, fill in and send. */
  ghost function Posted<M>(s: State<M>, m: M): State<M>
    requires s.sendp < |s.cells| && s.sendp < |s.fullFlags|
  {
    var j := s.Claimed();
    s.(numFree := Dec8(s.numFree), sendp := Succ(s.sendp, s.queueLen), slots := s.slots + [s.sendp],
       cells := s.cells[s.sendp := m], wrote := s.wrote[j := m],
       fullFlags := s.fullFlags[s.sendp := true], sent := s.sent + {j})
  }

  lemma PostedByStep<M>(s: State<M>, m: M)
    requires Tidy(s) && s.numFree > 0
    ensures s.sendp < |s.cells| && s.sendp < |s.fullFlags|
    ensures var s1 := Claimed1(s, 0); var j := s.Claimed();
      && Enabled(s1, Write(j, m)) && Enabled(Next(s1, Write(j, m)), Send(j))
      && Posted(s, m) == Next(Next(s1, Write(j, m)), Send(j))
  {
  }

  lemma PostedInv<M>(s: State<M>, m: M)
    requires Tidy(s) && s.numFree > 0
    ensures s.sendp < |s.cells| && s.sendp < |s.fullFlags| && Inv(Posted(s, m))
  {
    ClaimInv(s);
    PostedByStep(s, m);
    var s1, j := Claimed1(s, 0), s.Claimed();
    WriteKeepsInv(s1, j, m);
    SendKeepsInv(Next(s1, Write(j, m)), j);
  }

  /** Posting a message puts it last among the pending ones. */
  lemma PostedTidy<M>(s: State<M>, m: M)
    requires Tidy(s) && s.numFree > 0
    ensures s.sendp < |s.cells| && s.sendp < |s.fullFlags|
    ensures Tidy(Posted(s, m)) && Pending(Posted(s, m)) == Pending(s) + [m] && Held(Posted(s, m)) == Held(s)
  {
    PostedInv(s, m);
  }

  /** An uncontended claim keeps the invariant. */
  lemma ClaimInv<M>(s: State<M>)
    requires Inv(s) && Quiet(s) && s.numFree > 0
    ensures Inv(Claimed1(s, 0))
  {
    var s1 := Next(s, ClaimSub(0));
    SoundUnlessOverlapping(s);
    SubKeepsInv(s, 0);
    var s2 := Next(s1, ClaimLoad(0));
    LoadKeepsInv(s1, 0);
    CasKeepsInv(s2, 0, false);
    assert s1.granted - {0} == s.granted;
    assert s.trying[0 := s.sendp] - {0} == s.trying;
    assert Next(s2, ClaimCas(0, false)) == Claimed1(s, 0);
  }

  lemma ClaimIsReplayed<M>(s: State<M>)
    requires Quiet(s) && s.numFree > 0
    ensures Replay(s, MessageQueue.Claim(0)) == Claimed1(s, 0)
  {
    ClaimReplays(s, 0, []);
    assert MessageQueue.Claim<M>(0) + [] == MessageQueue.Claim<M>(0);
    assert Replay(Claimed1(s, 0), []) == Claimed1(s, 0);
  }

  /** While no claim is in progress, num_free is the number of slots that are neither pending nor
      held by the consumer. */
  lemma NumFree<M>(s: State<M>)
    requires Tidy(s)
    ensures s.numFree == s.queueLen - |Pending(s)| - Held(s)
  {
  }

  lemma ReceiveTidy<M>(s: State<M>)
    requires Tidy(s)
    ensures Enabled(s, Receive) && Tidy(Next(s, Receive))
    ensures s.fullFlags[s.receivep] <==> Pending(s) != []
    ensures Pending(s) == [] ==> Next(s, Receive) == s
    ensures Pending(s) != [] ==>
              && s.receivep < |s.cells| && s.cells[s.receivep] == Pending(s)[0]
              && Pending(Next(s, Receive)) == Pending(s)[1..]
              && Held(Next(s, Receive)) == Held(s) + 1
  {
    ReceiveKeepsInv(s);
    FirstAtIs(s.Received(), s.Received(), s.queueLen);
  }

  lemma ReleaseTidy<M>(s: State<M>)
    requires Tidy(s) && Held(s) > 0
    ensures Enabled(s, Release) && Tidy(Next(s, Release))
    ensures Pending(Next(s, Release)) == Pending(s) && Held(Next(s, Release)) == Held(s) - 1
  {
    ReleaseKeepsInv(s);
  }

  class Queue<M> {
    const queueLen: nat
    var numFree: nat
    var sendp: nat
    var fullFlags: seq<bool>
    var receivep: nat
    const cells: array<M>
    ghost var s: State<M>

    /** messageq_init over the given memory. */
    constructor (memory: array<M>)
      requires 1 <= memory.Length <= 32
      ensures Valid() && cells == memory && s == Init(memory[..])
    {
      queueLen, numFree := memory.Length % 256, memory.Length % 256;
      sendp, receivep := 0, 0;
      fullFlags := seq(32, _ => false);
      cells := memory;
      s := Init(memory[..]);
      new;
      InitInv(memory[..]);
    }

    ghost predicate Valid()
      reads this, cells
    {
      && Inv(s)
      && s.queueLen == queueLen && s.numFree == numFree && s.sendp == sendp
      && s.fullFlags == fullFlags && s.receivep == receivep && s.cells == cells[..]
    }

    /** The slot claimed, or -1. */
    method Claim() returns (slot: int)
      requires Valid() && Quiet(s)
      modifies this
      ensures Valid() && Quiet(s)
      ensures if old(numFree) == 0 then slot == -1 && s == old(s) == Replay(old(s), FailedClaim(0))
              else slot == old(sendp) && s == Claimed1(old(s), 0) == Replay(old(s), MessageQueue.Claim(0))
    {
      var old_num_free := numFree;
      numFree := Dec8(numFree);
      if old_num_free <= 0 {
        numFree := Inc8(numFree);
        FailedClaimReplays(s, 0);
        return -1;
      }
      var local := sendp;
      var newsendp := if local >= queueLen - 1 then 0 else local + 1;
      ClaimInv(s);
      ClaimIsReplayed(s);
      sendp := newsendp;
      s := Claimed1(s, 0);
      return local;
    }

    /** The owner of a claimed slot fills it in. */
    method Store(slot: nat, m: M, ghost ticket: nat)
      requires Valid() && Enabled(s, Write(ticket, m)) && slot == s.slots[ticket]
      modifies this`s, cells
      ensures Valid() && s == Next(old(s), Write(ticket, m))
    {
      WriteKeepsInv(s, ticket, m);
      cells[slot] := m;
      s := Next(s, Write(ticket, m));
    }

    method Send(slot: nat, ghost ticket: nat)
      requires Valid() && Enabled(s, MessageQueue.Send(ticket)) && slot == s.slots[ticket]
      modifies this
      ensures Valid() && s == Next(old(s), MessageQueue.Send(ticket))
    {
      SendKeepsInv(s, ticket);
      fullFlags := fullFlags[slot := true];
      s := Next(s, MessageQueue.Send(ticket));
    }

    /** The slot received, or -1. */
    method Receive() returns (slot: int)
      requires Valid()
      modifies this
      ensures Valid() && Enabled(old(s), MessageQueue.Receive) && s == Next(old(s), MessageQueue.Receive)
      ensures slot == if old(fullFlags[receivep]) then old(receivep) else -1
    {
      ReceiveKeepsInv(s);
      var full := fullFlags;
      fullFlags := fullFlags[receivep := false];
      s := Next(s, MessageQueue.Receive);
      if !full[receivep] {
        assert fullFlags == full;
        return -1;
      }
      slot := receivep;
      receivep := if receivep >= queueLen - 1 then 0 else receivep + 1;
    }

    method Release()
      requires Valid() && Enabled(s, MessageQueue.Release)
      modifies this
      ensures Valid() && s == Next(old(s), MessageQueue.Release)
    {
      ReleaseKeepsInv(s);
      numFree := Inc8(numFree);
      s := Next(s, MessageQueue.Release);
    }

    /** Tells whether the message next in turn has yet to be sent. */
    method Empty() returns (empty: bool)
      requires Valid()
      ensures empty <==> s.Received() !in s.sent
      ensures Tidy(s) ==> (empty <==> Pending(s) == [])
    {
      FirstAtIs(s.Received(), s.Received(), s.queueLen);
      empty := !fullFlags[receivep];
    }
  }
}
