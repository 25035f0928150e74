/** Serial transmission through a ring that DMA drains chunk by chunk, refilled under critical sections. */
module SerialTx {
  import opened Common
  import opened RingBuffer

  // ---------- the protocol on values ----------

  /**
   * Outside critical sections: the ring, how many of its oldest bytes the DMA is sending, the chunks it has sent,
   * and every byte accepted from writers so far.
   */
  datatype Tx = Tx(capacity: nat, ring: seq<byte>, inFlight: nat, chunks: seq<seq<byte>>, accepted: seq<byte>)

  /**
   * One critical section of a writer offering bytes, or one completion
   * interrupt; `chunk` is the size of a DMA it starts.
   */
  datatype Action = Offer(data: seq<byte>, chunk: nat) | Complete(chunk: nat)

  ghost predicate Started(ring: seq<byte>, chunk: nat) {
    if ring == [] then chunk == 0 else 0 < chunk <= |ring|
  }

  ghost predicate Step(s: Tx, a: Action, t: Tx) {
    && t.capacity == s.capacity
    && match a
       case Offer(data, chunk) =>
         |s.ring| <= s.capacity &&
         var n := Min(|data|, s.capacity - |s.ring|);
         && t.ring == s.ring + data[..n]
         && t.accepted == s.accepted + data[..n]
         && t.chunks == s.chunks
         && if s.inFlight == 0 then Started(t.ring, chunk) && t.inFlight == chunk else t.inFlight == s.inFlight
       case Complete(chunk) =>
         && 0 < s.inFlight <= |s.ring|
         && t.ring == s.ring[s.inFlight..]
         && t.accepted == s.accepted
         && t.chunks == s.chunks + [s.ring[..s.inFlight]]
         && Started(t.ring, chunk) && t.inFlight == chunk
  }

  /**
   * Sent, then in flight, then waiting: together exactly what was accepted;
   * and a DMA runs exactly while the ring holds bytes.
   */
  ghost predicate Exact(s: Tx) {
    && s.accepted == Flat(s.chunks) + s.ring
    && s.inFlight <= |s.ring| <= s.capacity
    && (s.inFlight == 0 <==> s.ring == [])
  }

  lemma ExactBounds(s: Tx)
    requires Exact(s)
    ensures s.inFlight <= |s.ring| <= s.capacity && (s.inFlight == 0 <==> s.ring == [])
  {
  }

  lemma StepIsExact(s: Tx, a: Action, t: Tx)
    requires Exact(s) && Step(s, a, t)
    ensures Exact(t)
  {
    if a.Complete? {
      assert t.chunks[..|s.chunks|] == s.chunks;
      assert s.ring == s.ring[..s.inFlight] + s.ring[s.inFlight..];
    }
  }

  /** What a writer's critical section leaves, with a DMA on some of the oldest bytes unless there was one already. */
  lemma Offered(s: Tx, data: seq<byte>, n: nat, t: Tx)
    requires Exact(s) && n <= |data| && s.capacity >= |s.ring| && n == Min(|data|, s.capacity - |s.ring|)
    requires t.capacity == s.capacity && t.chunks == s.chunks
    requires t.ring == s.ring + data[..n] && t.accepted == s.accepted + data[..n]
    requires if s.inFlight > 0 then t.inFlight == s.inFlight
             else t.inFlight <= |t.ring| && (t.inFlight == 0 <==> t.ring == [])
    ensures Step(s, Action.Offer(data, t.inFlight), t) && Exact(t)
  {
    StepIsExact(s, Action.Offer(data, t.inFlight), t);
  }

  /** The state with what the DMA has sent gone from the ring, and no DMA yet on the rest. */
  ghost function Drained(s: Tx): Tx
    requires s.inFlight <= |s.ring|
  {
    Tx(s.capacity, s.ring[s.inFlight..], 0, s.chunks + [s.ring[..s.inFlight]], s.accepted)
  }

  /** What a completion leaves, with a DMA on some of the oldest bytes if there are any. */
  lemma Completed(s: Tx, t: Tx)
    requires Exact(s) && 0 < s.inFlight <= |s.ring|
    requires t.capacity == s.capacity && t.ring == s.ring[s.inFlight..] && t.accepted == s.accepted
    requires t.chunks == s.chunks + [s.ring[..s.inFlight]]
    requires t.inFlight <= |t.ring| && (t.inFlight == 0 <==> t.ring == [])
    ensures Step(s, Complete(t.inFlight), t) && Exact(t)
  {
    StepIsExact(s, Complete(t.inFlight), t);
  }

  ghost predicate IsRun(states: seq<Tx>, actions: seq<Action>) {
    |states| == |actions| + 1 && forall k :: 0 <= k < |actions| ==> Step(states[k], actions[k], states[k + 1])
  }

  /**
   * Over any interleaving of writers' critical sections and completions nothing is lost, doubled or reordered:
   * at every point the chunks sent and the ring together are what was accepted, and DMA runs exactly while bytes wait.
   */
  lemma {:induction false} ExactlyOnceInOrder(states: seq<Tx>, actions: seq<Action>, k: nat)
    requires IsRun(states, actions) && k < |states|
    requires states[0].ring == [] && states[0].inFlight == 0 && states[0].chunks == [] && states[0].accepted == []
    ensures Exact(states[k])
    ensures var s := states[k];
      && Flat(s.chunks) + s.ring == s.accepted
      && s.inFlight <= |s.ring| <= s.capacity && (s.inFlight == 0 <==> s.ring == [])
  {
    if k == 0 {
      assert Flat([]) + [] == [];
    } else {
      ExactlyOnceInOrder(states, actions, k - 1);
      StepIsExact(states[k - 1], actions[k - 1], states[k]);
    }
  }

  /** What has gone out on the wire only grows, and is always a prefix of what was accepted. */
  lemma {:induction false} SentOnlyGrows(states: seq<Tx>, actions: seq<Action>, j: nat, k: nat)
    requires IsRun(states, actions) && j <= k < |states|
    requires states[0].ring == [] && states[0].inFlight == 0 && states[0].chunks == [] && states[0].accepted == []
    ensures Flat(states[j].chunks) <= Flat(states[k].chunks) <= states[k].accepted
    decreases k - j
  {
    ExactlyOnceInOrder(states, actions, k);
    if j < k {
      SentOnlyGrows(states, actions, j, k - 1);
      assert Step(states[k - 1], actions[k - 1], states[k]);
      if actions[k - 1].Complete? {
        FlatPrefix(states[k].chunks, |states[k - 1].chunks|);
        assert states[k].chunks[..|states[k - 1].chunks|] == states[k - 1].chunks;
      }
    }
  }

  // ---------- the driver ----------

  /** Bytes under a DMA are not touched by an append. */
  lemma InFlightKept(tail: nat, contents: seq<byte>, before: seq<byte>, after: seq<byte>, n: nat)
    requires Undisturbed(tail, contents, before, after) && tail + n <= |before| && n <= |contents|
    ensures after[tail..tail + n] == before[tail..tail + n]
  {
  }

  class TxOnlyBufferedDma {
    const ring: Ring
    const hasCallback: bool
    var inFlight: nat
    var txing: bool
    /** The binary semaphore a blocked writer takes. */
    var ringSem: bool
    /** How many completions come in at most, each time a call leaves interrupts enabled. */
    const plan: nat -> nat
    var turn: nat
    /** How often the registered callback has been told `txDone`. */
    var txDone: nat

    ghost var chunks: seq<seq<byte>>
    ghost var accepted: seq<byte>
    /** The bytes the DMA was started on. */
    ghost var dmaBytes: seq<byte>

    ghost predicate Valid()
      reads this, ring, ring.buffer
    {
      && ring.Valid()
      && Exact(State())
      && (txing <==> inFlight > 0)
      && ring.tail + inFlight <= ring.size
      && ring.buffer[ring.tail..ring.tail + inFlight] == dmaBytes == ring.Contents()[..inFlight]
    }

    ghost function State(): Tx
      requires ring.Valid()
      reads this, ring, ring.buffer
    {
      Tx(ring.size - 1, ring.Contents(), inFlight, chunks, accepted)
    }

    constructor (size: word, callback: bool, p: nat -> nat)
      requires PowerOfTwo(size)
      ensures Valid() && fresh(ring) && fresh(ring.buffer) && ring.size == size
      ensures State() == Tx(size - 1, [], 0, [], []) && hasCallback == callback
      ensures !txing && !ringSem && txDone == 0 && plan == p && turn == 0
    {
      PowerOfTwoTest(size);
      ring := new Ring(size);
      hasCallback := callback;
      plan, turn := p, 0;
      inFlight, txing, ringSem, txDone := 0, false, false, 0;
      chunks, accepted, dmaBytes := [], [], [];
    }

    /** Starts a DMA on the oldest bytes of the ring; there is none running and there are bytes. */
    method IgniteTx()
      requires ring.Valid() && inFlight == 0 && ring.Contents() != []
      modifies this`inFlight, this`txing, this`dmaBytes
      ensures 0 < inFlight <= |ring.Contents()| && txing
      ensures ring.tail + inFlight <= ring.size
      ensures ring.buffer[ring.tail..ring.tail + inFlight] == dmaBytes == ring.Contents()[..inFlight]
    {
      var to, nb := ring.GetReadPointer();
      inFlight := nb;
      txing := true;
      dmaBytes := ring.buffer[to..to + nb];
    }

    /** The completion interrupt: drops what was sent, wakes a writer or reports, and goes on with the rest. */
    method TxDmaCb2()
      requires Valid() && inFlight > 0
      modifies this, ring
      ensures Valid()
      ensures Step(old(State()), Complete(inFlight), State())
      ensures ringSem == (old(ringSem) || !hasCallback)
      ensures txDone == old(txDone) + if hasCallback && ring.Contents() == [] then 1 else 0
      ensures accepted == old(accepted) && |ring.Contents()| < |old(ring.Contents())|
      ensures |chunks| == |old(chunks)| + 1 && turn == old(turn)
    {
      hide Between, PowerOfTwo, And, Flat, Exact, Step, Drained, Ring.Contents, Ring.Valid, TxOnlyBufferedDma.Valid;
      ValidMeans();
      ghost var s := State();
      DropSent();
      SendRest(s);
    }

    lemma ValidMeans()
      requires Valid()
      ensures ring.Valid() && Exact(State()) && inFlight <= |ring.Contents()| && (txing <==> inFlight > 0)
    {
    }

    /** What has been sent and what waits is what was accepted. */
    lemma InOrder()
      requires Valid()
      ensures Flat(chunks) + ring.Contents() == accepted
    {
    }

    /** What the DMA has sent leaves the ring. */
    method DropSent()
      requires Valid() && inFlight > 0
      modifies this`chunks, this`inFlight, this`ringSem, ring`tail
      ensures ring.Valid() && 0 < old(inFlight) <= |old(ring.Contents())| && State() == Drained(old(State()))
      ensures ringSem == (old(ringSem) || !hasCallback) && |chunks| == |old(chunks)| + 1
    {
      hide Between, PowerOfTwo, And, Flat, Exact;
      ExactBounds(State());
      ring.Consume(inFlight);
      chunks := chunks + [dmaBytes];
      inFlight := 0;
      if !hasCallback {
        ringSem := true;
      }
    }

    /** The DMA goes on with the rest, if there is any. */
    method SendRest(ghost s: Tx)
      requires ring.Valid() && Exact(s) && 0 < s.inFlight <= |s.ring| && State() == Drained(s) && txing
      modifies this`inFlight, this`txing, this`dmaBytes, this`txDone
      ensures Valid() && Step(s, Complete(inFlight), State())
      ensures |ring.Contents()| < |s.ring| && accepted == s.accepted
      ensures txDone == old(txDone) + if hasCallback && ring.Contents() == [] then 1 else 0
    {
      hide Between, PowerOfTwo, And, Flat, Exact, Step;
      var to, nb := ring.GetReadPointer();
      Completed(s, Tx(s.capacity, ring.Contents(), nb, chunks, accepted));
      if nb == 0 {
        txing := false;
        dmaBytes := [];
        if hasCallback {
          txDone := txDone + 1;
        }
        return;
      }
      inFlight := nb;
      dmaBytes := ring.buffer[to..to + nb];
    }

    /** The critical section of `transmit` and `transmitNoBlock`: accepts what fits, and starts a DMA if none runs. */
    method Offer(data: seq<byte>) returns (inc: nat)
      requires Valid() && data != []
      modifies this`inFlight, this`txing, this`dmaBytes, this`accepted, ring`head, ring.buffer
      ensures Valid()
      ensures inc == Min(|data|, old(ring.Free()))
      ensures Step(old(State()), Action.Offer(data, inFlight), State())
      ensures old(inFlight) > 0 ==> dmaBytes == old(dmaBytes)
      ensures accepted == old(accepted) + data[..inc]
      ensures inc == 0 ==> ring.Free() == 0
    {
      hide Between, PowerOfTwo, And, Flat, Undisturbed, Exact, Step, Started;
      ExactBounds(State());
      ghost var s, cells := State(), ring.buffer[..];
      var nb := ring.Free();
      if nb == 0 {
        assert data[..0] == [];
        Offered(s, data, 0, State());
        return 0;
      }
      if nb > |data| {
        nb := |data|;
      }
      inc := ring.Put(data[..nb]);
      InFlightKept(ring.tail, s.ring, cells, ring.buffer[..], s.inFlight);
      accepted := accepted + data[..inc];
      if !txing {
        IgniteTx();
      }
      Offered(s, data, inc, State());
    }

    // ---------- whole calls, with completions arriving whenever interrupts are enabled ----------

    /** As many completions as are planned, or as it takes until the DMA stops. */
    method Interrupts()
      requires Valid()
      modifies this, ring
      ensures Valid()
      ensures accepted == old(accepted) && turn == old(turn) + 1
      ensures |old(chunks)| <= |chunks| <= |old(chunks)| + plan(old(turn))
      ensures inFlight > 0 ==> |chunks| == |old(chunks)| + plan(old(turn))
      ensures || (ring.Contents() == old(ring.Contents()) && inFlight == old(inFlight) && ringSem == old(ringSem))
              || (|ring.Contents()| < |old(ring.Contents())| && ringSem == (old(ringSem) || !hasCallback))
    {
      hide Exact, Flat, Between, PowerOfTwo;
      var n, due := 0, plan(turn);
      turn := turn + 1;
      while n < due && inFlight > 0
        invariant Valid() && turn == old(turn) + 1
        invariant n <= due && |chunks| == |old(chunks)| + n
        invariant accepted == old(accepted)
        invariant || (ring.Contents() == old(ring.Contents()) && inFlight == old(inFlight) && ringSem == old(ringSem))
                  || (|ring.Contents()| < |old(ring.Contents())| && ringSem == (old(ringSem) || !hasCallback))
      {
        TxDmaCb2();
        n := n + 1;
      }
    }

    /**
     * Waits for the semaphore while completions come in. Only a completion gives it, and only without a callback: it is
     * taken exactly if it is there already or such a completion is due, and otherwise the wait never ends.
     */
    method TakeSemaphore() returns (taken: bool)
      requires Valid()
      modifies this, ring
      ensures Valid() && !ringSem && accepted == old(accepted) && turn == old(turn)
      ensures taken <==> old(ringSem) || (!hasCallback && old(inFlight) > 0)
      ensures |ring.Contents()| <= |old(ring.Contents())|
      ensures taken && !old(ringSem) ==> |ring.Contents()| < |old(ring.Contents())|
      ensures !taken ==> inFlight == 0
    {
      hide Between, PowerOfTwo, And, Flat, Exact, Step;
      while !ringSem
        invariant Valid() && accepted == old(accepted) && turn == old(turn)
        invariant |ring.Contents()| <= |old(ring.Contents())|
        invariant ringSem == old(ringSem) || (!hasCallback && |ring.Contents()| < |old(ring.Contents())|)
        invariant !ringSem ==> !old(ringSem) && (hasCallback || inFlight == old(inFlight))
        invariant ringSem && !old(ringSem) ==> old(inFlight) > 0
        decreases |ring.Contents()|
      {
        if inFlight == 0 {
          return false;
        }
        TxDmaCb2();
      }
      ringSem := false;
      return true;
    }

    /** Accepts what fits while it is at it; stops early only on a full ring. */
    method TransmitNoBlock(data: seq<byte>) returns (processed: nat)
      requires Valid()
      modifies this, ring, ring.buffer
      ensures Valid()
      ensures processed <= |data| && accepted == old(accepted) + data[..processed]
      ensures processed < |data| ==> ring.Free() == 0
      ensures processed > 0 ==> turn > old(turn)
    {
      hide Between, PowerOfTwo, And, Flat, Exact, Step, TxOnlyBufferedDma.Valid, TxOnlyBufferedDma.State, Ring.Valid;
      processed := 0;
      ValidMeans();
      while processed != |data|
        invariant Valid() && processed <= |data| && turn >= old(turn) && (processed > 0 ==> turn > old(turn))
        invariant accepted == old(accepted) + data[..processed]
        decreases |data| - processed
      {
        var inc := Offer(data[processed..]);
        if inc == 0 {
          ValidMeans();
          return;
        }
        TakeMore(data, processed, inc);
        processed := processed + inc;
        Interrupts();
        ValidMeans();
      }
    }

    /** What a writer does facing a full ring: waits for a fresh semaphore, not an old one. */
    method WaitForRoom() returns (taken: bool)
      requires Valid() && ring.Free() == 0
      modifies this, ring
      ensures Valid() && accepted == old(accepted) && turn == old(turn) + 1
      ensures taken <==> !hasCallback && ring.size >= 2
      ensures taken ==> |ring.Contents()| < |old(ring.Contents())|
      ensures !taken ==> inFlight == 0 && !ringSem
    {
      hide Between, PowerOfTwo, And, Flat, Exact, Step;
      FullRingDrainsIff(this);
      ringSem := false;
      Interrupts();
      taken := TakeSemaphore();
    }

    /**
     * Accepts everything, or waits for ever on a full ring with nothing in flight, where `ok` is false here. Without a
     * callback and with two slots or more the writer never waits without a DMA in flight, so it always gets on.
     */
    method Transmit(data: seq<byte>) returns (ok: bool, done: nat)
      requires Valid()
      modifies this, ring, ring.buffer
      ensures Valid() && done <= |data| && accepted == old(accepted) + data[..done]
      ensures Flat(chunks) + ring.Contents() == accepted
      ensures ok <==> done == |data|
      ensures data != [] ==> turn > old(turn)
      ensures !ok ==> (hasCallback || ring.size == 1) && inFlight == 0 && !ringSem
      ensures ring.size == 1 && data != [] ==> !ok
    {
      hide Between, PowerOfTwo, And, Flat, Exact, Step, TxOnlyBufferedDma.Valid, TxOnlyBufferedDma.State, Ring.Valid;
      done := 0;
      ValidMeans();
      while done != |data|
        invariant Valid() && 0 <= done <= |data| && turn >= old(turn) && (done > 0 ==> turn > old(turn))
        invariant ring.Valid() && accepted == old(accepted) + data[..done]
        invariant ring.size == 1 ==> done == 0
        decreases |data| - done, |ring.Contents()|
      {
        if ring.Free() == 0 {
          var taken := WaitForRoom();
          ValidMeans();
          if !taken {
            InOrder();
            return false, done;
          }
          continue;
        }
        var inc := Offer(data[done..]);
        TakeMore(data, done, inc);
        done := done + inc;
        Interrupts();
        ValidMeans();
      }
      InOrder();
      assert data[..done] == data;
      return true, done;
    }
  }

  /** A writer facing a full ring has a DMA to wait for exactly if the ring has room for a byte at all. */
  lemma FullRingDrainsIff(t: TxOnlyBufferedDma)
    requires t.Valid() && t.ring.Free() == 0
    ensures t.inFlight > 0 <==> t.ring.size >= 2
  {
  }
}
