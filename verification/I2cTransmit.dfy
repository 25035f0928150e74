/** The I2C master sending a list of segments: short ones byte by byte from interrupts, long ones by DMA. */
module I2cTransmit {
  import opened Common

  datatype State = Idle | TxStart | TxAddrSent | TxData | TxDataDma | TxStop | TxEnd

  /**
   * What the hardware does next: an event interrupt with its status, one byte moved by DMA, or the DMA's completion.
   */
  datatype Event = Interrupt(stat0: nat) | DmaByte | DmaDone

  /** What can be seen on the bus. */
  datatype Signal = Start | Address(b: byte) | Data(b: byte) | Stop

  /** A start condition, the address byte of a write, and data. */
  ghost function Frames(target: nat, data: seq<byte>): (r: seq<Signal>)
    ensures |r| == |data| + 2 && r[0] == Start && r[1] == Address(target % 128 * 2)
    ensures forall i :: 0 <= i < |data| ==> r[i + 2] == Data(data[i])
  {
    [Start, Address(target % 128 * 2)] + seq(|data|, i requires 0 <= i < |data| => Data(data[i]))
  }

  lemma FramesGrow(target: nat, data: seq<byte>, b: byte)
    ensures Frames(target, data + [b]) == Frames(target, data) + [Data(b)]
  {
  }

  lemma FlatStep(segments: seq<seq<byte>>, t: nat)
    requires t < |segments|
    ensures Flat(segments[..t + 1]) == Flat(segments[..t]) + segments[t]
  {
    assert segments[..t + 1][..t] == segments[..t];
  }

  /** The bytes of the segments before `t`, then the first `k` bytes of segment `t`. */
  ghost function SentUpTo(segments: seq<seq<byte>>, t: nat, k: nat): seq<byte>
    requires t <= |segments| && (if t == |segments| then k == 0 else k <= |segments[t]|)
  {
    if t == |segments| then Flat(segments) else Flat(segments[..t]) + segments[t][..k]
  }

  lemma SentIsPrefix(segments: seq<seq<byte>>, t: nat, k: nat)
    requires t <= |segments| && (if t == |segments| then k == 0 else k <= |segments[t]|)
    ensures SentUpTo(segments, t, k) <= Flat(segments)
  {
    if t < |segments| {
      FlatStep(segments, t);
      FlatPrefix(segments, t + 1);
      assert SentUpTo(segments, t, k) <= Flat(segments[..t + 1]);
    }
  }

  /** A segment that is through is the next one not begun. */
  lemma SegmentThrough(segments: seq<seq<byte>>, t: nat)
    requires t < |segments|
    ensures SentUpTo(segments, t, |segments[t]|) == SentUpTo(segments, t + 1, 0)
  {
    FlatStep(segments, t);
    if t + 1 == |segments| {
      assert segments[..t + 1] == segments;
    } else {
      assert segments[t + 1][..0] == [];
    }
  }

  lemma OneMore(segments: seq<seq<byte>>, t: nat, k: nat)
    requires t < |segments| && k < |segments[t]|
    ensures SentUpTo(segments, t, k + 1) == SentUpTo(segments, t, k) + [segments[t][k]]
  {
  }

  lemma NotEmpty(segments: seq<seq<byte>>, t: nat)
    requires t < |segments| && segments[t] != []
    ensures |Flat(segments)| > 0
  {
    SentIsPrefix(segments, t, |segments[t]|);
  }

  lemma FirstAndLast(segments: seq<seq<byte>>, target: nat)
    ensures SentUpTo(segments, 0, 0) == [] && SentUpTo(segments, |segments|, 0) == Flat(segments)
    ensures Frames(target, []) == [Start] + [Address(target % 128 * 2)]
  {
  }

  class TwoWire {
    // the session
    const segments: seq<seq<byte>>
    const target: nat
    var totalBytes: nat
    var curTransaction: nat
    var curIndex: nat

    var state: State
    /** Given once with the outcome: what `multiWrite` waits for. */
    var result: seq<bool>

    /** How far the DMA has got in its segment. */
    var dmaIndex: nat
    /** Which interrupts of the peripheral are on, and whether it asks the DMA for bytes. */
    var eventsOn: bool
    var dmaOn: bool

    /** The data bytes that have gone to the peripheral, after the address. */
    ghost var wire: seq<byte>
    /** All that has been on the bus. */
    ghost var bus: seq<Signal>

    ghost predicate CursorOk()
      reads this
    {
      curTransaction <= |segments| &&
      if curTransaction == |segments| then curIndex == 0 else curIndex <= |segments[curTransaction]|
    }

    /** Between two hardware events. */
    ghost predicate Valid()
      reads this
    {
      && CursorOk()
      && totalBytes == |Flat(segments)|
      && (result == [] || result == [true])
      && (result == [true] ==> wire == Flat(segments))
      && bus == (if state == TxStart then [Start] else Frames(target, wire) + if state == TxEnd then [Stop] else [])
      && (result == [true] ==> (state == TxEnd <==> |Flat(segments)| > 0))
      && (result == [] ==> eventsOn == (state != TxDataDma) && dmaOn == (state == TxDataDma))
      && match state
         case Idle => false
         case TxStart => curTransaction == 0 && curIndex == 0 && wire == [] && result == []
         case TxAddrSent => curTransaction == 0 && curIndex == 0 && wire == []
         case TxData => wire == SentUpTo(segments, curTransaction, curIndex)
                        && (result == [] ==>
                              curTransaction < |segments| && |segments[curTransaction]| < 8 && |Flat(segments)| > 0)
         case TxDataDma => InDma() && result == []
         case TxStop => wire == Flat(segments) && curTransaction == |segments| && result == []
                        && |Flat(segments)| > 0
         case TxEnd => wire == Flat(segments) && result == [true]
    }

    ghost predicate InDma()
      reads this
    {
      && curTransaction < |segments| && curIndex == 0
      && 8 <= |segments[curTransaction]| && dmaIndex <= |segments[curTransaction]|
      && wire == SentUpTo(segments, curTransaction, dmaIndex)
    }

    /** How many effective events there can still be. */
    ghost function Left(): int
      reads this
    {
      if result != [] then 0
      else
        |Flat(segments)| - |wire| + 2 * (|segments| - curTransaction) +
        match state
        case Idle => 0
        case TxStart => 4
        case TxAddrSent => 3
        case TxData => 2
        case TxDataDma => 2
        case TxStop => 1
        case TxEnd => 0
    }

    /** The session of `multiWrite`. */
    constructor (t: nat, data: seq<seq<byte>>)
      requires forall i :: 0 <= i < |data| ==> |data[i]| < 65535
      ensures Valid() && segments == data && target == t && state == TxStart && result == []
      ensures Left() == |Flat(data)| + 2 * |data| + 4
    {
      target := t;
      segments := data;
      curTransaction, curIndex := 0, 0;
      state := TxStart;
      result, wire, bus, dmaIndex := [], [], [Start], 0;
      eventsOn, dmaOn := true, false;
      new;
      totalBytes := 0;
      var i := 0;
      while i < |data|
        invariant 0 <= i <= |data| && totalBytes == |Flat(data[..i])|
        invariant segments == data && state == TxStart && curTransaction == 0 && curIndex == 0 && result == []
                  && wire == [] && bus == [Start] && eventsOn && !dmaOn && target == t
        modifies this`totalBytes
      {
        FlatStep(data, i);
        totalBytes := totalBytes + |data[i]|;
        i := i + 1;
      }
      assert data[..i] == data;
    }

    /** Begins the segment under the cursor, or tells that there is none left. */
    method InitiateTx() returns (more: bool)
      requires CursorOk() && (curTransaction < |segments| ==> curIndex == 0)
      requires wire == SentUpTo(segments, curTransaction, 0) && bus == Frames(target, wire)
      modifies this`curIndex, this`curTransaction, this`state, this`wire, this`bus, this`dmaIndex, this`eventsOn,
        this`dmaOn
      ensures bus == Frames(target, wire)
      ensures CursorOk() && curTransaction >= old(curTransaction) && |wire| >= |old(wire)|
      ensures more ==> |Flat(segments)| > 0 && eventsOn == (state == TxData) && dmaOn == (state == TxDataDma)
      ensures !more && old(eventsOn) && !old(dmaOn) ==> eventsOn && !dmaOn
      ensures more ==> curTransaction < |segments| &&
                       if state == TxData
                       then wire == SentUpTo(segments, curTransaction, curIndex) && |segments[curTransaction]| < 8
                       else state == TxDataDma && InDma()
      ensures !more ==> curTransaction == |segments| && wire == old(wire) == Flat(segments) &&
                        (state == TxData || (state == old(state) && curTransaction == old(curTransaction)))
      decreases |segments| - curTransaction, 1
    {
      if curTransaction >= |segments| {
        return false;
      }
      curIndex := 0;
      SentIsPrefix(segments, curTransaction, |segments[curTransaction]|);
      var size := |segments[curTransaction]|;
      if size < 8 {
        state := TxData;
        SetInterruptMode(true, false);
        more := SendNext();
        return;
      }
      state := TxDataDma;
      SetInterruptMode(false, true);
      dmaIndex := 0;
      return true;
    }

    /** Sends the next byte of the segment, or goes on to the next segment. */
    method SendNext() returns (more: bool)
      requires CursorOk() && state == TxData && wire == SentUpTo(segments, curTransaction, curIndex)
      requires bus == Frames(target, wire) && eventsOn && !dmaOn
      requires curTransaction < |segments| ==> |segments[curTransaction]| < 8
      modifies this`curIndex, this`curTransaction, this`state, this`wire, this`bus, this`dmaIndex, this`eventsOn,
        this`dmaOn
      ensures bus == Frames(target, wire)
      ensures CursorOk() && curTransaction >= old(curTransaction) && |wire| >= |old(wire)|
      ensures more ==> |Flat(segments)| > 0 && eventsOn == (state == TxData) && dmaOn == (state == TxDataDma)
      ensures !more ==> eventsOn && !dmaOn
      ensures more ==> curTransaction < |segments| && (|wire| > |old(wire)| || curTransaction > old(curTransaction)) &&
                       if state == TxData
                       then wire == SentUpTo(segments, curTransaction, curIndex) && |segments[curTransaction]| < 8
                       else state == TxDataDma && InDma()
      ensures !more ==> curTransaction == |segments| && wire == old(wire) == Flat(segments) && state == TxData
      decreases |segments| - curTransaction, 0
    {
      if curTransaction >= |segments| {
        curIndex := 0;
        return false;
      }
      if curIndex >= |segments[curTransaction]| {
        SegmentThrough(segments, curTransaction);
        curTransaction := curTransaction + 1;
        curIndex := 0;
        more := InitiateTx();
        return;
      }
      OneMore(segments, curTransaction, curIndex);
      SentIsPrefix(segments, curTransaction, curIndex + 1);
      FramesGrow(target, wire, segments[curTransaction][curIndex]);
      bus := bus + [Data(segments[curTransaction][curIndex])];
      wire := wire + [segments[curTransaction][curIndex]];
      curIndex := curIndex + 1;
      return true;
    }

    /** The DMA has sent its segment. */
    method DmaTxDone()
      requires Valid() && state == TxDataDma && dmaIndex == |segments[curTransaction]|
      modifies this
      ensures Valid() && Left() < old(Left())
    {
      hide Frames, SentUpTo, Flat;
      SegmentThrough(segments, curTransaction);
      NotEmpty(segments, curTransaction);
      FirstAndLast(segments, target);
      curTransaction := curTransaction + 1;
      var more := InitiateTx();
      if !more {
        state := TxStop;
        SetInterruptMode(true, false);
      }
    }

    /** Events and DMA exclude each other. */
    method SetInterruptMode(events: bool, dma: bool)
      requires events != dma
      modifies this`eventsOn, this`dmaOn
      ensures eventsOn == events && dmaOn == dma
    {
      eventsOn, dmaOn := events, dma;
    }

    method SetDone(outcome: bool)
      modifies this`result
      ensures result == [outcome]
    {
      result := [outcome];
    }

    /** The event interrupt; with an empty status register it is spurious. */
    method IrqTx(stat0: nat)
      requires Valid() && result == [] && eventsOn
      modifies this
      ensures Valid()
      ensures stat0 == 0 ==> unchanged(this)
      ensures stat0 != 0 ==> Left() < old(Left())
      ensures stat0 != 0 && old(state) == TxStart ==> bus == old(bus) + [Address(target % 128 * 2)]
      ensures stat0 != 0 && old(state) == TxStop ==> bus == old(bus) + [Stop] && result == [true]
      ensures state == TxEnd <==> stat0 != 0 && old(state) == TxStop
    {
      hide Frames, SentUpTo, Flat;
      if stat0 == 0 {
        return;
      }
      FirstAndLast(segments, target);
      SentIsPrefix(segments, curTransaction, curIndex);
      match state {
        case TxStart =>
          bus := bus + [Address(target % 128 * 2)];
          state := TxAddrSent;
        case TxAddrSent =>
          var more := InitiateTx();
          if !more {
            if totalBytes == 0 {
              SetDone(true);
            } else {
              assert false; // the failure reported here cannot occur: without a byte to send there is none in total
            }
          }
        case TxData =>
          var more := SendNext();
          if !more {
            state := TxStop;
          }
        case TxStop =>
          bus := bus + [Stop];
          SetDone(true);
          state := TxEnd;
      }
    }

    /** The DMA moves one byte of its segment. */
    method MoveByDma()
      requires Valid() && state == TxDataDma && dmaIndex < |segments[curTransaction]|
      modifies this
      ensures Valid() && Left() < old(Left())
    {
      hide Frames, Flat, SentUpTo;
      OneMore(segments, curTransaction, dmaIndex);
      FramesGrow(target, wire, segments[curTransaction][dmaIndex]);
      bus := bus + [Data(segments[curTransaction][dmaIndex])];
      wire := wire + [segments[curTransaction][dmaIndex]];
      dmaIndex := dmaIndex + 1;
    }
  }

  /**
   * Whether the hardware can produce this event now: interrupts are off during
   * DMA, and everything is off once there is a result.
   */
  predicate Legal(w: TwoWire, e: Event)
    reads w
  {
    w.result == [] &&
    match e
    case Interrupt(_) => w.eventsOn
    case DmaByte => w.dmaOn && w.curTransaction < |w.segments|
                    && w.dmaIndex < |w.segments[w.curTransaction]|
    case DmaDone => w.dmaOn && w.curTransaction < |w.segments|
                    && w.dmaIndex == |w.segments[w.curTransaction]|
  }

  /** What has gone out is a prefix of the segments, laid end to end. */
  lemma WireIsPrefix(w: TwoWire)
    requires w.Valid()
    ensures w.wire <= Flat(w.segments)
    ensures w.Left() >= 0
    ensures w.result == [] ==> w.Left() > 0
  {
    SentIsPrefix(w.segments, w.curTransaction, w.curIndex);
    if w.state == TxDataDma {
      SentIsPrefix(w.segments, w.curTransaction, w.dmaIndex);
    }
  }

  /** Until there is a result some event can occur, and every event but a spurious interrupt brings it nearer. */
  lemma NeverStuck(w: TwoWire)
    requires w.Valid() && w.result == []
    ensures Legal(w, Interrupt(1)) || Legal(w, DmaByte) || Legal(w, DmaDone)
  {
  }

  /** Everything the hardware can produce is offered in turn. */
  ghost predicate Fair(events: seq<Event>) {
    forall k :: 0 <= k < |events| ==>
      events[k] == if k % 3 == 0 then Interrupt(1) else if k % 3 == 1 then DmaByte else DmaDone
  }

  /**
   * Of each round of three one event at least is effective; `came` tells whether it has come in the round under way.
   */
  ghost predicate Rounds(w: TwoWire, n: nat, effective: nat, came: bool)
    reads w
  {
    && effective >= n / 3 + (if n % 3 > 0 && came then 1 else 0)
    && (n % 3 > 0 && !came ==> !Legal(w, Interrupt(1)))
    && (n % 3 == 2 && !came ==> !Legal(w, DmaByte))
  }

  lemma FairIff(events: seq<Event>)
    ensures Fair(events) <==>
            forall k :: 0 <= k < |events| ==>
              events[k] == if k % 3 == 0 then Interrupt(1) else if k % 3 == 1 then DmaByte else DmaDone
  {
  }

  lemma NoRoundYet(w: TwoWire)
    ensures Rounds(w, 0, 0, false)
  {
  }

  lemma RoundSoFar(w: TwoWire, events: seq<Event>, n: nat, effective: nat, came: bool)
    requires Fair(events) ==> Rounds(w, n, effective, came)
    ensures Fair(events) ==> effective >= n / 3
    ensures Fair(events) && n < |events| ==> events[n] != Interrupt(0)
  {
  }

  lemma RoundTaken(w: TwoWire, n: nat, effective: nat)
    ensures effective >= n / 3 ==> Rounds(w, n + 1, effective + 1, true)
  {
  }

  lemma RoundDropped(w: TwoWire, events: seq<Event>, n: nat, effective: nat, came: bool)
    requires w.Valid() && w.result == [] && n < |events| && !Legal(w, events[n])
    requires Fair(events) ==> Rounds(w, n, effective, came)
    ensures Fair(events) ==> Rounds(w, n + 1, effective, n % 3 != 0 && came)
  {
    hide Legal, TwoWire.Valid;
    NeverStuck(w);
  }

  /** The bus, signal by signal. */
  lemma BusIs(w: TwoWire)
    requires w.Valid()
    ensures |w.bus| >= 1 && w.bus[0] == Start && (|w.bus| >= 2 ==> w.bus[1] == Address(w.target % 128 * 2))
    ensures forall i :: 2 <= i < |w.bus| ==>
              w.bus[i] == if i - 2 < |Flat(w.segments)| then Data(Flat(w.segments)[i - 2]) else Stop
    ensures w.result == [true] ==> |w.bus| == if |Flat(w.segments)| > 0 then |Flat(w.segments)| + 3 else 2
    ensures w.result != [true] ==> Stop !in w.bus
  {
    hide TwoWire.Valid, Flat, Frames;
    WireIsPrefix(w);
    BusShape(w);
    SignalsAre(w.target, w.wire, Flat(w.segments));
  }

  lemma ResultIs(w: TwoWire)
    requires w.Valid()
    ensures w.result == [] || (w.result == [true] && w.wire == Flat(w.segments))
  {
  }

  lemma BusShape(w: TwoWire)
    requires w.Valid()
    ensures w.bus == (if w.state == TxStart then [Start]
                      else Frames(w.target, w.wire) + if w.state == TxEnd then [Stop] else [])
    ensures w.state == TxEnd ==> w.result == [true] && w.wire == Flat(w.segments)
    ensures w.result == [true] ==>
              w.wire == Flat(w.segments) && w.state != TxStart && (w.state == TxEnd <==> |Flat(w.segments)| > 0)
  {
  }

  lemma SignalsAre(target: nat, wire: seq<byte>, flat: seq<byte>)
    requires wire <= flat
    ensures var bus := Frames(target, wire);
      && |bus| == |wire| + 2 && bus[0] == Start && bus[1] == Address(target % 128 * 2)
      && (forall i :: 2 <= i < |bus| ==> bus[i] == Data(flat[i - 2]))
      && Stop !in bus && bus + [] == bus
  {
  }

  method Deliver(w: TwoWire, e: Event)
    requires w.Valid() && Legal(w, e)
    modifies w
    ensures w.Valid() && w.wire <= Flat(w.segments)
    ensures if e == Interrupt(0) then w.Left() == old(w.Left()) else w.Left() < old(w.Left())
  {
    match e {
      case Interrupt(stat0) => w.IrqTx(stat0);
      case DmaByte => w.MoveByDma();
      case DmaDone => w.DmaTxDone();
    }
    WireIsPrefix(w);
  }

  /**
   * A whole `multiWrite`, driven by any events in any order until the time limit; those that cannot occur are dropped.
   * What goes out is always a prefix of the segments; success is reported only with all of it gone out, and is reported
   * at the latest after as many effective events as bytes, twice the segments, and four.
   */
  method MultiWrite(target: nat, segments: seq<seq<byte>>, events: seq<Event>)
    returns (ok: bool, w: TwoWire, ghost effective: nat)
    requires forall i :: 0 <= i < |segments| ==> |segments[i]| < 65535
    ensures fresh(w) && w.Valid() && w.segments == segments
    ensures w.wire <= Flat(segments)
    ensures |w.bus| >= 1 && w.bus[0] == Start && (|w.bus| >= 2 ==> w.bus[1] == Address(target % 128 * 2))
    ensures forall i :: 2 <= i < |w.bus| ==>
              w.bus[i] == if i - 2 < |Flat(segments)| then Data(Flat(segments)[i - 2]) else Stop
    ensures ok ==> |w.bus| == if |Flat(segments)| > 0 then |Flat(segments)| + 3 else 2
    ensures !ok ==> Stop !in w.bus
    ensures ok ==> w.wire == Flat(segments)
    ensures effective <= |Flat(segments)| + 2 * |segments| + 4
    ensures effective == |Flat(segments)| + 2 * |segments| + 4 ==> ok
    ensures Fair(events) && |events| >= 3 * (|Flat(segments)| + 2 * |segments| + 4) ==> ok
    ensures !ok ==> Legal(w, Interrupt(1)) || Legal(w, DmaByte) || Legal(w, DmaDone)
  {
    hide Legal, Fair, Rounds, Flat, Frames, TwoWire.Valid, TwoWire.Left;
    w := new TwoWire(target, segments);
    WireIsPrefix(w);
    effective := 0;
    var n := 0;
    ghost var came := false;
    NoRoundYet(w);
    while n < |events| && w.result == []
      invariant 0 <= n <= |events|
      invariant w.Valid() && w.segments == segments && w.target == target && fresh(w) && w.wire <= Flat(segments)
      invariant effective + w.Left() <= |Flat(segments)| + 2 * |segments| + 4
      invariant Fair(events) && w.result == [] ==> Rounds(w, n, effective, came)
    {
      if Legal(w, events[n]) {
        RoundSoFar(w, events, n, effective, came);
        Deliver(w, events[n]);
        RoundTaken(w, n, effective);
        effective := effective + if events[n] == Interrupt(0) then 0 else 1;
        came := true;
      } else {
        RoundDropped(w, events, n, effective, came);
        came := n % 3 != 0 && came;
      }
      n := n + 1;
    }
    WireIsPrefix(w);
    ResultIs(w);
    ok := w.result == [true];
    if !ok {
      NeverStuck(w);
      RoundSoFar(w, events, n, effective, came);
    }
    BusIs(w);
  }
}
