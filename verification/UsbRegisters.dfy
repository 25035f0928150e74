/** Endpoint registers of the USB device: bits that toggle when written as one, flags cleared when written as zero. */
module UsbRegisters {
  const TX_STA_MASK: bv16 := 0x0030
  const TX_NAK: bv16 := 0x0020
  const TX_VALID: bv16 := 0x0030
  const TX_DTG: bv16 := 0x0040
  const TX_ST: bv16 := 0x0080
  const TYPE_MASK: bv16 := 0x0600
  const TYPE_CONTROL: bv16 := 0x0200
  const SETUP: bv16 := 0x0800
  const RX_STA_MASK: bv16 := 0x3000
  const RX_NAK: bv16 := 0x2000
  const RX_VALID: bv16 := 0x3000
  const RX_DTG: bv16 := 0x4000
  const RX_ST: bv16 := 0x8000

  const TOGGLES: bv16 := TX_STA_MASK | TX_DTG | RX_STA_MASK | RX_DTG
  const FLAGS: bv16 := TX_ST | RX_ST
  const MASK_CLEAR: bv16 := 0xffff & !TOGGLES

  function StatusMask(isTx: bool): (m: bv16)
    ensures m == if isTx then 0x0030 else 0x3000
  {
    if isTx then TX_STA_MASK else RX_STA_MASK
  }

  function Flag(isTx: bool): (m: bv16)
    ensures m == if isTx then 0x0080 else 0x8000
  {
    if isTx then TX_ST else RX_ST
  }

  function Toggle(isTx: bool): (m: bv16)
    ensures m == if isTx then 0x0040 else 0x4000
  {
    if isTx then TX_DTG else RX_DTG
  }

  // ---------- the hardware ----------

  /** What the hardware makes of writing `value` to a register that holds `now`. */
  function Written(now: bv16, value: bv16): bv16 {
    ((now ^ value) & TOGGLES) | (now & value & FLAGS) | (now & SETUP) | (value & !(TOGGLES | FLAGS | SETUP))
  }

  /** A packet sent, a packet received, a SETUP packet received. */
  datatype Event = Sent | Received | SetupReceived

  /**
   * Packets pass while the status of their direction is VALID. A control endpoint takes SETUP packets in any status
   * but DISABLED, as long as the receive flag is clear.
   */
  predicate Possible(reg: bv16, e: Event) {
    match e
    case Sent => reg & TX_STA_MASK == TX_VALID
    case Received => reg & RX_STA_MASK == RX_VALID
    case SetupReceived => reg & TYPE_MASK == TYPE_CONTROL && reg & RX_ST == 0 && reg & RX_STA_MASK != 0
  }

  /**
   * A completion raises its flag and flips its data toggle while the status falls from VALID to NAK; SETUP sets both.
   */
  function Happened(reg: bv16, e: Event): bv16 {
    match e
    case Sent => ((reg & !TX_STA_MASK) | TX_NAK | TX_ST) ^ TX_DTG
    case Received => ((reg & !(RX_STA_MASK | SETUP)) | RX_NAK | RX_ST) ^ RX_DTG
    case SetupReceived =>
      (reg & !(TX_STA_MASK | RX_STA_MASK)) | TX_NAK | RX_NAK | RX_ST | SETUP | TX_DTG | RX_DTG
  }

  /** The register after some events; one that is not possible when its turn comes does not happen. */
  function AfterEvents(reg: bv16, events: seq<Event>): bv16
    decreases |events|
  {
    if events == [] then reg
    else AfterEvents(if Possible(reg, events[0]) then Happened(reg, events[0]) else reg, events[1..])
  }

  /** Flags only rise; the toggling bits and SETUP may change, nothing else does. */
  predicate Meanwhile(read: bv16, now: bv16) {
    read & FLAGS & !now == 0 && (read ^ now) & !(FLAGS | TOGGLES | SETUP) == 0
  }

  lemma {:induction false} EventsAreMeanwhile(reg: bv16, events: seq<Event>)
    ensures Meanwhile(reg, AfterEvents(reg, events))
    decreases |events|
  {
    if events != [] {
      EventsAreMeanwhile(if Possible(reg, events[0]) then Happened(reg, events[0]) else reg, events[1..]);
    }
  }

  // ---------- the same, bit by bit ----------

  /** Writing a one flips a toggling bit, writing a zero clears a flag; SETUP keeps its value and the rest is stored. */
  lemma WrittenBits(now: bv16, value: bv16)
    ensures Written(now, value) & 0x7070 == (now & 0x7070) ^ (value & 0x7070)
    ensures Written(now, value) & 0x8080 == now & value & 0x8080
    ensures Written(now, value) & 0x0800 == now & 0x0800
    ensures Written(now, value) & 0x070f == value & 0x070f
  {
  }

  /** A packet sent raises bit 7, flips bit 6 and takes bits 5 and 4 from 11 to 10. */
  lemma SentBits(reg: bv16)
    ensures Possible(reg, Sent) <==> reg & 0x0030 == 0x0030
    ensures Happened(reg, Sent) & 0x00f0 == 0x00a0 | ((reg & 0x0040) ^ 0x0040)
    ensures Happened(reg, Sent) & 0xff0f == reg & 0xff0f
  {
  }

  /** A packet received raises bit 15, flips bit 14, takes bits 13 and 12 from 11 to 10, and clears bit 11. */
  lemma ReceivedBits(reg: bv16)
    ensures Possible(reg, Received) <==> reg & 0x3000 == 0x3000
    ensures Happened(reg, Received) & 0xf800 == 0xa000 | ((reg & 0x4000) ^ 0x4000)
    ensures Happened(reg, Received) & 0x07ff == reg & 0x07ff
  {
  }

  /** A SETUP packet raises bits 15 and 11 and sets both toggles and both status fields; the transmit flag stays. */
  lemma SetupBits(reg: bv16)
    ensures Possible(reg, SetupReceived) <==> reg & 0x8600 == 0x0200 && reg & 0x3000 != 0
    ensures Happened(reg, SetupReceived) & 0xf870 == 0xe860
    ensures Happened(reg, SetupReceived) & 0x078f == reg & 0x078f
  {
  }

  // ---------- the read-modify-writes of the driver ----------

  /** The value `setEpStatus` writes after reading `reg`. */
  function StatusValue(reg: bv16, isTx: bool, status: bv16): bv16 {
    ((reg & (MASK_CLEAR | StatusMask(isTx))) ^ (StatusMask(isTx) & status)) | RX_ST | TX_ST
  }

  /** The value `clearTxRx` writes. */
  function FlagValue(reg: bv16, isTx: bool): bv16 {
    (reg & MASK_CLEAR & !Flag(isTx)) | Flag(!isTx)
  }

  /** The value `clearDTG` writes, when it writes at all. */
  function ToggleValue(reg: bv16, isTx: bool): bv16 {
    (reg & MASK_CLEAR) | RX_ST | TX_ST | Toggle(isTx)
  }

  /** The bits of the mask are the same. */
  predicate Same(a: bv16, b: bv16, mask: bv16) {
    a & mask == b & mask
  }

  /** `after` is `now` with the status of one direction replaced. */
  predicate StatusOnly(now: bv16, after: bv16, isTx: bool, status: bv16) {
    after == (now & !StatusMask(isTx)) | (status & StatusMask(isTx))
  }

  /**
   * `setEpStatus` changes nothing but the status of its direction, whatever happens between its read and its write; and
   * that status becomes the one asked for exactly if it did not change in between.
   */
  lemma StatusIsSetIff(read: bv16, now: bv16, isTx: bool, status: bv16)
    requires Meanwhile(read, now)
    ensures var w := Written(now, StatusValue(read, isTx, status));
      Same(w, now, !StatusMask(isTx)) && (StatusOnly(now, w, isTx, status) <==> Same(read, now, StatusMask(isTx)))
  {
  }

  /** No event can change the status of this direction. */
  predicate Quiet(reg: bv16, isTx: bool) {
    && reg & StatusMask(isTx) != (TX_VALID | RX_VALID) & StatusMask(isTx)
    && (Possible(reg, SetupReceived) ==> reg & StatusMask(isTx) == (TX_NAK | RX_NAK) & StatusMask(isTx))
  }

  lemma QuietStep(reg: bv16, e: Event, isTx: bool)
    requires Quiet(reg, isTx) && Possible(reg, e)
    ensures Quiet(Happened(reg, e), isTx) && Same(reg, Happened(reg, e), StatusMask(isTx))
  {
  }

  lemma SameAs(a: bv16, b: bv16, c: bv16, mask: bv16)
    requires Same(a, b, mask) && Same(b, c, mask)
    ensures Same(a, c, mask)
  {
  }

  lemma {:induction false} QuietStays(reg: bv16, events: seq<Event>, isTx: bool)
    requires Quiet(reg, isTx)
    ensures Same(reg, AfterEvents(reg, events), StatusMask(isTx))
    decreases |events|
  {
    if events != [] {
      var next := if Possible(reg, events[0]) then Happened(reg, events[0]) else reg;
      if Possible(reg, events[0]) {
        QuietStep(reg, events[0], isTx);
      }
      hide Quiet, Possible, Happened, Same;
      QuietStays(next, events[1..], isTx);
      SameAs(reg, next, AfterEvents(next, events[1..]), StatusMask(isTx));
    }
  }

  /** Read while quiet, the status is set exactly, whatever events come before the write. */
  lemma QuietStatusIsSet(reg: bv16, events: seq<Event>, isTx: bool, status: bv16)
    requires Quiet(reg, isTx)
    ensures var now := AfterEvents(reg, events);
      StatusOnly(now, Written(now, StatusValue(reg, isTx, status)), isTx, status)
  {
    hide *;
    EventsAreMeanwhile(reg, events);
    QuietStays(reg, events, isTx);
    StatusIsSetIff(reg, AfterEvents(reg, events), isTx, status);
  }

  /** Read while not quiet, one event suffices to set a status that nobody asked for. */
  lemma OtherwiseStatusIsLost(reg: bv16, isTx: bool, status: bv16) returns (e: Event)
    requires !Quiet(reg, isTx)
    ensures var now := AfterEvents(reg, [e]);
      !StatusOnly(now, Written(now, StatusValue(reg, isTx, status)), isTx, status)
  {
    e := if Possible(reg, SetupReceived) && reg & StatusMask(isTx) != (TX_NAK | RX_NAK) & StatusMask(isTx)
         then SetupReceived else if isTx then Sent else Received;
    assert AfterEvents(reg, [e]) == Happened(reg, e) by {
      assert [e][1..] == [];
    }
    EventsAreMeanwhile(reg, [e]);
    HappenedChanges(reg, e, isTx);
    StatusIsSetIff(reg, Happened(reg, e), isTx, status);
  }

  lemma HappenedChanges(reg: bv16, e: Event, isTx: bool)
    requires Possible(reg, e)
    requires e == SetupReceived ==> reg & StatusMask(isTx) != (TX_NAK | RX_NAK) & StatusMask(isTx)
    requires e != SetupReceived ==> e == if isTx then Sent else Received
    ensures !Same(reg, Happened(reg, e), StatusMask(isTx))
  {
  }

  /** A transmit endpoint stalled just when its packet goes out ends up disabled. */
  lemma StalledBecomesDisabled()
    ensures var stall: bv16 := 0x0010;
      Written(AfterEvents(0x0030, [Sent]), StatusValue(0x0030, true, stall)) & TX_STA_MASK == 0 != stall
  {
    assert [Sent][1..] == [];
    assert AfterEvents(0x0030, [Sent]) == Happened(0x0030, Sent);
  }

  /** `clearTxRx` clears the flag of its direction and changes nothing else. */
  lemma FlagIsCleared(read: bv16, now: bv16, isTx: bool)
    requires Meanwhile(read, now)
    ensures Written(now, FlagValue(read, isTx)) == now & if isTx then 0xff7f else 0x7fff
  {
  }

  /** The write of `clearDTG` flips the data toggle of its direction and changes nothing else. */
  lemma ToggleIsFlipped(read: bv16, now: bv16, isTx: bool)
    requires Meanwhile(read, now)
    ensures Written(now, ToggleValue(read, isTx)) == now ^ if isTx then 0x0040 else 0x4000
  {
  }

  /**
   * Each flag is that of its packets: once a packet is dealt with no flag is left, and with both flags raised each call
   * leaves that of the other direction.
   */
  lemma FlagsOfPackets(reg: bv16)
    ensures reg & 0x8080 == 0 ==>
      var sent, got, setup := Happened(reg, Sent), Happened(reg, Received), Happened(reg, SetupReceived);
      && sent & 0x8080 == 0x0080 && Written(sent, FlagValue(sent, true)) & 0x8080 == 0
      && got & 0x8080 == 0x8000 && Written(got, FlagValue(got, false)) & 0x8080 == 0
      && setup & 0x8080 == 0x8000 && Written(setup, FlagValue(setup, false)) & 0x8080 == 0
    ensures reg & 0x8080 == 0x8080 ==>
      && Written(reg, FlagValue(reg, true)) & 0x8080 == 0x8000
      && Written(reg, FlagValue(reg, false)) & 0x8080 == 0x0080
  {
  }

  /** And each data toggle is the one its packets flip. */
  lemma TogglesOfPackets(reg: bv16)
    ensures Happened(reg, Sent) & 0x4040 == (reg & 0x4040) ^ Toggle(true)
    ensures Happened(reg, Received) & 0x4040 == (reg & 0x4040) ^ Toggle(false)
    ensures Toggle(true) == 0x0040 && Toggle(false) == 0x4000
  {
  }

  /** Without anything in between: the status fields are bits 4 and 5, and bits 12 and 13. */
  lemma StatusBits(reg: bv16, status: bv16)
    ensures Written(reg, StatusValue(reg, true, status)) == (reg & 0xffcf) | (status & 0x0030)
    ensures Written(reg, StatusValue(reg, false, status)) == (reg & 0xcfff) | (status & 0x3000)
  {
  }

  class EndpointRegister {
    var epcs: bv16

    /** A write, as the hardware takes it. */
    method Store(value: bv16)
      modifies this
      ensures epcs == Written(old(epcs), value)
    {
      epcs := Written(epcs, value);
    }

    /** What the hardware does by itself. */
    method Hardware(events: seq<Event>)
      modifies this
      ensures epcs == AfterEvents(old(epcs), events)
    {
      epcs := AfterEvents(epcs, events);
    }

    /** `events` come between the read and the write. */
    method SetEpStatus(isTx: bool, status: bv16, events: seq<Event>)
      modifies this
      ensures var now := AfterEvents(old(epcs), events);
        && Same(epcs, now, !StatusMask(isTx))
        && (StatusOnly(now, epcs, isTx, status) <==> Same(old(epcs), now, StatusMask(isTx)))
        && (Quiet(old(epcs), isTx) ==> StatusOnly(now, epcs, isTx, status))
    {
      var reg := epcs;
      ghost var read := reg;
      var value := NewStatus(reg, isTx, status);
      hide *;
      Hardware(events);
      EventsAreMeanwhile(read, events);
      StatusIsSetIff(read, epcs, isTx, status);
      if Quiet(read, isTx) {
        QuietStatusIsSet(read, events, isTx, status);
      }
      Store(value);
    }

    /** The value to write: computed from what was read. */
    method NewStatus(read: bv16, isTx: bool, status: bv16) returns (reg: bv16)
      ensures reg == StatusValue(read, isTx, status)
    {
      var c: bv16;
      if isTx {
        reg := read & (MASK_CLEAR | TX_STA_MASK);
        c := TX_STA_MASK & status;
      } else {
        reg := read & (MASK_CLEAR | RX_STA_MASK);
        c := RX_STA_MASK & status;
      }
      reg := reg ^ c;
      reg := reg | RX_ST | TX_ST;
    }

    method ClearTxRx(isTx: bool, events: seq<Event>)
      modifies this
      ensures epcs == AfterEvents(old(epcs), events) & if isTx then 0xff7f else 0x7fff
    {
      ghost var read := epcs;
      var reg := epcs & MASK_CLEAR;
      if isTx {
        reg := (reg & !TX_ST) | RX_ST;
      } else {
        reg := (reg & !RX_ST) | TX_ST;
      }
      assert reg == FlagValue(read, isTx);
      hide *;
      Hardware(events);
      EventsAreMeanwhile(read, events);
      FlagIsCleared(read, epcs, isTx);
      Store(reg);
    }

    /** The data toggle is clear afterwards exactly if no event changed it in between; nothing else changes. */
    method ClearDTG(isTx: bool, events: seq<Event>)
      modifies this
      ensures var now, dtg := AfterEvents(old(epcs), events), Toggle(isTx);
        Same(epcs, now, !dtg) && (Same(epcs, 0, dtg) <==> Same(old(epcs), now, dtg))
    {
      ghost var read := epcs;
      var reg := epcs;
      var change: bv16 := 0;
      if isTx {
        if reg & TX_DTG != 0 {
          change := TX_DTG;
        }
      } else {
        if reg & RX_DTG != 0 {
          change := RX_DTG;
        }
      }
      assert change != 0 <==> !Same(read, 0, Toggle(isTx));
      assert change != 0 ==> (reg & MASK_CLEAR) | RX_ST | TX_ST | change == ToggleValue(read, isTx);
      hide *;
      Hardware(events);
      ghost var now := epcs;
      EventsAreMeanwhile(read, events);
      if change != 0 {
        Store((reg & MASK_CLEAR) | RX_ST | TX_ST | change);
      }
      Cleared(read, now, epcs, isTx);
    }
  }

  lemma Cleared(read: bv16, now: bv16, after: bv16, isTx: bool)
    requires Meanwhile(read, now)
    requires after == if Same(read, 0, Toggle(isTx)) then now else Written(now, ToggleValue(read, isTx))
    ensures var dtg := Toggle(isTx);
      Same(after, now, !dtg) && (Same(after, 0, dtg) <==> Same(read, now, dtg))
  {
  }
}
