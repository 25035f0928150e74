/**
 * Transfers of the USB device driver: packets to the host until everything
 * is sent, packets from the host until one is short.
 */
module UsbTransfer {
  import opened Common
  import opened UsbPma

  /** The packets a transfer of `data` goes out in: full ones and then the rest; one empty packet for no data. */
  function PacketsOf(data: seq<byte>, max: nat): seq<seq<byte>>
    requires max > 0
    decreases |data|
  {
    if |data| <= max then [data] else [data[..max]] + PacketsOf(data[max..], max)
  }

  lemma {:induction false} PacketsAreTheData(data: seq<byte>, max: nat)
    requires max > 0
    ensures forall i :: 0 <= i < |PacketsOf(data, max)| ==> |PacketsOf(data, max)[i]| <= max
    ensures forall i :: 0 <= i < |PacketsOf(data, max)| - 1 ==> |PacketsOf(data, max)[i]| == max
    ensures Flat(PacketsOf(data, max)) == data
    decreases |data|
  {
    if |data| <= max {
      FlatAppend([], data);
      assert [] + [data] == [data];
      assert [] + data == data;
    } else {
      PacketsAreTheData(data[max..], max);
      FlatFront(data[..max], PacketsOf(data[max..], max));
      assert data[..max] + data[max..] == data;
    }
  }

  /** There is no empty packet at the end, unless there is no data. */
  lemma {:induction false} LastPacket(data: seq<byte>, max: nat)
    requires max > 0
    ensures PacketsOf(data, max) != []
    ensures data != [] ==> PacketsOf(data, max)[|PacketsOf(data, max)| - 1] != []
    decreases |data|
  {
    if |data| > max {
      LastPacket(data[max..], max);
    }
  }

  /** What is left to send begins with the next packet. */
  lemma PacketsStep(data: seq<byte>, from: nat, max: nat)
    requires max > 0 && from <= |data|
    ensures var n := Min(|data| - from, max);
      PacketsOf(data[from..], max) ==
      if from + n == |data| then [data[from..from + n]] else [data[from..from + n]] + PacketsOf(data[from + n..], max)
  {
    var rest := data[from..];
    if |rest| > max {
      assert rest[..max] == data[from..from + max];
      assert rest[max..] == data[from + max..];
      assert PacketsOf(rest, max) == [rest[..max]] + PacketsOf(rest[max..], max);
    } else {
      assert rest == data[from..|data|];
    }
  }

  lemma SubSlice(m: seq<byte>, at: nat, total: nat, q: nat, n: nat)
    requires at + total <= |m| && q + n <= total
    ensures m[at..at + total][q..q + n] == m[at + q..at + q + n]
  {
    var all := m[at..at + total];
    var inner, outer := all[q..q + n], m[at + q..at + q + n];
    forall i | 0 <= i < n ensures inner[i] == outer[i] {
      assert all[q + i] == m[at + q + i];
    }
  }

  lemma Regroup(sent: seq<seq<byte>>, p: seq<byte>, rest: seq<seq<byte>>)
    ensures sent + ([p] + rest) == sent + [p] + rest
  {
  }

  // ---------- how much the controller is armed for ----------

  const EP0_SIZE := 64

  /** The largest count of a received packet: it has ten bits. */
  const MAX_COUNT := 0x3ff

  /** The receive size `setRxBufferSize` programs, in blocks of two or thirty-two bytes; sixteen bits of it exist. */
  function RxSizeWord(size: word): half {
    if size > 62 then (0x8000 + (size + 31) % 0x1_0000_0000 / 32 * 0x400) % 0x1_0000
    else (size + 1) / 2 * 0x400
  }

  /** The bytes such a word lets in. */
  function Capacity(w: half): nat {
    var blocks := w / 0x400 % 32;
    if w >= 0x8000 then 32 * blocks else 2 * blocks
  }

  /** What the controller accepts once it has been armed for `n` bytes; a negative `n` wraps at 32 bits. */
  function Armed(n: int): nat {
    Capacity(RxSizeWord(n % 0x1_0000_0000))
  }

  function UpTo(n: int, max: nat): int {
    if n > max then max else n
  }

  /** The register on numbers: the block size in bit 15, the number of blocks in bits 10 to 14. */
  lemma RxSizeByNumber(size: word)
    ensures size <= 62 ==> RxSizeWord(size) == 1024 * ((size + 1) / 2)
    ensures 62 < size <= 992 ==> RxSizeWord(size) == 32768 + 1024 * ((size + 31) / 32)
  {
    if 62 < size <= 992 {
      assert (size + 31) % 0x1_0000_0000 == size + 31;
      assert (size + 31) / 32 <= 31;
    }
  }

  lemma CapacityByNumber(blocks: nat)
    requires blocks < 32
    ensures Capacity(1024 * blocks) == 2 * blocks && Capacity(32768 + 1024 * blocks) == 32 * blocks
  {
    SmallBlocks(blocks);
    LargeBlocks(blocks);
    assert (0x8000 + blocks * 0x400) % 0x1_0000 == 32768 + 1024 * blocks;
    hide Capacity;
  }

  lemma SmallBlocks(blocks: nat)
    requires blocks <= 31
    ensures blocks * 0x400 < 0x8000 && Capacity(blocks * 0x400) == 2 * blocks
  {
  }

  lemma LargeBlocks(blocks: nat)
    ensures var w := (0x8000 + blocks * 0x400) % 0x1_0000;
      Capacity(w) <= 992 && (blocks <= 31 ==> Capacity(w) == 32 * blocks)
  {
    var w := (0x8000 + blocks * 0x400) % 0x1_0000;
    if blocks <= 31 {
      assert w == 0x8000 + blocks * 0x400;
    }
  }

  lemma ArmedInBlocks(n: word)
    ensures n <= 62 ==> Armed(n) == 2 * ((n + 1) / 2)
    ensures 62 < n <= 992 ==> Armed(n) == 32 * ((n + 31) / 32)
    ensures 992 < n ==> Armed(n) <= 992
  {
    hide Capacity;
    assert n % 0x1_0000_0000 == n;
    if n <= 62 {
      SmallBlocks((n + 1) / 2);
    } else {
      LargeBlocks((n + 31) % 0x1_0000_0000 / 32);
    }
  }

  predicate InWholeBlocks(n: nat) {
    (n <= 62 && n % 2 == 0) || (64 <= n <= 992 && n % 32 == 0)
  }

  /** Of all sizes, the controller is armed for exactly what was asked for in whole blocks, up to 31 large ones. */
  lemma ArmedExactlyIff(n: word)
    ensures Armed(n) == n <==> InWholeBlocks(n)
    ensures n <= 992 ==> n <= Armed(n) <= n + 31
    ensures n > 992 ==> Armed(n) < n
  {
    ArmedInBlocks(n);
    hide Armed;
  }

  // ---------- a transfer from the host, on values ----------

  /** Where a transfer stands: the bytes counted, what the controller is armed for, and whether more may come. */
  datatype Progress = Progress(queued: half, armed: nat, open: bool)

  function Opened(total: half, max: nat): Progress {
    Progress(0, Armed(UpTo(total, max)), true)
  }

  /** The receive handler after a packet of `n` bytes. Endpoint 0 is always left armed for a whole packet. */
  function Received(ep: nat, total: half, max: nat, p: Progress, n: nat): Progress {
    var q := (p.queued + n) % 0x1_0000;
    var more := n >= max && q != total;
    Progress(q, if ep == 0 then Armed(EP0_SIZE) else if more then Armed(UpTo(total - q, max)) else p.armed, more)
  }

  /** On numbers: the count has 16 bits, and a packet that is short or reaches the total is the last one. */
  lemma ReceivedByNumber(ep: nat, total: half, max: nat, p: Progress, n: nat)
    ensures var q := Received(ep, total, max, p, n);
      && q.queued == (p.queued + n) % 65536
      && (q.open <==> n >= max && q.queued != total)
      && (ep == 0 ==> q.armed == 64)
      && (ep != 0 && !q.open ==> q.armed == p.armed)
      && (ep != 0 && q.open && total > q.queued ==>
            q.armed == Armed(if total - q.queued > max then max else total - q.queued))
    ensures Opened(total, max) == Progress(0, Armed(if total > max then max else total), true)
  {
    ArmedInBlocks(64);
    hide Armed;
  }

  /** As many of the packets as come before the transfer completes. */
  function ReceivedAll(ep: nat, total: half, max: nat, p: Progress, sizes: seq<nat>): Progress
    decreases |sizes|
  {
    if sizes == [] || !p.open then p
    else ReceivedAll(ep, total, max, Received(ep, total, max, p, sizes[0]), sizes[1..])
  }

  /** How many packets that is. */
  function Taken(ep: nat, total: half, max: nat, p: Progress, sizes: seq<nat>): (n: nat)
    ensures n <= |sizes|
    decreases |sizes|
  {
    if sizes == [] || !p.open then 0
    else 1 + Taken(ep, total, max, Received(ep, total, max, p, sizes[0]), sizes[1..])
  }

  /** A host that sends whole packets at most, through a controller that lets in no more than it is armed for. */
  predicate Accepted(ep: nat, total: half, max: nat, p: Progress, sizes: seq<nat>)
    decreases |sizes|
  {
    sizes == [] ||
    (p.open && sizes[0] <= max && sizes[0] <= p.armed
     && Accepted(ep, total, max, Received(ep, total, max, p, sizes[0]), sizes[1..]))
  }

  function Sum(sizes: seq<nat>): nat {
    if sizes == [] then 0 else sizes[0] + Sum(sizes[1..])
  }

  /** One packet stays inside the buffer, and the count at most the total, exactly if it is no more than is left. */
  lemma InsideIff(ep: nat, total: half, max: nat, p: Progress, n: nat)
    requires p.queued <= total && n <= MAX_COUNT && p.queued + n < 0x1_0000
    ensures Received(ep, total, max, p, n).queued <= total <==> n <= total - p.queued
  {
  }

  /** The buffer of a transfer is safe from every host exactly if this holds: its last packet fills whole blocks. */
  predicate WholeBlocks(ep: nat, total: half, max: nat)
    requires max > 0
  {
    if ep == 0 && total > max then total % max == 0 else InWholeBlocks(total % max)
  }

  /** What holds of an open transfer whose packets were all full. */
  ghost predicate OnTrack(ep: nat, total: half, max: nat, p: Progress)
    requires max > 0
  {
    && p.queued <= total && (total - p.queued) % max == total % max
    && (p.queued == total ==> total == 0)
    && p.armed == if ep == 0 && p.queued > 0 then Armed(EP0_SIZE) else Armed(UpTo(total - p.queued, max))
  }

  /**
   * The controller can be armed exactly for a packet of this size; that of
   * endpoint 0 is the one it is always armed for.
   */
  predicate PacketSize(ep: nat, max: nat) {
    0 < max && InWholeBlocks(max) && (ep == 0 ==> max == EP0_SIZE)
  }

  /** One accepted packet: it fits if the total is in whole blocks, and after a full one the transfer is on track. */
  lemma OnTrackStep(ep: nat, total: half, max: nat, p: Progress, n: nat)
    requires PacketSize(ep, max) && p.open && OnTrack(ep, total, max, p) && n <= max && n <= p.armed
    ensures WholeBlocks(ep, total, max) ==> n <= total - p.queued
    ensures n <= total - p.queued && Received(ep, total, max, p, n).open ==>
              n == max && OnTrack(ep, total, max, Received(ep, total, max, p, n))
    ensures n <= total - p.queued ==> Received(ep, total, max, p, n).queued == p.queued + n
  {
    hide Armed;
    ArmedExactlyIff(max);
    ArmedExactlyIff(total % max);
    OneShortPacket(total, max, p.queued);
    var left := total - p.queued;
    if left < max {
      SmallMod(left, max);
    } else {
      ModStep(left, max);
    }
  }

  lemma OneShortPacket(total: nat, max: nat, queued: nat)
    requires max > 0 && queued <= total
    ensures 0 < queued && total <= max && (total - queued) % max == total % max ==> queued == total == max
  {
    if 0 < queued && total <= max {
      SmallMod(total - queued, max);
      if total < max {
        SmallMod(total, max);
      }
    }
  }

  lemma {:induction false} NeverPastTheEnd(ep: nat, total: half, max: nat, p: Progress, sizes: seq<nat>)
    requires PacketSize(ep, max) && WholeBlocks(ep, total, max)
    requires p.open && OnTrack(ep, total, max, p) && Accepted(ep, total, max, p, sizes)
    ensures Sum(sizes) <= total - p.queued
    decreases |sizes|
  {
    assert max > 0;
    hide Armed, OnTrack, WholeBlocks, PacketSize, Received;
    if sizes != [] {
      OnTrackStep(ep, total, max, p, sizes[0]);
      var next := Received(ep, total, max, p, sizes[0]);
      if sizes[1..] != [] {
        NeverPastTheEnd(ep, total, max, next, sizes[1..]);
      }
    }
  }

  /** Armed for more than is left, the controller lets the packet in that goes past the end. */
  lemma LastPacketTooLong(ep: nat, total: half, max: nat, p: Progress) returns (n: nat)
    requires PacketSize(ep, max) && !WholeBlocks(ep, total, max)
    requires p.open && OnTrack(ep, total, max, p) && total - p.queued < max
    ensures n <= max && n <= p.armed && n > total - p.queued
  {
    hide Armed;
    var left := total - p.queued;
    SmallMod(left, max);
    ArmedExactlyIff(left);
    ArmedExactlyIff(max);
    n := if p.armed < max then p.armed else max;
  }

  lemma MoreIsLeft(ep: nat, total: half, max: nat, left: nat)
    requires PacketSize(ep, max) && !WholeBlocks(ep, total, max) && left >= max && left % max == total % max
    ensures left > max
  {
    if left == max {
      Quotient(left, max, 1, 0);
    }
  }

  /** There is more to come after a full packet. */
  lemma FullPacketFirst(ep: nat, total: half, max: nat, p: Progress)
    requires PacketSize(ep, max) && !WholeBlocks(ep, total, max)
    requires p.open && OnTrack(ep, total, max, p) && total - p.queued >= max
    ensures max <= p.armed
    ensures Received(ep, total, max, p, max).open && Received(ep, total, max, p, max).queued == p.queued + max
    ensures OnTrack(ep, total, max, Received(ep, total, max, p, max))
  {
    hide Armed, WholeBlocks;
    var left := total - p.queued;
    ArmedExactlyIff(max);
    MoreIsLeft(ep, total, max, left);
    ModStep(left, max);
    assert left - max == total - (p.queued + max);
  }

  lemma OneMore(ep: nat, total: half, max: nat, p: Progress, n: nat, rest: seq<nat>)
    requires p.open && n <= max && n <= p.armed && Accepted(ep, total, max, Received(ep, total, max, p, n), rest)
    ensures Accepted(ep, total, max, p, [n] + rest) && Sum([n] + rest) == n + Sum(rest)
  {
    assert ([n] + rest)[1..] == rest;
  }

  /** A host that goes past the end of a buffer whose last packet does not fill whole blocks. */
  lemma {:induction false} GoesPastTheEnd(ep: nat, total: half, max: nat, p: Progress) returns (sizes: seq<nat>)
    requires PacketSize(ep, max) && !WholeBlocks(ep, total, max)
    requires p.open && OnTrack(ep, total, max, p)
    ensures Accepted(ep, total, max, p, sizes) && Sum(sizes) > total - p.queued
    decreases total - p.queued
  {
    assert max > 0;
    if total - p.queued < max {
      var n := LastPacketTooLong(ep, total, max, p);
      OneMore(ep, total, max, p, n, []);
      sizes := [n] + [];
    } else {
      FullPacketFirst(ep, total, max, p);
      hide Received, OnTrack, Accepted, WholeBlocks, Sum, PacketSize;
      var rest := GoesPastTheEnd(ep, total, max, Received(ep, total, max, p, max));
      OneMore(ep, total, max, p, max, rest);
      sizes := [max] + rest;
    }
  }

  /** No host whatever can make the driver store behind the buffer exactly if the total is in whole blocks. */
  lemma SafeFromEveryHostIff(ep: nat, total: half, max: nat)
    requires PacketSize(ep, max)
    ensures WholeBlocks(ep, total, max) <==>
            forall sizes :: Accepted(ep, total, max, Opened(total, max), sizes) ==> Sum(sizes) <= total
  {
    var p := Opened(total, max);
    if WholeBlocks(ep, total, max) {
      forall sizes | Accepted(ep, total, max, p, sizes) ensures Sum(sizes) <= total {
        NeverPastTheEnd(ep, total, max, p, sizes);
      }
    } else {
      var sizes := GoesPastTheEnd(ep, total, max, p);
    }
  }

  /** The controller always lets in what the driver expects next. */
  lemma ArmedForTheNext(ep: nat, total: half, max: nat, p: Progress)
    requires PacketSize(ep, max) && OnTrack(ep, total, max, p)
    ensures UpTo(total - p.queued, max) <= p.armed
  {
    hide Armed;
    ArmedExactlyIff(UpTo(total - p.queued, max));
    ArmedExactlyIff(max);
  }

  /** A host that sends data cut into packets gets all of them accepted, and the last one completes the transfer. */
  lemma {:induction false} WholeTransfer(ep: nat, total: half, max: nat, p: Progress, data: seq<byte>)
    requires PacketSize(ep, max) && p.open && OnTrack(ep, total, max, p) && |data| == total - p.queued
    ensures var sizes := Sizes(PacketsOf(data, max));
      && Accepted(ep, total, max, p, sizes) && Taken(ep, total, max, p, sizes) == |sizes|
      && ReceivedAll(ep, total, max, p, sizes).queued == total && !ReceivedAll(ep, total, max, p, sizes).open
    decreases |data|
  {
    ArmedForTheNext(ep, total, max, p);
    OnTrackStep(ep, total, max, p, UpTo(|data|, max));
    hide OnTrack, PacketSize, Armed;
    var packets := PacketsOf(data, max);
    assert packets[0..] == packets;
    SizesStep(packets, 0);
    if |data| <= max {
      assert packets[1..] == [];
    } else {
      var next := Received(ep, total, max, p, max);
      assert next.open;
      assert packets[1..] == PacketsOf(data[max..], max);
      WholeTransfer(ep, total, max, next, data[max..]);
    }
  }

  /** A buffer of 7 bytes takes a packet of 8 and reports it; on endpoint 0 one of 100 takes 128 and waits for more. */
  lemma SevenBecomeEight()
    ensures Armed(7) == 8 && Received(1, 7, 64, Opened(7, 64), 8) == Progress(8, 8, false)
    ensures Received(0, 100, 64, Received(0, 100, 64, Opened(100, 64), 64), 64) == Progress(128, 64, true)
  {
    ArmedInBlocks(7);
    ArmedInBlocks(64);
    hide Armed;
  }

  /** One endpoint with its transfer descriptor, its buffer in memory and its place in packet memory. */
  class Endpoint {
    const ep: nat
    const device: UsbDevice
    const mem: array<byte>
    const maxPacketSize: nat
    const txAdr: nat
    const rxAdr: nat
    var buffer: nat
    var totalLen: half
    var queuedLen: half
    /** The transmit side: how many bytes the packet in packet memory has, and whether the host may fetch it. */
    var txSize: nat
    var txValid: bool
    /** The receive side: how many bytes it is armed for, and whether the host may send. */
    var rxSize: nat
    var rxValid: bool

    /** Packets the host has fetched or sent in this transfer, and the completions reported with their lengths. */
    ghost var packets: seq<seq<byte>>
    ghost var completions: seq<nat>

    ghost predicate Valid()
      reads this
    {
      && 0 < maxPacketSize
      && txAdr % 2 == 0 && txAdr + maxPacketSize < device.ram.Length
      && rxAdr % 2 == 0 && rxAdr + MAX_COUNT < device.ram.Length
      // there is memory as far behind the buffer as a 16-bit count and one more packet reach
      && buffer + 0x1_0000 + MAX_COUNT <= mem.Length
    }

    ghost function Data(): (d: seq<byte>)
      requires Valid()
      reads this, mem
      ensures |d| == totalLen
    {
      mem[buffer..buffer + totalLen]
    }

    constructor (e: nat, d: UsbDevice, m: array<byte>, max: nat, tx: nat, rx: nat)
      requires 0 < max && m.Length >= 0x1_0000 + MAX_COUNT
      requires tx % 2 == 0 && tx + max < d.ram.Length && rx % 2 == 0 && rx + MAX_COUNT < d.ram.Length
      ensures Valid() && ep == e && device == d && mem == m && maxPacketSize == max
      ensures completions == [] && packets == [] && !txValid && !rxValid
      ensures buffer == totalLen == queuedLen == txSize == rxSize == 0
    {
      ep := e;
      device, mem, maxPacketSize, txAdr, rxAdr := d, m, max, tx, rx;
      buffer, totalLen, queuedLen, txSize, rxSize := 0, 0, 0, 0, 0;
      txValid, rxValid := false, false;
      packets, completions := [], [];
    }

    // ---------- to the host ----------

    /**
     * A transfer to the host is under way: what has been fetched and what waits in packet memory is what was queued.
     */
    ghost predicate Sending()
      reads this, mem, device, device.ram
    {
      && Valid() && queuedLen <= totalLen && txValid && txSize <= maxPacketSize && txSize <= queuedLen
      && Flat(packets) == Data()[..queuedLen - txSize]
      && Packet(device.ram[..], txAdr, txSize) == Data()[queuedLen - txSize..queuedLen]
      && (queuedLen < totalLen ==> txSize == maxPacketSize)
    }

    /** Puts the next packet, at most `max_packet_size` bytes, into packet memory and lets the host fetch it. */
    method TransmitPacket()
      requires Valid() && queuedLen <= totalLen && Flat(packets) == Data()[..queuedLen]
      modifies this`queuedLen, this`txSize, this`txValid, device.ram
      ensures Sending()
      ensures txSize == Min(totalLen - old(queuedLen), maxPacketSize) && queuedLen == old(queuedLen) + txSize
    {
      var len := totalLen - queuedLen;
      if len > maxPacketSize {
        len := maxPacketSize;
      }
      hide Packet, Flat, Elsewhere;
      device.CopyToSRAM(txAdr, mem, buffer + queuedLen, len);
      SubSlice(mem[..], buffer, totalLen, queuedLen, len);
      queuedLen := queuedLen + len;
      txSize := len;
      txValid := true;
    }

    /** `dcd_edpt_xfer` towards the host. */
    method StartIn(at: nat, total: half)
      requires Valid() && at + 0x1_0000 + MAX_COUNT <= mem.Length
      modifies this, device.ram
      ensures Sending() && buffer == at && totalLen == total && packets == [] && completions == old(completions)
      ensures queuedLen == txSize == Min(total, maxPacketSize)
    {
      buffer, totalLen, queuedLen := at, total, 0;
      packets := [];
      TransmitPacket();
    }

    /** The host fetches the packet, and the transmit interrupt goes on with the next one or reports completion. */
    method HostFetches()
      requires Sending()
      modifies this, device.ram
      ensures Valid() && buffer == old(buffer) && totalLen == old(totalLen)
      ensures packets == old(packets) + [old(Data())[old(queuedLen) - old(txSize)..old(queuedLen)]]
      ensures if old(queuedLen) == totalLen
              then completions == old(completions) + [totalLen] && !txValid && Flat(packets) == Data()
                && queuedLen == old(queuedLen)
              else completions == old(completions) && Sending() && txSize == queuedLen - old(queuedLen) &&
                   queuedLen == Min(totalLen, old(queuedLen) + maxPacketSize)
    {
      hide Flat, Packet;
      ghost var packet := Packet(device.ram[..], txAdr, txSize);
      FlatAppend(packets, packet);
      packets := packets + [packet];
      txValid := false;
      assert Flat(packets) == Data()[..queuedLen];
      if totalLen != queuedLen {
        TransmitPacket();
      } else {
        assert Data()[..queuedLen] == Data();
        completions := completions + [totalLen];
      }
    }

    /** What has been fetched, and what is still to be split into packets, make up the packets of the data. */
    ghost predicate OnTheWay(data: seq<byte>)
      reads this, mem, device, device.ram
    {
      && Sending() && Data() == data
      && txSize == Min(totalLen - (queuedLen - txSize), maxPacketSize)
      && packets + PacketsOf(data[queuedLen - txSize..], maxPacketSize) == PacketsOf(data, maxPacketSize)
    }

    /** One more packet fetched, and what follows it. */
    method FetchNext(ghost data: seq<byte>)
      requires OnTheWay(data)
      modifies this, device.ram
      ensures Valid() && buffer == old(buffer) && totalLen == old(totalLen) && queuedLen >= old(queuedLen)
      ensures txValid ==> OnTheWay(data) && completions == old(completions) && queuedLen > old(queuedLen)
      ensures !txValid ==> packets == PacketsOf(data, maxPacketSize) && completions == old(completions) + [totalLen]
    {
      hide Flat, Packet, PacketsOf;
      ghost var mark := queuedLen;
      PacketsStep(data, queuedLen - txSize, maxPacketSize);
      ghost var sent, next := packets, data[queuedLen - txSize..queuedLen];
      HostFetches();
      if mark < totalLen {
        Regroup(sent, next, PacketsOf(data[mark..], maxPacketSize));
      }
    }

    /**
     * A whole transfer to the host: the packets are those of the data, and there is exactly one completion, at the end.
     */
    method SendAll(at: nat, total: half)
      requires Valid() && at + 0x1_0000 + MAX_COUNT <= mem.Length
      modifies this, device.ram
      ensures Valid() && !txValid
      ensures completions == old(completions) + [total]
      ensures packets == PacketsOf(mem[at..at + total], maxPacketSize)
    {
      hide Flat, Packet, PacketsOf, Sending;
      StartIn(at, total);
      ghost var data := Data();
      assert data[0..] == data;
      assert OnTheWay(data) by {
        assert packets + PacketsOf(data[0..], maxPacketSize) == PacketsOf(data, maxPacketSize);
      }
      hide OnTheWay;
      while txValid
        invariant Valid() && buffer == at && totalLen == total
        invariant txValid ==> OnTheWay(data) && completions == old(completions)
        invariant !txValid ==> packets == PacketsOf(data, maxPacketSize) && completions == old(completions) + [total]
        decreases txValid, totalLen - queuedLen
      {
        FetchNext(data);
      }
    }

    // ---------- from the host ----------

    ghost function RxProgress(): Progress
      reads this
    {
      Progress(queuedLen, rxSize, rxValid)
    }

    /** `dcd_edpt_xfer` from the host. */
    method StartOut(at: nat, total: half)
      requires Valid() && at + 0x1_0000 + MAX_COUNT <= mem.Length
      modifies this
      ensures Valid() && buffer == at && totalLen == total && packets == [] && completions == old(completions)
      ensures RxProgress() == Opened(total, maxPacketSize)
    {
      buffer, totalLen, queuedLen := at, total, 0;
      packets := [];
      var sz: int := total;
      if sz > maxPacketSize {
        sz := maxPacketSize;
      }
      rxSize := Armed(sz);
      rxValid := true;
    }

    /**
     * A packet of any size arrives in packet memory, and the receive handler stores it behind the others. It never
     * compares the size with what is left; a short packet or a count equal to the total completes the transfer.
     */
    method HostSends(packet: seq<byte>)
      requires Valid() && rxValid && |packet| <= MAX_COUNT
      modifies this`packets, this`completions, this`queuedLen, this`rxSize, this`rxValid, mem, device.ram
      ensures Valid() && packets == old(packets) + [packet]
      ensures RxProgress() == Received(ep, totalLen, maxPacketSize, old(RxProgress()), |packet|)
      ensures completions == old(completions) + if rxValid then [] else [queuedLen as nat]
      ensures mem[buffer + old(queuedLen)..buffer + old(queuedLen) + |packet|] == packet
      ensures OnlyAt(old(mem[..]), mem[..], buffer + old(queuedLen), |packet|)
    {
      device.Arrives(rxAdr, packet);
      rxValid := false;
      packets := packets + [packet];
      Handle(|packet|);
    }

    /** The receive handler. */
    method Handle(count: nat)
      requires Valid() && !rxValid && count <= MAX_COUNT
      modifies this`completions, this`queuedLen, this`rxSize, this`rxValid, mem
      ensures RxProgress() ==
              Received(ep, totalLen, maxPacketSize, Progress(old(queuedLen), old(rxSize), true), count)
      ensures completions == old(completions) + if rxValid then [] else [queuedLen as nat]
      ensures mem[buffer + old(queuedLen)..buffer + old(queuedLen) + count] == Packet(device.ram[..], rxAdr, count)
      ensures OnlyAt(old(mem[..]), mem[..], buffer + old(queuedLen), count)
    {
      hide Armed, Packet, OnlyAt;
      if count != 0 {
        device.CopyFromSRAM(mem, buffer + queuedLen, rxAdr, count);
        queuedLen := (queuedLen + count) % 0x1_0000;
      } else {
        NoBytes(mem[..], buffer + queuedLen, device.ram[..], rxAdr);
      }
      if count < maxPacketSize || queuedLen == totalLen {
        completions := completions + [queuedLen];
      } else {
        var sz := totalLen - queuedLen;
        if sz > maxPacketSize {
          sz := maxPacketSize;
        }
        rxSize := Armed(sz);
        rxValid := true;
      }
      if ep == 0 {
        rxSize := Armed(EP0_SIZE);
      }
    }

    /** The bytes of the packets so far lie at the start of the buffer, and nothing else has changed. */
    ghost predicate Stored(before: seq<byte>)
      requires Valid()
      reads this, mem
    {
      var bytes := Flat(packets);
      && |before| == mem.Length
      && (|bytes| < 0x1_0000 ==>
        && queuedLen == |bytes|
        && mem[buffer..buffer + |bytes|] == bytes
        && OnlyAt(before, mem[..], buffer, |bytes|))
    }

    /** One packet of many. */
    method ReceiveNext(packet: seq<byte>, ghost before: seq<byte>)
      requires Valid() && rxValid && |packet| <= MAX_COUNT && Stored(before)
      modifies this`packets, this`completions, this`queuedLen, this`rxSize, this`rxValid, mem, device.ram
      ensures Valid() && packets == old(packets) + [packet] && Stored(before)
      ensures RxProgress() == Received(ep, totalLen, maxPacketSize, old(RxProgress()), |packet|)
      ensures completions == old(completions) + if rxValid then [] else [queuedLen as nat]
    {
      hide Flat, Armed, OnlyAt;
      ghost var bytes, middle := Flat(packets), mem[..];
      FlatAppend(packets, packet);
      HostSends(packet);
      if |bytes| + |packet| < 0x1_0000 {
        StoredNext(before, middle, mem[..], buffer, bytes, packet);
      }
    }

    /**
     * A whole transfer from the host, for any packets: it takes them up to the one that completes it, with exactly one
     * completion, and stores their bytes end to end from the start of the buffer and nothing anywhere else.
     */
    method ReceiveAll(at: nat, total: half, incoming: seq<seq<byte>>) returns (n: nat)
      requires Valid() && at + 0x1_0000 + MAX_COUNT <= mem.Length
      requires forall i :: 0 <= i < |incoming| ==> |incoming[i]| <= MAX_COUNT
      modifies this, mem, device.ram
      ensures Valid() && buffer == at && totalLen == total
      ensures n == Taken(ep, total, maxPacketSize, Opened(total, maxPacketSize), Sizes(incoming))
      ensures packets == incoming[..n]
      ensures RxProgress() == ReceivedAll(ep, total, maxPacketSize, Opened(total, maxPacketSize), Sizes(incoming))
      ensures completions == old(completions) + if rxValid then [] else [queuedLen as nat]
      ensures Stored(old(mem[..]))
    {
      StartOut(at, total);
      n := 0;
      assert Flat([]) == [];
      hide Flat, Armed;
      assert incoming[0..] == incoming;
      ghost var result := ReceivedAll(ep, total, maxPacketSize, RxProgress(), Sizes(incoming));
      ghost var taken := Taken(ep, total, maxPacketSize, RxProgress(), Sizes(incoming));
      while rxValid && n < |incoming|
        invariant Valid() && buffer == at && totalLen == total
        invariant n <= |incoming| && packets == incoming[..n]
        invariant completions == old(completions) + if rxValid then [] else [queuedLen as nat]
        invariant ReceivedAll(ep, total, maxPacketSize, RxProgress(), Sizes(incoming[n..])) == result
        invariant n + Taken(ep, total, maxPacketSize, RxProgress(), Sizes(incoming[n..])) == taken
        invariant Stored(old(mem[..]))
      {
        SizesStep(incoming, n);
        ReceiveNext(incoming[n], old(mem[..]));
        n := n + 1;
      }
    }

    /** What one side sends as a transfer the other receives: the data, in one completion. */
    method ReceiveData(at: nat, data: seq<byte>)
      requires Valid() && at + 0x1_0000 + MAX_COUNT <= mem.Length
      requires PacketSize(ep, maxPacketSize) && |data| < 0x1_0000
      modifies this, mem, device.ram
      ensures mem[at..at + |data|] == data && OnlyAt(old(mem[..]), mem[..], at, |data|)
      ensures !rxValid && completions == old(completions) + [|data|]
    {
      PacketsAreTheData(data, maxPacketSize);
      hide Armed, Flat;
      WholeTransfer(ep, |data|, maxPacketSize, Opened(|data|, maxPacketSize), data);
      var incoming := PacketsOf(data, maxPacketSize);
      assert forall i :: 0 <= i < |incoming| ==> |incoming[i]| <= MAX_COUNT;
      hide PacketSize, PacketsOf, ReceivedAll, Accepted, Taken, OnlyAt;
      var n := ReceiveAll(at, |data|, incoming);
      assert incoming[..n] == incoming;
    }
  }

  function Sizes(packets: seq<seq<byte>>): (r: seq<nat>)
    ensures |r| == |packets|
  {
    seq(|packets|, i requires 0 <= i < |packets| => |packets[i]|)
  }

  lemma SizesStep(packets: seq<seq<byte>>, n: nat)
    requires n < |packets|
    ensures packets[..n + 1] == packets[..n] + [packets[n]]
    ensures Sizes(packets[n..])[0] == |packets[n]| && Sizes(packets[n..])[1..] == Sizes(packets[n + 1..])
  {
  }

  lemma NoBytes(m: seq<byte>, at: nat, ram: seq<half>, off: nat)
    requires at <= |m| && off < |ram|
    ensures m[at..at] == Packet(ram, off, 0) && OnlyAt(m, m, at, 0)
  {
  }

  lemma StoredNext(before: seq<byte>, middle: seq<byte>, after: seq<byte>, at: nat, bytes: seq<byte>, packet: seq<byte>)
    requires |before| == |middle| == |after| && at + |bytes| + |packet| <= |after|
    requires OnlyAt(before, middle, at, |bytes|) && middle[at..at + |bytes|] == bytes
    requires OnlyAt(middle, after, at + |bytes|, |packet|)
    requires after[at + |bytes|..at + |bytes| + |packet|] == packet
    ensures OnlyAt(before, after, at, |bytes + packet|) && after[at..at + |bytes + packet|] == bytes + packet
  {
    forall i | 0 <= i < |bytes| ensures after[at + i] == bytes[i] {
      assert middle[at..at + |bytes|][i] == bytes[i];
    }
    forall i | 0 <= i < |packet| ensures after[at + |bytes| + i] == packet[i] {
      assert after[at + |bytes|..at + |bytes| + |packet|][i] == packet[i];
    }
    var all := after[at..at + |bytes + packet|];
    forall i | 0 <= i < |bytes + packet| ensures all[i] == (bytes + packet)[i] {
      assert all[i] == after[at + i];
      if i >= |bytes| {
        assert after[at + |bytes| + (i - |bytes|)] == packet[i - |bytes|];
      }
    }
  }
}
