/**
 * The packet memory of the USB device: sixteen bits used of every thirty-two, and the unrolled copies in and out of it.
 */
module UsbPma {
  import opened Common

  /** Byte `i` of a packet whose first half-word is at index `off`: the half-words lie two apart. */
  function PacketByte(ram: seq<half>, off: nat, i: nat): byte
    requires off + 2 * (i / 2) < |ram|
  {
    if i % 2 == 0 then ram[off + 2 * (i / 2)] % 256 else ram[off + 2 * (i / 2)] / 256
  }

  /** The packet of `n` bytes at `off`. */
  function Packet(ram: seq<half>, off: nat, n: nat): (p: seq<byte>)
    requires off + n < |ram|
    ensures |p| == n
  {
    seq(n, i requires 0 <= i < n => PacketByte(ram, off, i))
  }

  function Pair(lo: byte, hi: byte): half {
    lo + 256 * hi as int
  }

  /** Half-word `k` of the packet at `off` is that of the bytes from `src` on. */
  ghost predicate HalfHeld(ram: seq<half>, off: nat, mem: seq<byte>, src: nat, k: nat) {
    && off + 2 * k < |ram| && src + 2 * k + 1 < |mem|
    && ram[off + 2 * k] == Pair(mem[src + 2 * k], mem[src + 2 * k + 1])
  }

  /** The first `n` half-words are in place. */
  ghost predicate Holds(ram: seq<half>, off: nat, mem: seq<byte>, src: nat, n: nat) {
    forall k: nat :: k < n ==> HalfHeld(ram, off, mem, src, k)
  }

  /** Half-words of the packet memory other than those `n` are as before. */
  ghost predicate Elsewhere(before: seq<half>, after: seq<half>, off: nat, n: nat) {
    && |after| == |before|
    && forall j :: 0 <= j < |after| && !(off <= j < off + 2 * n && (j - off) % 2 == 0) ==> after[j] == before[j]
  }

  lemma HeldPacket(ram: seq<half>, off: nat, mem: seq<byte>, src: nat, bytes: nat)
    requires Holds(ram, off, mem, src, (bytes + 1) / 2) && off + bytes < |ram| && src + bytes <= |mem|
    ensures Packet(ram, off, bytes) == mem[src..src + bytes]
  {
    forall i | 0 <= i < bytes ensures PacketByte(ram, off, i) == mem[src + i] {
      var k := i / 2;
      assert HalfHeld(ram, off, mem, src, k);
      assert i == 2 * k || i == 2 * k + 1;
    }
  }

  /** The same on numbers: the low byte first, a half-word in every second place, and nothing else touched. */
  lemma HeldByNumber(before: seq<half>, ram: seq<half>, off: nat, mem: seq<byte>, src: nat, bytes: nat)
    requires Holds(ram, off, mem, src, (bytes + 1) / 2) && Elsewhere(before, ram, off, (bytes + 1) / 2)
    requires off % 2 == 0 && off + bytes < |ram| && src + 2 * ((bytes + 1) / 2) <= |mem|
    ensures |ram| == |before|
    ensures forall j :: 0 <= j < |ram| ==>
      ram[j] == if off <= j < off + bytes && j % 2 == 0
                then mem[src + (j - off)] + 256 * mem[src + (j - off) + 1] as int else before[j]
  {
    forall j | off <= j < off + bytes && j % 2 == 0
      ensures ram[j] == mem[src + (j - off)] + 256 * mem[src + (j - off) + 1] as int
    {
      assert HalfHeld(ram, off, mem, src, (j - off) / 2);
    }
  }

  lemma LoadedByNumber(before: seq<byte>, mem: seq<byte>, dest: nat, ram: seq<half>, off: nat, bytes: nat)
    requires off + bytes < |ram| && dest + bytes <= |mem| && OnlyAt(before, mem, dest, bytes)
    requires mem[dest..dest + bytes] == Packet(ram, off, bytes)
    ensures |mem| == |before|
    ensures forall j :: 0 <= j < |mem| ==>
      mem[j] == if !(dest <= j < dest + bytes) then before[j]
                else if (j - dest) % 2 == 0 then ram[off + (j - dest)] % 256
                else ram[off + (j - dest) - 1] / 256
  {
    forall j | dest <= j < dest + bytes
      ensures mem[j] == if (j - dest) % 2 == 0 then ram[off + (j - dest)] % 256 else ram[off + (j - dest) - 1] / 256
    {
      assert mem[j] == mem[dest..dest + bytes][j - dest];
      assert mem[j] == PacketByte(ram, off, j - dest);
    }
  }

  /** One half-word more. */
  lemma HoldsNext(before: seq<half>, after: seq<half>, ram0: seq<half>, off: nat, mem: seq<byte>, src: nat, k: nat)
    requires Holds(before, off, mem, src, k) && Elsewhere(ram0, before, off, k)
    requires off + 2 * k < |before| && src + 2 * k + 1 < |mem|
    requires after == before[off + 2 * k := Pair(mem[src + 2 * k], mem[src + 2 * k + 1])]
    ensures Holds(after, off, mem, src, k + 1) && Elsewhere(ram0, after, off, k + 1)
  {
    forall j: nat | j < k + 1 ensures HalfHeld(after, off, mem, src, j) {
      if j < k {
        assert HalfHeld(before, off, mem, src, j);
      }
    }
  }

  class UsbDevice {
    const ram: array<half>

    constructor (size: nat)
      ensures fresh(ram) && ram.Length == size
    {
      ram := new half[size];
    }

    /** The peripheral stores a packet that comes in. */
    method Arrives(off: nat, packet: seq<byte>)
      requires off + |packet| < ram.Length
      modifies ram
      ensures Packet(ram[..], off, |packet|) == packet
      ensures Elsewhere(old(ram[..]), ram[..], off, (|packet| + 1) / 2)
      ensures forall j :: off <= j < off + |packet| && (j - off) % 2 == 0 ==>
        ram[j] == packet[j - off] + 256 * (if j - off + 1 < |packet| then packet[j - off + 1] as int else 0)
    {
      hide Packet, Elsewhere, Arriving;
      ghost var before := ram[..];
      forall j | off <= j < off + |packet| && (j - off) % 2 == 0 {
        ram[j] := Arriving(packet, j - off);
      }
      ArrivedPacket(before, ram[..], off, packet);
    }

    /** Stores one more half-word. */
    method StoreNext(off: nat, mem: array<byte>, src: nat, k: nat, ghost ram0: seq<half>)
      requires Holds(ram[..], off, mem[..], src, k) && Elsewhere(ram0, ram[..], off, k)
      requires off + 2 * k < ram.Length && src + 2 * k + 1 < mem.Length
      modifies ram
      ensures Holds(ram[..], off, mem[..], src, k + 1) && Elsewhere(ram0, ram[..], off, k + 1)
    {
      ghost var before := ram[..];
      ram[off + 2 * k] := Pair(mem[src + 2 * k], mem[src + 2 * k + 1]);
      HoldsNext(before, ram[..], ram0, off, mem[..], src, k);
    }

    /**
     * Copies bytes into the packet memory, half-word by half-word, eight at a time where the source is aligned. The
     * last half-word takes one byte more than asked for when the count is odd.
     */
    method CopyToSRAM(destOffset: nat, mem: array<byte>, src: nat, bytes: nat)
      requires destOffset % 2 == 0 && destOffset + bytes < ram.Length
      requires src + 2 * ((bytes + 1) / 2) <= mem.Length
      modifies ram
      ensures Packet(ram[..], destOffset, bytes) == mem[src..src + bytes]
      ensures Elsewhere(old(ram[..]), ram[..], destOffset, (bytes + 1) / 2)
      ensures forall j :: 0 <= j < ram.Length ==>
        ram[j] == if destOffset <= j < destOffset + bytes && j % 2 == 0
                  then mem[src + (j - destOffset)] + 256 * mem[src + (j - destOffset) + 1] as int
                  else old(ram[j])
    {
      hide Holds, Elsewhere, Packet;
      var nbWords := (bytes + 1) / 2;
      ghost var ram0 := ram[..];
      NothingHeld(ram0, destOffset, mem[..], src);
      var i := 0;
      if src % 2 == 1 {
        while i < nbWords
          invariant 0 <= i <= nbWords
          invariant Holds(ram[..], destOffset, mem[..], src, i) && Elsewhere(ram0, ram[..], destOffset, i)
        {
          StoreNext(destOffset, mem, src, i, ram0);
          i := i + 1;
        }
      } else {
        var pack8 := nbWords / 8;
        while i < pack8
          invariant 0 <= i <= pack8
          invariant Holds(ram[..], destOffset, mem[..], src, 8 * i) && Elsewhere(ram0, ram[..], destOffset, 8 * i)
        {
          StoreEight(destOffset, mem, src, 8 * i, ram0);
          i := i + 1;
        }
        var l := nbWords % 8;
        var j := 0;
        while j < l
          invariant 0 <= j <= l
          invariant Holds(ram[..], destOffset, mem[..], src, 8 * pack8 + j)
                    && Elsewhere(ram0, ram[..], destOffset, 8 * pack8 + j)
        {
          StoreNext(destOffset, mem, src, 8 * pack8 + j, ram0);
          j := j + 1;
        }
      }
      HeldPacket(ram[..], destOffset, mem[..], src, bytes);
      HeldByNumber(ram0, ram[..], destOffset, mem[..], src, bytes);
    }

    /** The unrolled body of the copy loop, which reads half-words from memory: at even addresses only. */
    method StoreEight(off: nat, mem: array<byte>, src: nat, k: nat, ghost ram0: seq<half>)
      requires src % 2 == 0
      requires Holds(ram[..], off, mem[..], src, k) && Elsewhere(ram0, ram[..], off, k)
      requires off + 2 * k + 14 < ram.Length && src + 2 * k + 15 < mem.Length
      modifies ram
      ensures Holds(ram[..], off, mem[..], src, k + 8) && Elsewhere(ram0, ram[..], off, k + 8)
    {
      hide Holds, Elsewhere;
      StoreNext(off, mem, src, k, ram0);
      StoreNext(off, mem, src, k + 1, ram0);
      StoreNext(off, mem, src, k + 2, ram0);
      StoreNext(off, mem, src, k + 3, ram0);
      StoreNext(off, mem, src, k + 4, ram0);
      StoreNext(off, mem, src, k + 5, ram0);
      StoreNext(off, mem, src, k + 6, ram0);
      StoreNext(off, mem, src, k + 7, ram0);
    }

    // ---------- out of the packet memory ----------

    /** One more half-word to memory. */
    method LoadNext(off: nat, mem: array<byte>, dest: nat, k: nat, ghost mem0: seq<byte>)
      requires Holds(ram[..], off, mem[..], dest, k) && OnlyAt(mem0, mem[..], dest, 2 * k)
      requires off + 2 * k < ram.Length && dest + 2 * k + 1 < mem.Length
      modifies mem
      ensures Holds(ram[..], off, mem[..], dest, k + 1) && OnlyAt(mem0, mem[..], dest, 2 * (k + 1))
    {
      ghost var before := mem[..];
      var temp := ram[off + 2 * k];
      mem[dest + 2 * k] := temp % 256;
      mem[dest + 2 * k + 1] := temp / 256;
      LoadedNext(ram[..], off, before, mem[..], dest, k);
    }

    /** The same out of it: half-words are written to even addresses only. */
    method LoadEight(off: nat, mem: array<byte>, dest: nat, k: nat, ghost mem0: seq<byte>)
      requires dest % 2 == 0
      requires Holds(ram[..], off, mem[..], dest, k) && OnlyAt(mem0, mem[..], dest, 2 * k)
      requires off + 2 * k + 14 < ram.Length && dest + 2 * k + 15 < mem.Length
      modifies mem
      ensures Holds(ram[..], off, mem[..], dest, k + 8) && OnlyAt(mem0, mem[..], dest, 2 * (k + 8))
    {
      hide Holds, OnlyAt;
      LoadNext(off, mem, dest, k, mem0);
      LoadNext(off, mem, dest, k + 1, mem0);
      LoadNext(off, mem, dest, k + 2, mem0);
      LoadNext(off, mem, dest, k + 3, mem0);
      LoadNext(off, mem, dest, k + 4, mem0);
      LoadNext(off, mem, dest, k + 5, mem0);
      LoadNext(off, mem, dest, k + 6, mem0);
      LoadNext(off, mem, dest, k + 7, mem0);
    }

    /**
     * Copies a packet to memory, eight half-words at a time where the destination is aligned, and exactly its bytes.
     */
    method CopyFromSRAM(mem: array<byte>, dest: nat, srcOffset: nat, bytes: nat)
      requires srcOffset % 2 == 0 && srcOffset + bytes < ram.Length && dest + bytes <= mem.Length
      modifies mem
      ensures mem[dest..dest + bytes] == Packet(ram[..], srcOffset, bytes)
      ensures OnlyAt(old(mem[..]), mem[..], dest, bytes)
      ensures forall j :: 0 <= j < mem.Length ==>
        mem[j] == if !(dest <= j < dest + bytes) then old(mem[j])
                  else if (j - dest) % 2 == 0 then ram[srcOffset + (j - dest)] % 256
                  else ram[srcOffset + (j - dest) - 1] / 256
    {
      hide Holds, OnlyAt, Packet;
      var nbWord := bytes / 2;
      ghost var mem0 := mem[..];
      NothingLoaded(ram[..], srcOffset, mem0, dest);
      var i := 0;
      if dest % 2 == 1 {
        while i < nbWord
          invariant 0 <= i <= nbWord
          invariant Holds(ram[..], srcOffset, mem[..], dest, i) && OnlyAt(mem0, mem[..], dest, 2 * i)
        {
          LoadNext(srcOffset, mem, dest, i, mem0);
          i := i + 1;
        }
      } else {
        var pack4 := nbWord / 8;
        while i < pack4
          invariant 0 <= i <= pack4
          invariant Holds(ram[..], srcOffset, mem[..], dest, 8 * i) && OnlyAt(mem0, mem[..], dest, 2 * (8 * i))
        {
          LoadEight(srcOffset, mem, dest, 8 * i, mem0);
          i := i + 1;
        }
        var l := nbWord % 8;
        var j := 0;
        while j < l
          invariant 0 <= j <= l
          invariant Holds(ram[..], srcOffset, mem[..], dest, 8 * pack4 + j)
                    && OnlyAt(mem0, mem[..], dest, 2 * (8 * pack4 + j))
        {
          LoadNext(srcOffset, mem, dest, 8 * pack4 + j, mem0);
          j := j + 1;
        }
      }
      LastByte(mem, dest, srcOffset, bytes, mem0);
      LoadedByNumber(mem0, mem[..], dest, ram[..], srcOffset, bytes);
    }

    /** The odd byte at the end. */
    method LastByte(mem: array<byte>, dest: nat, off: nat, bytes: nat, ghost mem0: seq<byte>)
      requires off + bytes < ram.Length && dest + bytes <= mem.Length
      requires Holds(ram[..], off, mem[..], dest, bytes / 2) && OnlyAt(mem0, mem[..], dest, 2 * (bytes / 2))
      modifies mem
      ensures mem[dest..dest + bytes] == Packet(ram[..], off, bytes)
      ensures OnlyAt(mem0, mem[..], dest, bytes)
    {
      ghost var before := mem[..];
      if bytes % 2 == 1 {
        mem[dest + bytes - 1] := ram[off + bytes - 1] % 256;
      }
      LoadedPacket(ram[..], off, before, mem[..], dest, bytes);
    }
  }

  /** Memory outside the `n` bytes at `dest` is as before. */
  ghost predicate OnlyAt(before: seq<byte>, after: seq<byte>, dest: nat, n: nat) {
    |after| == |before| && forall j :: 0 <= j < |after| && !(dest <= j < dest + n) ==> after[j] == before[j]
  }

  /** The half-word of an arriving packet that begins with byte `i`. */
  function Arriving(packet: seq<byte>, i: nat): half
    requires i < |packet|
  {
    Pair(packet[i], if i + 1 < |packet| then packet[i + 1] else 0)
  }

  lemma ArrivedPacket(before: seq<half>, ram: seq<half>, off: nat, packet: seq<byte>)
    requires off + |packet| < |ram| == |before|
    requires forall j :: off <= j < off + |packet| && (j - off) % 2 == 0 ==> ram[j] == Arriving(packet, j - off)
    requires forall j :: 0 <= j < |ram| && !(off <= j < off + |packet| && (j - off) % 2 == 0) ==> ram[j] == before[j]
    ensures Packet(ram, off, |packet|) == packet && Elsewhere(before, ram, off, (|packet| + 1) / 2)
    ensures forall j :: off <= j < off + |packet| && (j - off) % 2 == 0 ==>
      ram[j] == packet[j - off] + 256 * (if j - off + 1 < |packet| then packet[j - off + 1] as int else 0)
  {
    forall i | 0 <= i < |packet| ensures PacketByte(ram, off, i) == packet[i] {
      var k := i / 2;
      assert i == 2 * k || i == 2 * k + 1;
      assert ram[off + 2 * k] == Arriving(packet, 2 * k);
    }
  }

  lemma NothingHeld(ram: seq<half>, off: nat, mem: seq<byte>, src: nat)
    ensures Holds(ram, off, mem, src, 0) && Elsewhere(ram, ram, off, 0)
  {
  }

  lemma NothingLoaded(ram: seq<half>, off: nat, mem: seq<byte>, dest: nat)
    ensures Holds(ram, off, mem, dest, 0) && OnlyAt(mem, mem, dest, 0)
  {
  }

  lemma LoadedNext(ram: seq<half>, off: nat, before: seq<byte>, after: seq<byte>, dest: nat, k: nat)
    requires Holds(ram, off, before, dest, k) && off + 2 * k < |ram| && dest + 2 * k + 1 < |before| == |after|
    requires after == before[dest + 2 * k := ram[off + 2 * k] % 256][dest + 2 * k + 1 := ram[off + 2 * k] / 256]
    ensures Holds(ram, off, after, dest, k + 1)
  {
    forall j: nat | j < k + 1 ensures HalfHeld(ram, off, after, dest, j) {
      if j < k {
        assert HalfHeld(ram, off, before, dest, j);
      }
    }
  }

  lemma LoadedPacket(ram: seq<half>, off: nat, before: seq<byte>, after: seq<byte>, dest: nat, bytes: nat)
    requires Holds(ram, off, before, dest, bytes / 2) && off + bytes < |ram| && dest + bytes <= |before| == |after|
    requires forall j :: 0 <= j < |after| && !(bytes % 2 == 1 && j == dest + bytes - 1) ==> after[j] == before[j]
    requires bytes % 2 == 1 ==> after[dest + bytes - 1] == ram[off + bytes - 1] % 256
    ensures after[dest..dest + bytes] == Packet(ram, off, bytes)
  {
    forall i | 0 <= i < bytes ensures PacketByte(ram, off, i) == after[dest + i] {
      var k := i / 2;
      if k < bytes / 2 {
        assert HalfHeld(ram, off, before, dest, k);
        assert i == 2 * k || i == 2 * k + 1;
      } else {
        assert i == bytes - 1 && 2 * k == i;
      }
    }
  }
}
