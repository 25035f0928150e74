/**
 * The debug log channel: one producer, and a probe that may read and advance
 * its offset between any two steps of the producer.
 */
module RttWrite {
  import opened Common
  import opened RingBuffer

  /** How many bytes lie between a read and a write offset. */
  function Distance(n: nat, r: nat, w: nat): nat
    requires r < n && w < n
  {
    if r <= w then w - r else n - r + w
  }

  function Advance(n: nat, o: nat, k: nat): nat
    requires o < n && k <= n
  {
    if o + k < n then o + k else o + k - n
  }

  lemma BetweenLength(b: seq<byte>, r: nat, w: nat)
    requires r < |b| && w < |b|
    ensures |Between(b, r, w)| == Distance(|b|, r, w)
  {
  }

  /** The probe moving on drops the oldest bytes. */
  lemma Dropped(b: seq<byte>, r: nat, w: nat, k: nat)
    requires r < |b| && w < |b| && k <= Distance(|b|, r, w)
    ensures Between(b, Advance(|b|, r, k), w) == Between(b, r, w)[k..]
    ensures Distance(|b|, Advance(|b|, r, k), w) == Distance(|b|, r, w) - k
  {
  }

  /**
   * Storing a byte behind the staged ones, one slot staying free, leaves the published ones alone and stages one more.
   */
  lemma StageOne(before: seq<byte>, r: nat, p: nat, w: nat, x: byte)
    requires r < |before| && p < |before| && w < |before|
    requires Distance(|before|, r, p) <= Distance(|before|, r, w) < |before| - 1
    ensures Between(before[w := x], r, p) == Between(before, r, p)
    ensures Between(before[w := x], r, Advance(|before|, w, 1)) == Between(before, r, w) + [x]
    ensures Distance(|before|, r, Advance(|before|, w, 1)) == Distance(|before|, r, w) + 1
  {
  }

  class Channel {
    const size: nat
    const buffer: array<byte>
    var readOffset: nat
    var writeOffset: nat

    /** What the probe does: how many bytes it would take at each of its turns, as far as there are that many. */
    const plan: nat -> nat
    var turn: nat

    /** Every byte accepted from the producer, and every byte the probe has read. */
    ghost var accepted: seq<byte>
    ghost var consumed: seq<byte>

    ghost predicate Valid()
      reads this, buffer
    {
      && PowerOfTwo(size) && buffer.Length == size && readOffset < size && writeOffset < size
      && accepted == consumed + Unread()
    }

    /** The published bytes the probe has not read. */
    ghost function Unread(): seq<byte>
      requires buffer.Length == size && readOffset < size && writeOffset < size
      reads this, buffer
    {
      Between(buffer[..], readOffset, writeOffset)
    }

    constructor (n: nat, p: nat -> nat)
      requires PowerOfTwo(n)
      ensures Valid() && fresh(buffer) && accepted == [] && consumed == [] && size == n && plan == p && turn == 0
    {
      size := n;
      plan, turn := p, 0;
      buffer := new byte[n];
      readOffset, writeOffset := 0, 0;
      accepted, consumed := [], [];
    }

    /** A turn of the probe: reads some of the published bytes, oldest first, and moves its offset past them. */
    method Probe()
      requires Valid()
      modifies this`readOffset, this`consumed, this`turn
      ensures Valid() && turn == old(turn) + 1
      ensures var k := Min(plan(old(turn)), |old(Unread())|);
        && consumed == old(consumed) + old(Unread())[..k]
        && readOffset == Advance(size, old(readOffset), k)
        && Unread() == old(Unread())[k..]
    {
      hide And, PowerOfTwo;
      var k := Min(plan(turn), Distance(size, readOffset, writeOffset));
      assert |buffer[..]| == size;
      BetweenLength(buffer[..], readOffset, writeOffset);
      Dropped(buffer[..], readOffset, writeOffset, k);
      ghost var unread := Between(buffer[..], readOffset, writeOffset);
      assert |unread| == Distance(size, readOffset, writeOffset);
      consumed := consumed + unread[..k];
      readOffset := Advance(size, readOffset, k);
      turn := turn + 1;
    }

    /** `data` is stored behind the published bytes, up to `w`, but not published. */
    ghost predicate Staged(w: nat, data: seq<byte>)
      reads this, buffer
    {
      && Valid() && w < size
      && Between(buffer[..], readOffset, w) == Unread() + data
    }

    /** The probe does not touch what is staged. */
    method ProbeWhileStaged(ghost w: nat, ghost data: seq<byte>)
      requires Staged(w, data)
      modifies this`readOffset, this`consumed, this`turn
      ensures Staged(w, data) && old(consumed) <= consumed && turn == old(turn) + 1
      ensures |Unread()| <= |old(Unread())|
    {
      BetweenLength(buffer[..], readOffset, writeOffset);
      BetweenLength(buffer[..], readOffset, w);
      ghost var r, unread := readOffset, Unread();
      Probe();
      ghost var k := Distance(size, r, writeOffset) - |Unread()|;
      Dropped(buffer[..], r, w, k);
      assert (unread + data)[k..] == unread[k..] + data;
    }

    /** One byte of a copy. */
    method StageByte(at: nat, x: byte, ghost before: seq<byte>)
      requires Staged(at, before) && |Unread()| + |before| + 1 < size
      modifies buffer
      ensures Staged(Advance(size, at, 1), before + [x])
      ensures Unread() == old(Unread())
    {
      ghost var cells := buffer[..];
      assert |cells| == size;
      BetweenLength(cells, readOffset, writeOffset);
      BetweenLength(cells, readOffset, at);
      StageOne(cells, readOffset, writeOffset, at, x);
      buffer[at] := x;
      assert buffer[..] == cells[at := x];
      hide Between;
    }

    /** `memcpy` of a chunk that does not wrap, with the probe at work. */
    method CopyChunk(w: nat, chunk: seq<byte>, ghost before: seq<byte>) returns (next: nat)
      requires Staged(w, before) && w + |chunk| <= size
      requires |Unread()| + |before| + |chunk| < size
      modifies this`readOffset, this`consumed, this`turn, buffer
      ensures next == Advance(size, w, |chunk|) && turn == old(turn) + |chunk|
      ensures Staged(next, before + chunk) && old(consumed) <= consumed
      ensures |Unread()| <= |old(Unread())|
    {
      hide Between;
      var i := 0;
      assert before + chunk[..0] == before;
      while i < |chunk|
        invariant 0 <= i <= |chunk| && turn == old(turn) + i
        invariant Staged(Advance(size, w, i), before + chunk[..i])
        invariant old(consumed) <= consumed && |Unread()| <= |old(Unread())|
      {
        StageByte(w + i, chunk[i], before + chunk[..i]);
        assert before + chunk[..i + 1] == before + chunk[..i] + [chunk[i]];
        ProbeWhileStaged(Advance(size, w, i + 1), before + chunk[..i + 1]);
        i := i + 1;
      }
      Wrap(w + |chunk|, size);
      next := And(w + |chunk|, size - 1);
      assert chunk[..i] == chunk;
    }

    /**
     * Accepts what fits into the space free when the read offset was looked at, `free`, which is no less than what
     * was free at the call; what is published is never overwritten and the probe reads a prefix of what was accepted.
     */
    method Write(data: seq<byte>) returns (done: nat, ghost free: nat)
      requires Valid()
      modifies this, buffer
      ensures Valid() && old(consumed) <= consumed <= accepted
      ensures free == size - 1 - |old(Unread())| + Min(plan(old(turn)), |old(Unread())|)
      ensures done == Min(|data|, free)
      ensures accepted == old(accepted) + data[..done]
      ensures turn == old(turn) + if free == 0 then 1 else done + 3
    {
      hide Between, And, PowerOfTwo;
      var w := writeOffset;
      var r, totalAvail := LookAtReadOffset(w);
      free := totalAvail;
      if totalAvail == 0 {
        assert data[..0] == [];
        return 0, free;
      }
      var n := Min(|data|, totalAvail);
      Nothing(w, data);
      ProbeWhileStaged(w, data[..0]);
      done, w := Copy(data, n, r);
      ProbeWhileStaged(w, data[..done]);
      Publish(w, data[..done]);
    }

    /** Reads the read offset once, and from it the free space there was at that moment. */
    method LookAtReadOffset(w: nat) returns (r: nat, totalAvail: nat)
      requires Valid() && w == writeOffset
      modifies this`readOffset, this`consumed, this`turn
      ensures Valid() && old(consumed) <= consumed && |Unread()| <= |old(Unread())| && turn == old(turn) + 1
      ensures r < size && |Unread()| == Distance(size, r, w) && totalAvail == size - 1 - |Unread()|
      ensures |Unread()| == |old(Unread())| - Min(plan(old(turn)), |old(Unread())|)
    {
      Probe();
      r := readOffset;
      assert |buffer[..]| == size;
      BetweenLength(buffer[..], readOffset, writeOffset);
      Wrap(r + size - w - 1, size);
      totalAvail := And(r + size - w - 1, size - 1);
    }

    /** Moves the write offset: from here on the probe may read what was staged. */
    method Publish(w: nat, ghost data: seq<byte>)
      requires Staged(w, data)
      modifies this`writeOffset, this`accepted
      ensures Valid() && accepted == old(accepted) + data
    {
      writeOffset := w;
      accepted := accepted + data;
    }

    lemma Nothing(w: nat, data: seq<byte>)
      requires Valid() && w == writeOffset
      ensures Staged(w, data[..0])
    {
    }

    /**
     * The copies to the right and to the left of the wrap, of `n` bytes that fit below the read offset `r` seen before.
     */
    method Copy(data: seq<byte>, n: nat, r: nat) returns (done: nat, w: nat)
      requires Valid() && r < size && n <= |data|
      requires n < size - Distance(size, r, writeOffset) && |Unread()| <= Distance(size, r, writeOffset)
      modifies this`readOffset, this`consumed, this`turn, buffer
      ensures done == n && Staged(w, data[..n]) && old(consumed) <= consumed && turn == old(turn) + n
    {
      hide Between;
      w := writeOffset;
      Nothing(w, data);
      var left := n;
      done := 0;
      if writeOffset >= r {
        var chunk := Min(left, size - w);
        if chunk != 0 {
          w := CopyChunk(w, data[..chunk], data[..0]);
          assert data[..0] + data[..chunk] == data[..chunk];
          left := left - chunk;
          done := done + chunk;
        }
      }
      if left != 0 {
        var chunk := Min(left, r - w);
        if chunk != 0 {
          w := CopyChunk(w, data[done..done + chunk], data[..done]);
          TakeMore(data, done, chunk);
          left := left - chunk;
          done := done + chunk;
        }
      }
    }
  }
}
