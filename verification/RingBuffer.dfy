/** The byte ring: head and tail indices into a power-of-two buffer, one slot of which always stays free. */
module RingBuffer {
  import opened Common

  // ---------- masks ----------

  /** The bitwise and of two numbers. */
  function And(a: nat, b: nat): (r: nat)
    ensures r <= a && r <= b
  {
    if a == 0 || b == 0 then 0
    else 2 * And(a / 2, b / 2) + if a % 2 == 1 && b % 2 == 1 then 1 else 0
  }

  predicate PowerOfTwo(n: nat) {
    n == 1 || (n > 0 && n % 2 == 0 && PowerOfTwo(n / 2))
  }

  /** One less, in 32 bits. */
  function OneLess(n: word): word {
    if n == 0 then 0xffff_ffff else n - 1
  }

  lemma {:induction false} AndSelf(a: nat)
    ensures And(a, a) == a
  {
    if a > 0 {
      AndSelf(a / 2);
    }
  }

  /**
   * `size & ~(size - 1)` is `size - (size & (size - 1))`: the constructor's test accepts the powers of two, and zero.
   */
  lemma {:induction false} PowerOfTwoTest(size: nat)
    requires size > 0
    ensures size == size - And(size, size - 1) <==> PowerOfTwo(size)
  {
    if size > 1 {
      if size % 2 == 0 {
        assert (size - 1) / 2 == size / 2 - 1;
        PowerOfTwoTest(size / 2);
      } else {
        assert (size - 1) / 2 == size / 2;
        AndSelf(size / 2);
      }
    }
  }

  lemma ModuloDouble(x: nat, h: nat)
    requires h > 0
    ensures x % (2 * h) == 2 * ((x / 2) % h) + x % 2
  {
    var q, r := (x / 2) / h, (x / 2) % h;
    assert x / 2 == q * h + r;
    assert x == q * (2 * h) + (2 * r + x % 2);
    Quotient(x, 2 * h, q, 2 * r + x % 2);
  }

  /** For a power of two, masking with `size - 1` is taking the remainder. */
  lemma {:induction false} MaskIsModulo(x: nat, size: nat)
    requires PowerOfTwo(size)
    ensures And(x, size - 1) == x % size
    decreases size
  {
    if size > 1 {
      var h := size / 2;
      MaskIsModulo(x / 2, h);
      ModuloDouble(x, h);
      assert (size - 1) / 2 == h - 1 && (size - 1) % 2 == 1;
      if x > 0 {
        assert And(x, size - 1) == 2 * And(x / 2, h - 1) + x % 2;
      }
    }
  }

  lemma Wrap(x: nat, size: nat)
    requires PowerOfTwo(size) && x < 2 * size
    ensures And(x, size - 1) == if x < size then x else x - size
  {
    MaskIsModulo(x, size);
    if x < size {
      Quotient(x, size, 0, x);
    } else {
      Quotient(x, size, 1, x - size);
    }
  }

  lemma TakeMore(data: seq<byte>, a: nat, n: nat)
    requires a + n <= |data|
    ensures data[..a] + data[a..][..n] == data[..a + n]
    ensures data[..a] + data[a..a + n] == data[..a + n]
  {
    assert data[a..][..n] == data[a..a + n];
  }

  lemma SameBytes(data: seq<byte>, at: nat, piece: seq<byte>, n: nat)
    requires at + n <= |data| && n <= |piece|
    requires forall k {:trigger piece[k]} :: 0 <= k < n ==> data[at + k] == piece[k]
    ensures data[at..at + n] == piece[..n]
  {
  }

  lemma DropMore(data: seq<byte>, a: nat, n: nat)
    requires a + n <= |data|
    ensures data[a..][n..] == data[a + n..]
  {
  }

  class Ring {
    const size: nat
    const mask: nat
    const buffer: array<byte>
    var head: nat
    var tail: nat

    ghost predicate Valid()
      reads this
    {
      PowerOfTwo(size) && mask == size - 1 && buffer.Length == size && head < size && tail < size
    }

    /** The bytes that have been put and not yet consumed, oldest first. */
    ghost function Contents(): (c: seq<byte>)
      requires Valid()
      reads this, buffer
      ensures |c| < size
    {
      Between(buffer[..], tail, head)
    }

    /** The test lets a size of zero through, with which no ring works: its mask is all ones. */
    constructor (n: word)
      requires n == n - And(n, OneLess(n))
      ensures Valid() <==> n > 0
      ensures fresh(buffer) && buffer.Length == size == n && head == tail == 0
      ensures n > 0 ==> Contents() == []
    {
      if n > 0 {
        PowerOfTwoTest(n);
      }
      size := n;
      mask := OneLess(n);
      head, tail := 0, 0;
      buffer := new byte[n];
    }

    function Empty(): (r: bool)
      requires Valid()
      reads this, buffer
      ensures r <==> Contents() == []
    {
      head == tail
    }

    function Full(): (r: bool)
      requires Valid()
      reads this, buffer
      ensures r <==> |Contents()| == size - 1
    {
      Wrap(tail + size - 1, size);
      head == And(tail + size - 1, mask)
    }

    function Count(): (r: nat)
      requires Valid()
      reads this, buffer
      ensures r == |Contents()|
    {
      Wrap(size + head - tail, size);
      And(size + head - tail, mask)
    }

    function Free(): (r: nat)
      requires Valid()
      reads this, buffer
      ensures r + |Contents()| + 1 == size
    {
      size - Count() - 1
    }

    method Flush()
      requires Valid()
      modifies this`head, this`tail
      ensures Valid() && Contents() == []
    {
      head, tail := 0, 0;
    }

    /**
     * Drops the oldest bytes. Nobody checks that there are so many: one too many and the ring is nearly full again, as
     * the count is taken modulo the size. (So is the sum; that it wraps at 32 bits makes no difference.)
     */
    method Consume(n: nat)
      requires Valid()
      modifies this`tail
      ensures Valid() && |Contents()| == (|old(Contents())| - n) % size
      ensures n <= |old(Contents())| ==> Contents() == old(Contents())[n..]
      ensures n < size ==> tail == if old(tail) + n < size then old(tail) + n else old(tail) + n - size
    {
      hide And, PowerOfTwo, Between;
      PositivePower(size);
      ConsumedTail(tail, n, size);
      ConsumedCount(buffer[..], tail, head, n, size);
      ConsumedBytes(buffer[..], tail, head, n, size);
      tail := And(tail + n, mask);
    }

    /** The oldest bytes that lie in one piece: where they start and how many there are. */
    method GetReadPointer() returns (from: nat, n: nat)
      requires Valid()
      ensures from == tail && from + n <= size
      ensures n <= |Contents()| && buffer[from..from + n] == Contents()[..n]
      ensures n == 0 <==> Contents() == []
      ensures n == |Contents()| || from + n == size
    {
      from := tail;
      if head < tail {
        return from, size - tail;
      }
      return from, head - tail;
    }

    /** Where the next bytes go, and how many fit there in one piece. */
    method GetWritePointer() returns (to: nat, n: nat)
      requires Valid()
      ensures to == head && to + n <= size
      ensures n <= Free() && (n == 0 <==> Free() == 0)
      ensures n == Free() || to + n == size
      ensures (head < tail ==> head + n < tail) && (tail == 0 ==> head + n < size)
    {
      to := head;
      if head < tail {
        return to, tail - head - 1;
      }
      n := size - head;
      if tail == 0 {
        n := n - 1;
      }
    }

    /** Takes over `n` bytes that have been stored behind the newest one. */
    method Add(n: nat)
      requires Valid() && n <= Free() && head + n <= size
      modifies this`head
      ensures Valid() && Contents() == old(Contents()) + buffer[old(head)..old(head) + n]
      ensures head == if old(head) + n < size then old(head) + n else 0
    {
      Wrap(head + n, size);
      var next := And(head + n, mask);
      AddedBytes(buffer[..], tail, head, n, next);
      head := next;
    }

    /** Stores and takes over as many of the bytes as fit in one piece. */
    method PutChunk(data: seq<byte>) returns (n: nat)
      requires Valid()
      modifies this`head, buffer
      ensures Valid() && n <= |data|
      ensures Contents() == old(Contents()) + data[..n]
      ensures n == |data| || n == old(Free()) || (old(head) + n == size && head == 0)
      ensures Undisturbed(old(tail), old(Contents()), old(buffer[..]), buffer[..])
    {
      hide And, PowerOfTwo, Between, Undisturbed;
      var to;
      to, n := GetWritePointer();
      if n > |data| {
        n := |data|;
      }
      forall k | 0 <= k < n {
        buffer[to + k] := data[k];
      }
      StoredBytes(old(buffer[..]), buffer[..], tail, head, data[..n]);
      Add(n);
    }

    /** Appends as many of the bytes as there is room for: two pieces always suffice. */
    method Put(data: seq<byte>) returns (done: nat)
      requires Valid()
      modifies this`head, buffer
      ensures Valid()
      ensures done == Min(|data|, old(Free()))
      ensures Contents() == old(Contents()) + data[..done]
      ensures Undisturbed(old(tail), old(Contents()), old(buffer[..]), buffer[..])
    {
      hide And, PowerOfTwo, Between;
      done := PutChunk(data);
      if done == 0 || done == |data| {
        return;
      }
      var n := PutChunk(data[done..]);
      TakeMore(data, done, n);
      done := done + n;
    }

    /** Copies the oldest bytes that lie in one piece, at most `n` of them, to `data` from `at` on, and drops them. */
    method GetChunk(n: nat, data: array<byte>, at: nat) returns (done: nat)
      requires Valid() && n <= |Contents()| && at + n <= data.Length && data != buffer
      modifies this`tail, data
      ensures Valid() && done <= n
      ensures Contents() == old(Contents())[done..]
      ensures data[..at] == old(data[..at]) && data[at..at + done] == old(Contents())[..done]
              && data[at + done..] == old(data[at + done..])
      ensures done == n || (old(tail) + done == size && tail == 0 && done > 0)
    {
      hide And, PowerOfTwo, Between;
      var from;
      from, done := GetReadPointer();
      ghost var piece := buffer[from..from + done];
      if done > n {
        done := n;
      }
      assert piece[..done] == Contents()[..done];
      forall k | 0 <= k < done {
        data[at + k] := buffer[from + k];
      }
      assert forall k :: 0 <= k < done ==> data[at + k] == piece[k];
      SameBytes(data[..], at, piece, done);
      Consume(done);
    }

    /** Removes the oldest `min(n, count)` bytes: two pieces always suffice. */
    method Get(n: nat, data: array<byte>) returns (done: nat)
      requires Valid() && n <= data.Length && data != buffer
      modifies this`tail, data
      ensures Valid()
      ensures done == Min(n, |old(Contents())|)
      ensures data[..done] == old(Contents())[..done] && data[done..] == old(data[done..])
      ensures Contents() == old(Contents())[done..]
    {
      hide And, PowerOfTwo, Between;
      var want := Min(n, Count());
      done := GetChunk(want, data, 0);
      if done == 0 || done == want {
        return;
      }
      ghost var all, first := old(Contents()), data[..];
      var more := GetChunk(want - done, data, done);
      TakeMore(all, done, more);
      TakeMore(data[..], done, more);
      DropMore(all, done, more);
      DropMore(first, done, more);
      DropMore(old(data[..]), done, more);
      done := done + more;
    }
  }

  /** What the ring holds between two indices. */
  ghost function Between(b: seq<byte>, tail: nat, head: nat): seq<byte>
    requires tail < |b| && head < |b|
  {
    if tail <= head then b[tail..head] else b[tail..] + b[..head]
  }

  /** How many bytes are left between the indices when the lower one moves on by any number. */
  lemma ConsumedCount(b: seq<byte>, tail: nat, head: nat, n: nat, size: nat)
    requires |b| == size && tail < size && head < size
    ensures |Between(b, (tail + n) % size, head)| == (|Between(b, tail, head)| - n) % size
  {
    var q, t := (tail + n) / size, (tail + n) % size;
    assert tail + n == q * size + t;
    var left: int := |Between(b, t, head)|;
    var before: int := |Between(b, tail, head)|;
    var p: int, d: int := q, size;
    assert (-p) * d == -(p * d) && (1 - p) * d == d - p * d && (-1 - p) * d == -d - p * d;
    if (tail <= head) == (t <= head) {
      Quotient(before - n, size, -p, left);
    } else if t <= head {
      Quotient(before - n, size, 1 - p, left);
    } else {
      Quotient(before - n, size, -1 - p, left);
    }
  }

  lemma ConsumedBytes(b: seq<byte>, tail: nat, head: nat, n: nat, size: nat)
    requires |b| == size && tail < size && head < size
    ensures n <= |Between(b, tail, head)| ==> Between(b, (tail + n) % size, head) == Between(b, tail, head)[n..]
  {
    if n > |Between(b, tail, head)| {
      return;
    }
    if tail + n < size {
      Quotient(tail + n, size, 0, tail + n);
    } else {
      Quotient(tail + n, size, 1, tail + n - size);
    }
  }

  lemma ConsumedTail(tail: nat, n: nat, size: nat)
    requires PowerOfTwo(size) && tail < size
    ensures And(tail + n, size - 1) == (tail + n) % size
    ensures n < size ==> And(tail + n, size - 1) == if tail + n < size then tail + n else tail + n - size
  {
    if n < size {
      Wrap(tail + n, size);
    }
    MaskIsModulo(tail + n, size);
  }

  lemma PositivePower(n: nat)
    requires PowerOfTwo(n)
    ensures n > 0
  {
  }

  lemma AddedBytes(b: seq<byte>, tail: nat, head: nat, n: nat, next: nat)
    requires tail < |b| && head < |b| && head + n <= |b|
    requires head < tail ==> head + n < tail
    requires tail == 0 ==> head + n < |b|
    requires next == if head + n < |b| then head + n else 0
    ensures Between(b, tail, next) == Between(b, tail, head) + b[head..head + n]
  {
  }

  lemma StoredBytes(before: seq<byte>, after: seq<byte>, tail: nat, head: nat, data: seq<byte>)
    requires |before| == |after| && tail < |before| && head < |before| && head + |data| <= |before|
    requires head < tail ==> head + |data| < tail
    requires forall k :: 0 <= k < |before| ==>
               after[k] == if head <= k < head + |data| then data[k - head] else before[k]
    ensures Between(after, tail, head) == Between(before, tail, head)
    ensures after[head..head + |data|] == data
    ensures Undisturbed(tail, Between(before, tail, head), before, after)
  {
  }

  /** The cells that hold the contents are as before. */
  ghost predicate Undisturbed(tail: nat, contents: seq<byte>, before: seq<byte>, after: seq<byte>) {
    && |before| == |after|
    && forall k :: tail <= k < |before| && k < tail + |contents| ==> after[k] == before[k]
  }
}
