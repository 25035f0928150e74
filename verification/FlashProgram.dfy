/** Programming flash from any address: the controller takes half-words at even addresses and can only clear bits. */
module FlashProgram {
  /** What programming leaves of a byte: the bits that are one in both. */
  function Programmed(old_: bv8, data: bv8): bv8 {
    old_ & data
  }

  lemma NeutralBytes(x: bv8)
    ensures Programmed(x, x) == x && Programmed(x, 0xff) == x && Programmed(0xff, x) == x
  {
  }

  /** `after` is `before` with exactly the bytes of `data` programmed at `start`. */
  ghost predicate JustProgrammed(before: seq<bv8>, after: seq<bv8>, start: nat, data: seq<bv8>) {
    && |after| == |before| && start + |data| <= |before|
    && forall i :: 0 <= i < |before| ==>
         after[i] == if start <= i < start + |data| then Programmed(before[i], data[i - start]) else before[i]
  }

  lemma OneMore(before: seq<bv8>, middle: seq<bv8>, after: seq<bv8>, start: nat, data: seq<bv8>, k: nat)
    requires k < |data| && JustProgrammed(before, middle, start, data[..k]) && start + k < |before|
    requires after == middle[start + k := Programmed(middle[start + k], data[k])]
    ensures JustProgrammed(before, after, start, data[..k + 1])
  {
  }

  /** On erased flash, programming stores the data. */
  lemma ErasedTakesTheData(before: seq<bv8>, after: seq<bv8>, start: nat, data: seq<bv8>)
    requires JustProgrammed(before, after, start, data)
    requires forall i :: start <= i < start + |data| ==> before[i] == 0xff
    ensures after[start..start + |data|] == data
    ensures after[..start] == before[..start] && after[start + |data|..] == before[start + |data|..]
  {
    forall i | 0 <= i < |data| ensures after[start + i] == data[i] {
      NeutralBytes(data[i]);
    }
  }

  class Flash {
    /** Starts at an even address and has an even length. */
    const mem: array<bv8>

    ghost predicate Valid() {
      mem.Length % 2 == 0
    }

    constructor (size: nat)
      requires size % 2 == 0
      ensures Valid() && fresh(mem) && mem.Length == size
    {
      mem := new bv8[size];
    }

    /** The controller programs one half-word, low byte first. */
    method ProgramHalf(at: nat, low: bv8, high: bv8)
      requires at % 2 == 0 && at + 1 < mem.Length
      modifies mem
      ensures mem[..] == old(mem[..])[at := Programmed(old(mem[at]), low)][at + 1 := Programmed(old(mem[at + 1]), high)]
    {
      mem[at] := Programmed(mem[at], low);
      mem[at + 1] := Programmed(mem[at + 1], high);
    }

    /** The first byte at an odd address: the high byte of a half-word whose low byte is programmed with itself. */
    method ProgramHigh(adr: nat, ghost start: nat, data: seq<bv8>, ghost before: seq<bv8>)
      requires adr % 2 == 1 && adr == start && adr < mem.Length && |data| > 0
      requires JustProgrammed(before, mem[..], start, data[..0])
      modifies mem
      ensures JustProgrammed(before, mem[..], start, data[..1])
    {
      hide Programmed;
      ghost var middle := mem[..];
      NeutralBytes(mem[adr - 1]);
      ProgramHalf(adr - 1, mem[adr - 1], data[0]);
      assert mem[..] == middle[start + 0 := Programmed(middle[start], data[0])];
      OneMore(before, middle, mem[..], start, data, 0);
    }

    /** Two bytes at an even address. */
    method ProgramBoth(adr: nat, ghost start: nat, data: seq<bv8>, done: nat, ghost before: seq<bv8>)
      requires adr % 2 == 0 && adr == start + done && adr + 1 < mem.Length && done + 1 < |data|
      requires JustProgrammed(before, mem[..], start, data[..done])
      modifies mem
      ensures JustProgrammed(before, mem[..], start, data[..done + 2])
    {
      hide Programmed;
      ghost var middle := mem[..];
      ghost var half := middle[adr := Programmed(middle[adr], data[done])];
      ProgramHalf(adr, data[done], data[done + 1]);
      OneMore(before, middle, half, start, data, done);
      OneMore(before, half, mem[..], start, data, done + 1);
    }

    /** The last byte, alone: the low byte of a half-word whose high byte is programmed with ones. */
    method ProgramLow(adr: nat, ghost start: nat, data: seq<bv8>, done: nat, ghost before: seq<bv8>)
      requires adr % 2 == 0 && adr == start + done && adr + 1 < mem.Length && done < |data|
      requires JustProgrammed(before, mem[..], start, data[..done])
      modifies mem
      ensures JustProgrammed(before, mem[..], start, data[..done + 1])
    {
      hide Programmed;
      ghost var middle := mem[..];
      NeutralBytes(mem[adr + 1]);
      ProgramHalf(adr, data[done], 0xff);
      assert mem[..] == middle[adr := Programmed(middle[adr], data[done])];
      OneMore(before, middle, mem[..], start, data, done);
    }

    /** The steps of `write`. */
    method ProgramAll(start: nat, data: seq<bv8>, size: nat) returns (ok: bool)
      requires Valid() && Touched(start, size) <= |data| && start + Touched(start, size) <= mem.Length
      modifies mem
      ensures ok && JustProgrammed(old(mem[..]), mem[..], start, data[..Touched(start, size)])
    {
      ghost var before := mem[..];
      ghost var all := data[..Touched(start, size)];
      assert JustProgrammed(before, before, start, all[..0]);
      hide Programmed, JustProgrammed;
      var adr, done := start, 0;
      var sizeInBytes: int := size;
      if adr % 2 == 1 {
        ProgramHigh(adr, start, data[..Touched(start, size)], before);
        adr := adr + 1;
        sizeInBytes := sizeInBytes - 1;
        done := 1;
      }
      // the division rounds towards zero
      var nbWord := if sizeInBytes < 0 then 0 else sizeInBytes / 2;
      var i := 0;
      while i < nbWord
        invariant 0 <= i <= nbWord && adr == start + done && adr % 2 == 0
        invariant done == (if start % 2 == 1 then 1 else 0) + 2 * i
        invariant JustProgrammed(before, mem[..], start, all[..done])
      {
        ProgramBoth(adr, start, data[..Touched(start, size)], done, before);
        adr := adr + 2;
        done := done + 2;
        i := i + 1;
      }
      if sizeInBytes % 2 == 1 {
        ProgramLow(adr, start, data[..Touched(start, size)], done, before);
        done := done + 1;
      }
      assert all[..done] == all;
      return true;
    }

    /**
     * Programs exactly the bytes asked for. A leading odd byte goes out with its neighbour's own value, a trailing one
     * with ones, which changes neither neighbour. Asked for no bytes at an odd address it programs two: it counts one
     * off before it looks whether there is one.
     */
    method Write(start: nat, data: seq<bv8>, size: nat) returns (ok: bool)
      requires Valid() && Touched(start, size) <= |data| && start + Touched(start, size) <= mem.Length
      modifies mem
      ensures ok && JustProgrammed(old(mem[..]), mem[..], start, data[..Touched(start, size)])
      ensures forall i :: 0 <= i < mem.Length ==>
        mem[i] == if start <= i < start + (if start % 2 == 1 && size == 0 then 2 else size)
                  then old(mem[i]) & data[i - start] else old(mem[i])
    {
      hide Programmed, JustProgrammed;
      ghost var before := mem[..];
      ok := ProgramAll(start, data, size);
      ByNumber(before, mem[..], start, data, size);
    }
  }

  /** The bytes programmed get the bits that are one in both, and all others are as before. */
  lemma ByNumber(before: seq<bv8>, after: seq<bv8>, start: nat, data: seq<bv8>, size: nat)
    requires Touched(start, size) <= |data|
    requires JustProgrammed(before, after, start, data[..Touched(start, size)])
    ensures |after| == |before|
    ensures forall i :: 0 <= i < |before| ==>
      after[i] == if start <= i < start + (if start % 2 == 1 && size == 0 then 2 else size)
                  then before[i] & data[i - start] else before[i]
  {
  }

  /** How many bytes a write of `size` bytes programs. */
  function Touched(start: nat, size: nat): nat {
    if start % 2 == 1 && size == 0 then 2 else size
  }

  /** Which is what was asked for, except for no bytes at an odd address. */
  lemma TouchedIff(start: nat, size: nat)
    ensures Touched(start, size) == size <==> start % 2 == 0 || size > 0
  {
  }
}
