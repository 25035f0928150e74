/**
 * LED strips driven by a timer: each bit becomes one PWM byte, streamed
 * by circular DMA from two halves refilled in turn.
 */
module Ws2812 {
  import opened Common

  /** Bit `k` of a byte. */
  function Bit(v: byte, k: nat): bool
    requires k < 8
  {
    var shifted: nat :=
      if k == 0 then v else if k == 1 then v / 2 else if k == 2 then v / 4 else if k == 3 then v / 8
      else if k == 4 then v / 16 else if k == 5 then v / 32 else if k == 6 then v / 64 else v / 128;
    shifted % 2 == 1
  }

  function Pwm(bit: bool, one: byte, zero: byte): byte {
    if bit then one else zero
  }

  /** The PWM bytes of a byte, most significant bit first. */
  function ByteFrame(v: byte, one: byte, zero: byte): (f: seq<byte>)
    ensures |f| == 8
  {
    [Pwm(Bit(v, 7), one, zero), Pwm(Bit(v, 6), one, zero), Pwm(Bit(v, 5), one, zero), Pwm(Bit(v, 4), one, zero),
     Pwm(Bit(v, 3), one, zero), Pwm(Bit(v, 2), one, zero), Pwm(Bit(v, 1), one, zero), Pwm(Bit(v, 0), one, zero)]
  }

  /** The frame of one LED: its three bytes in order. */
  function Frame(rgb: seq<byte>, one: byte, zero: byte): (f: seq<byte>)
    requires |rgb| == 3
    ensures |f| == 24
  {
    ByteFrame(rgb[0], one, zero) + ByteFrame(rgb[1], one, zero) + ByteFrame(rgb[2], one, zero)
  }

  /** The four PWM bytes of a four-bit value, most significant bit first. */
  function Nibble(v: byte, one: byte, zero: byte): (n: seq<byte>)
    ensures |n| == 4
  {
    [Pwm(Bit(v, 3), one, zero), Pwm(Bit(v, 2), one, zero), Pwm(Bit(v, 1), one, zero), Pwm(Bit(v, 0), one, zero)]
  }

  lemma NibbleBits(v: byte, h: nat, l: nat)
    requires v == 16 * h + l && l < 16
    ensures Bit(v, 7) == Bit(h, 3) && Bit(v, 6) == Bit(h, 2) && Bit(v, 5) == Bit(h, 1) && Bit(v, 4) == Bit(h, 0)
    ensures Bit(v, 3) == Bit(l, 3) && Bit(v, 2) == Bit(l, 2) && Bit(v, 1) == Bit(l, 1) && Bit(v, 0) == Bit(l, 0)
  {
    HighBits(v, h, l);
    LowBits(v, h, l);
    hide Bit;
  }

  lemma HighBits(v: byte, h: nat, l: nat)
    requires v == 16 * h + l && l < 16
    ensures Bit(v, 7) == Bit(h, 3) && Bit(v, 6) == Bit(h, 2) && Bit(v, 5) == Bit(h, 1) && Bit(v, 4) == Bit(h, 0)
  {
    assert v / 16 == h;
    assert v / 128 == h / 8 && v / 64 == h / 4 && v / 32 == h / 2;
  }

  lemma LowBits(v: byte, h: nat, l: nat)
    requires v == 16 * h + l && l < 16
    ensures Bit(v, 3) == Bit(l, 3) && Bit(v, 2) == Bit(l, 2) && Bit(v, 1) == Bit(l, 1) && Bit(v, 0) == Bit(l, 0)
  {
    assert v / 8 == 2 * h + l / 8 && v / 4 == 4 * h + l / 4 && v / 2 == 8 * h + l / 2;
  }

  /** A byte is its two nibbles, high one first. */
  lemma ByteIsNibbles(v: byte, one: byte, zero: byte)
    ensures ByteFrame(v, one, zero) == Nibble(v / 16, one, zero) + Nibble(v % 16, one, zero)
  {
    hide Bit;
    NibbleBits(v, v / 16, v % 16);
  }

  /** The pulses of a byte, on numbers. */
  lemma ByteFrameBits(v: byte, one: byte, zero: byte)
    ensures ByteFrame(v, one, zero) ==
            [if v / 128 % 2 == 1 then one else zero, if v / 64 % 2 == 1 then one else zero,
             if v / 32 % 2 == 1 then one else zero, if v / 16 % 2 == 1 then one else zero,
             if v / 8 % 2 == 1 then one else zero, if v / 4 % 2 == 1 then one else zero,
             if v / 2 % 2 == 1 then one else zero, if v % 2 == 1 then one else zero]
  {
  }

  lemma FrameBytes(rgb: seq<byte>, one: byte, zero: byte)
    requires |rgb| == 3
    ensures Frame(rgb, one, zero)[0..8] == ByteFrame(rgb[0], one, zero)
    ensures Frame(rgb, one, zero)[8..16] == ByteFrame(rgb[1], one, zero)
    ensures Frame(rgb, one, zero)[16..24] == ByteFrame(rgb[2], one, zero)
  {
    hide ByteFrame;
  }

  lemma NibbleIsBits(v: byte, one: byte, zero: byte, q: nat)
    requires q < 4
    ensures Nibble(v, one, zero)[q] == if v / [8, 4, 2, 1][q] % 2 == 1 then one else zero
  {
  }

  class Strip {
    const nbLeds: nat
    const leds: array<byte>
    /** The ping-pong buffer: two halves of one frame each. */
    const pwm: array<byte>
    /** Sixteen entries of four bytes. */
    const lookup: array<byte>
    var one: byte
    var zero: byte
    var nextLed: nat
    /** How often the semaphore has been given since the update began. */
    var gives: nat

    /** The frames the DMA has sent since the update began. */
    var frames: seq<seq<byte>>

    predicate Allocated() {
      && nbLeds >= 1 && leds.Length == 3 * nbLeds && pwm.Length == 48 && lookup.Length == 64
      && leds != pwm && leds != lookup && pwm != lookup
    }

    ghost predicate TableOk(n: nat)
      requires lookup.Length == 64 && n <= 16
      reads this`one, this`zero, lookup
    {
      forall v {:trigger Nibble(v, one, zero)} :: 0 <= v < n ==> lookup[4 * v..4 * v + 4] == Nibble(v, one, zero)
    }

    ghost predicate Valid()
      reads this`one, this`zero, lookup
    {
      Allocated() && TableOk(16)
    }

    ghost function Led(i: nat): seq<byte>
      requires Allocated() && i < nbLeds
      reads leds
    {
      leds[3 * i..3 * i + 3]
    }

    ghost function FrameOf(i: nat): (f: seq<byte>)
      requires Allocated() && i < nbLeds
      reads this`one, this`zero, leds
      ensures |f| == 24
    {
      Frame(Led(i), one, zero)
    }

    constructor (n: nat)
      requires n >= 1
      ensures Allocated() && nbLeds == n && fresh(leds) && fresh(pwm) && fresh(lookup)
      ensures one == zero == 0 && nextLed == gives == 0 && frames == []
    {
      nbLeds := n;
      leds := new byte[3 * n];
      pwm := new byte[48];
      lookup := new byte[64];
      one, zero, nextLed, gives, frames := 0, 0, 0, 0, [];
    }

    /** The table on numbers. */
    lemma TableBits(p: nat)
      requires Valid() && p < 64
      ensures lookup[p] == if p / 4 / [8, 4, 2, 1][p % 4] % 2 == 1 then one else zero
    {
      hide Nibble;
      var v := p / 4;
      NibbleIsBits(v, one, zero, p % 4);
      assert lookup[4 * v..4 * v + 4] == Nibble(v, one, zero);
      assert lookup[p] == lookup[4 * v..4 * v + 4][p % 4];
    }

    /** Fills the table for the pulse widths of a timer that rolls over at `rollover`. */
    method Begin(rollover: nat)
      requires Allocated()
      requires (rollover * 4 + 3) / 6 < 256
      modifies this, lookup
      ensures Valid()
      ensures one == (rollover * 4 + 3) / 6 && zero == (rollover * 2 + 3) / 6
      ensures forall p :: 0 <= p < 64 ==>
                lookup[p] == if p / 4 / [8, 4, 2, 1][p % 4] % 2 == 1 then one else zero
    {
      one := (rollover * 4 + 3) / 6;
      zero := (rollover * 2 + 3) / 6;
      var value := 0;
      while value < 16
        invariant 0 <= value <= 16 && TableOk(value) && one == (rollover * 4 + 3) / 6 && zero == (rollover * 2 + 3) / 6
      {
        FillEntry(value);
        value := value + 1;
      }
      forall p | 0 <= p < 64 ensures lookup[p] == if p / 4 / [8, 4, 2, 1][p % 4] % 2 == 1 then one else zero {
        TableBits(p);
      }
    }

    /** One table entry: the top bit of the value, shifted left four times. */
    method FillEntry(value: nat)
      requires Allocated() && value < 16 && TableOk(value)
      modifies lookup
      ensures TableOk(value + 1)
    {
      hide Bit;
      ghost var before := lookup[..];
      var copy := value;
      var i := 0;
      var target := 4 * value;
      while i < 4
        invariant 0 <= i <= 4 && target == 4 * value + i
        invariant copy ==
                  value * (if i == 0 then 1 else if i == 1 then 2 else if i == 2 then 4 else if i == 3 then 8 else 16)
        invariant forall j :: 0 <= j < 64 && !(4 * value <= j < 4 * value + i) ==> lookup[j] == before[j]
        invariant i > 0 ==> lookup[4 * value] == Nibble(value, one, zero)[0]
        invariant i > 1 ==> lookup[4 * value + 1] == Nibble(value, one, zero)[1]
        invariant i > 2 ==> lookup[4 * value + 2] == Nibble(value, one, zero)[2]
        invariant i > 3 ==> lookup[4 * value + 3] == Nibble(value, one, zero)[3]
      {
        ShiftedBit(value, copy, i);
        lookup[target] := if (copy / 8) % 2 == 1 then one else zero;
        target := target + 1;
        copy := copy * 2;
        i := i + 1;
      }
      assert lookup[4 * value..4 * value + 4] == Nibble(value, one, zero);
      forall v {:trigger Nibble(v, one, zero)} | 0 <= v < value
        ensures lookup[4 * v..4 * v + 4] == Nibble(v, one, zero)
      {
        assert lookup[4 * v..4 * v + 4] == before[4 * v..4 * v + 4];
      }
    }

    /** Copies a table entry into the buffer, as one 32-bit word. */
    method CopyWord(at: nat, value: byte)
      requires Valid() && at + 4 <= 48 && value < 16
      modifies pwm
      ensures pwm[at..at + 4] == Nibble(value, one, zero)
      ensures forall j :: 0 <= j < 48 && !(at <= j < at + 4) ==> pwm[j] == old(pwm[j])
    {
      assert lookup[4 * value..4 * value + 4] == Nibble(value, one, zero);
      pwm[at], pwm[at + 1], pwm[at + 2], pwm[at + 3] :=
        lookup[4 * value], lookup[4 * value + 1], lookup[4 * value + 2], lookup[4 * value + 3];
    }

    method ConvertByte(at: nat, v: byte)
      requires Valid() && at + 8 <= 48
      modifies pwm
      ensures pwm[at..at + 8] == ByteFrame(v, one, zero)
      ensures forall j :: 0 <= j < 48 && !(at <= j < at + 8) ==> pwm[j] == old(pwm[j])
    {
      hide Nibble, ByteFrame, TableOk;
      CopyWord(at, v / 16);
      ghost var high := pwm[at..at + 4];
      CopyWord(at + 4, v % 16);
      assert pwm[at..at + 4] == high;
      assert pwm[at..at + 8] == pwm[at..at + 4] + pwm[at + 4..at + 8];
      ByteIsNibbles(v, one, zero);
    }

    /** Writes the frame of a LED into the second half of the buffer (`hilow`) or the first. */
    method ConvertRgb(hilow: bool, led: nat)
      requires Valid() && led < nbLeds
      modifies pwm
      ensures Half(hilow) == FrameOf(led)
      ensures Half(!hilow) == old(Half(!hilow))
      ensures if hilow then pwm[24..48] == FrameOf(led) && pwm[0..24] == old(pwm[0..24])
              else pwm[0..24] == FrameOf(led) && pwm[24..48] == old(pwm[24..48])
    {
      hide ByteFrame, TableOk;
      var at := if hilow then 24 else 0;
      ConvertByte(at, leds[3 * led]);
      ghost var a := pwm[at..at + 8];
      ConvertByte(at + 8, leds[3 * led + 1]);
      ghost var b := pwm[at + 8..at + 16];
      assert pwm[at..at + 8] == a;
      ConvertByte(at + 16, leds[3 * led + 2]);
      assert pwm[at..at + 8] == a && pwm[at + 8..at + 16] == b;
      assert pwm[at..at + 24] == pwm[at..at + 8] + pwm[at + 8..at + 16] + pwm[at + 16..at + 24];
    }

    /** The frame in one half of the buffer. */
    function Half(second: bool): (f: seq<byte>)
      requires Allocated()
      reads pwm
      ensures |f| == 24
    {
      if second then pwm[24..48] else pwm[0..24]
    }

    // ---------- streaming ----------

    /**
     * While the DMA runs and has sent `|frames|` halves: the half it is sending and the one after it hold the frames
     * of the LEDs of these numbers, as far as there are any.
     */
    ghost predicate Streaming()
      reads this, leds, pwm, lookup
    {
      var j := |frames|;
      && Valid()
      && (j < nbLeds ==> Half(j % 2 == 1) == FrameOf(j))
      && (j + 1 < nbLeds ==> Half(j % 2 == 0) == FrameOf(j + 1))
      && (forall i :: 0 <= i < j && i < nbLeds ==> frames[i] == FrameOf(i))
      && (gives == 0 <==> j < nbLeds)
      && (nbLeds == 1 ==> if j == 0 then nextLed == 1 else nextLed >= 2)
      && (nbLeds > 1 ==> nextLed == if j < nbLeds then j + 2 else nbLeds + 2)
    }

    /** The first part of `update`: fills the buffer and starts the DMA. */
    method Start()
      requires Valid()
      modifies this`nextLed, this`gives, this`frames, pwm
      ensures Streaming() && frames == []
      ensures pwm[0..24] == FrameOf(0)
      ensures if nbLeds == 1 then forall k :: 24 <= k < 48 ==> pwm[k] == 0 else pwm[24..48] == FrameOf(1)
    {
      hide ByteFrame, Nibble;
      gives := 0;
      frames := [];
      ConvertRgb(false, 0);
      if nbLeds == 1 {
        nextLed := 1;
        forall k | 24 <= k < 48 {
          pwm[k] := 0;
        }
        assert pwm[0..24] == Half(false);
      } else {
        nextLed := 2;
        ConvertRgb(true, 1);
      }
    }

    /** The interrupt when a half has been sent: `half` for the first one. */
    method TimerCallback(half: bool)
      requires Valid()
      modifies this`nextLed, this`gives, pwm
      ensures Half(half) == old(Half(half))
      ensures nextLed == if (nbLeds == 1 && half) || old(nextLed) <= nbLeds + 1 then old(nextLed) + 1 else old(nextLed)
      ensures gives == old(gives) + if (nbLeds == 1 && half) || old(nextLed) == nbLeds + 1 then 1 else 0
      ensures Half(!half) ==
              if !(nbLeds == 1 && half) && old(nextLed) < nbLeds then FrameOf(old(nextLed)) else old(Half(!half))
    {
      if nbLeds == 1 && half {
        gives := gives + 1;
        nextLed := nextLed + 1;
        return;
      }
      if nextLed < nbLeds {
        ConvertRgb(!half, nextLed);
        nextLed := nextLed + 1;
        return;
      }
      if nextLed == nbLeds {
        nextLed := nextLed + 1;
        return;
      }
      if nextLed == nbLeds + 1 {
        gives := gives + 1;
        nextLed := nextLed + 1;
      }
    }

    /** The DMA finishes a half and goes on with the other one, which the interrupt does not touch. */
    method HalfSent()
      requires Streaming()
      modifies this`nextLed, this`gives, this`frames, pwm
      ensures Streaming()
      ensures frames == old(frames) + [old(if |frames| % 2 == 0 then pwm[0..24] else pwm[24..48])]
      ensures Half(|frames| % 2 == 1) == old(Half(|frames| % 2 == 0))
    {
      hide ByteFrame, Nibble, Strip.FrameOf, Strip.TableOk, Strip.Half;
      HalfIs();
      var j := |frames|;
      assert (j + 1) % 2 == 1 - j % 2;
      frames := frames + [Half(j % 2 == 1)];
      TimerCallback(j % 2 == 0);
    }

    lemma HalfIs()
      requires Allocated()
      ensures Half(false) == pwm[0..24] && Half(true) == pwm[24..48]
    {
    }

    /** The frames on numbers, most significant bit first. */
    lemma SentBits()
      requires Allocated() && |frames| == nbLeds && forall i :: 0 <= i < nbLeds ==> frames[i] == FrameOf(i)
      ensures forall n :: 0 <= n < 3 * nbLeds ==>
        var v, i, c := leds[n], n / 3, n % 3;
        && |frames[i]| == 24
        && frames[i][8 * c..8 * c + 8] ==
           [if v / 128 % 2 == 1 then one else zero, if v / 64 % 2 == 1 then one else zero,
            if v / 32 % 2 == 1 then one else zero, if v / 16 % 2 == 1 then one else zero,
            if v / 8 % 2 == 1 then one else zero, if v / 4 % 2 == 1 then one else zero,
            if v / 2 % 2 == 1 then one else zero, if v % 2 == 1 then one else zero]
    {
      hide Frame;
      forall n | 0 <= n < 3 * nbLeds
        ensures FrameOf(n / 3)[8 * (n % 3)..8 * (n % 3) + 8] == ByteFrame(leds[n], one, zero)
      {
        FrameBytes(Led(n / 3), one, zero);
        ByteFrameBits(leds[n], one, zero);
      }
    }

    /**
     * A whole `update`: when the semaphore is given for the first time, exactly the frames of all LEDs have gone out.
     */
    method Update()
      requires Valid()
      modifies this`nextLed, this`gives, this`frames, pwm
      ensures Valid() && gives > 0
      ensures |frames| == nbLeds && forall i :: 0 <= i < nbLeds ==> frames[i] == FrameOf(i)
      ensures forall n :: 0 <= n < 3 * nbLeds ==>
        var v, i, c := leds[n], n / 3, n % 3;
        && |frames[i]| == 24
        && frames[i][8 * c..8 * c + 8] ==
           [if v / 128 % 2 == 1 then one else zero, if v / 64 % 2 == 1 then one else zero,
            if v / 32 % 2 == 1 then one else zero, if v / 16 % 2 == 1 then one else zero,
            if v / 8 % 2 == 1 then one else zero, if v / 4 % 2 == 1 then one else zero,
            if v / 2 % 2 == 1 then one else zero, if v % 2 == 1 then one else zero]
    {
      hide Frame, ByteFrame, Nibble, Strip.FrameOf, Strip.TableOk, Strip.Half;
      Start();
      while gives == 0
        invariant Streaming() && |frames| <= nbLeds
        decreases nbLeds - |frames|
      {
        HalfSent();
      }
      SentBits();
    }
  }

  lemma ShiftedBit(value: nat, copy: nat, i: nat)
    requires value < 16 && i < 4
    requires copy == value * (if i == 0 then 1 else if i == 1 then 2 else if i == 2 then 4 else 8)
    ensures (copy / 8) % 2 == 1 <==> Bit(value, 3 - i)
  {
  }
}
