/**
 * The store told in plain bytes and numbers, as a reader with a hex dump would: what an image holds, where the scanning
 * loops stop on any bytes at all, and what one write does to the sector.
 */
module NvmBytes {
  import opened Common
  import opened NvmLayout
  import opened NvmLog
  import opened NvmRecovery

  // ---------- sectors and entries ----------

  lemma StateBytes(s: Sector)
    ensures StateOf(s) == Erased <==> s[..4] == [255, 255, 255, 255]
    ensures StateOf(s) == Prep <==> s[..4] == [0, 0, 255, 255]
    ensures StateOf(s) == Active <==> s[..4] == [0, 0, 0, 0]
  {
    FourBytes(s);
  }

  lemma FourBytes(s: Sector)
    ensures s[..4] == [s[0], s[1], s[2], s[3]]
  {
  }

  lemma EightBytes(s: Sector, off: nat)
    requires off + 8 <= 1024
    ensures s[off..off + 8] == [s[off], s[off + 1], s[off + 2], s[off + 3],
                                s[off + 4], s[off + 5], s[off + 6], s[off + 7]]
  {
  }

  lemma SaneBytes(s: Sector)
    ensures Sane(s) <==> s[4..12] != [0, 0, 0, 0, 0, 0, 0, 0]
  {
    EightBytes(s, 4);
  }

  /** How many payload bytes follow a header whose size has the low byte `b`: an even number, and none for 255. */
  function PayloadLength(b: byte): nat {
    if b == 255 then 0 else b + b % 2
  }

  lemma RoundupMeans(size: nat)
    ensures Roundup(size) == PayloadLength(size % 256)
    ensures size <= 64 ==> Roundup(size) == size + size % 2
  {
    var q, b := size / 256, size % 256;
    assert size == q * 256 + b;
    RoundupByte(q, b);
  }

  lemma RoundupByte(q: nat, b: byte)
    ensures Roundup(q * 256 + b) == PayloadLength(b)
  {
    var size := q * 256 + b;
    Quotient(size + 1, 2, q * 128 + (b + 1) / 2, (b + 1) % 2);
    if b == 255 {
      Quotient(size + 1, 256, q + 1, 0);
    } else {
      Quotient(size + 1, 256, q, b + 1);
    }
  }

  /** The sector `begin` mounts, and those it erases on the way. */
  lemma BootBytes(f: Flash, g: Flash)
    requires |g| == |f|
    requires forall j :: 0 <= j < |f| ==>
      g[j] == if j < BootFrom(f, 0) && StateOf(f[j]) == Active then BlankSector() else f[j]
    ensures var b := BootFrom(f, 0);
      && (b < |f| <==> exists i :: 0 <= i < |f| && f[i][..4] == [0, 0, 0, 0] && f[i][4..12] != [0, 0, 0, 0, 0, 0, 0, 0])
      && (b < |f| ==> f[b][..4] == [0, 0, 0, 0] && f[b][4..12] != [0, 0, 0, 0, 0, 0, 0, 0])
      && (forall i :: 0 <= i < b ==> f[i][..4] != [0, 0, 0, 0] || f[i][4..12] == [0, 0, 0, 0, 0, 0, 0, 0])
      && (forall i :: 0 <= i < |f| ==>
            if i < b && f[i][..12] == [0, 0, 0, 0, 0, 0, 0, 0, 0, 0, 0, 0]
            then forall k :: 0 <= k < 1024 ==> g[i][k] == 255
            else g[i] == f[i])
  {
    hide StateOf, Sane;
    forall i | 0 <= i < |f|
      ensures StateOf(f[i]) == Active <==> f[i][..4] == [0, 0, 0, 0]
      ensures Sane(f[i]) <==> f[i][4..12] != [0, 0, 0, 0, 0, 0, 0, 0]
      ensures f[i][..12] == [0, 0, 0, 0, 0, 0, 0, 0, 0, 0, 0, 0] <==>
              f[i][..4] == [0, 0, 0, 0] && f[i][4..12] == [0, 0, 0, 0, 0, 0, 0, 0]
    {
      StateBytes(f[i]);
      SaneBytes(f[i]);
      TwelveBytes(f[i]);
    }
  }

  lemma TwelveBytes(s: Sector)
    ensures s[..12] == [0, 0, 0, 0, 0, 0, 0, 0, 0, 0, 0, 0] <==>
            s[..4] == [0, 0, 0, 0] && s[4..12] == [0, 0, 0, 0, 0, 0, 0, 0]
  {
    assert s[..12] == s[..4] + s[4..12];
    assert [0, 0, 0, 0] + [0, 0, 0, 0, 0, 0, 0, 0] == [0, 0, 0, 0, 0, 0, 0, 0, 0, 0, 0, 0];
    assert s[..4] == s[..12][..4] && s[4..12] == s[..12][4..12];
  }

  // ---------- the scanning loops on any bytes ----------

  /** Offsets that a walk from the first entry on passes: each lies below 1014, and the next one behind its payload. */
  ghost predicate Walk(s: Sector, from: nat, offs: seq<nat>) {
    && offs != [] && offs[0] == from
    && (forall i :: 0 <= i < |offs| ==> offs[i] < 1014)
    && (forall i, j :: 0 <= i && j == i + 1 && j < |offs| ==>
          offs[j] == offs[i] + 8 + PayloadLength(s[offs[i] + 2]))
  }

  /** `sanityCheck` goes on behind such an entry. */
  ghost predicate CheckPasses(s: Sector, o: nat)
    requires o < 1014
  {
    && s[o..o + 2] != [255, 255]
    && s[o..o + 8] != [0, 0, 0, 0, 0, 0, 0, 0]
    && s[o + 2] as int + 256 * s[o + 3] as int <= 64
  }

  /** `findEntry` takes such an entry. */
  ghost predicate Taken(s: Sector, o: nat, id: nat)
    requires o < 1014
  {
    && id == s[o] as int + 256 * s[o + 1] as int && s[o..o + 2] != [255, 255]
    && s[o + 4..o + 8] == [255, 255, 0, 0]
    && PayloadLength(s[o + 2]) <= 64
  }

  /** And it goes on behind such an entry. */
  ghost predicate FindPasses(s: Sector, o: nat, id: nat)
    requires o < 1014
  {
    && s[o..o + 2] != [255, 255]
    && (s[o + 4..o + 6] == [255, 255] || s[o + 4..o + 6] == [0, 0])
    && PayloadLength(s[o + 2]) <= 64
    && !Taken(s, o, id)
  }

  /**
   * `sanityCheck` finds the end of the log at `w` exactly if a walk over entries it passes leads to erased bytes there.
   */
  lemma ScanMeansIff(s: Sector, w: nat)
    ensures Scan(s, 4) == Some(w) <==>
            exists offs :: && Walk(s, 4, offs) && offs[|offs| - 1] == w && s[w..w + 2] == [255, 255]
                           && forall i :: 0 <= i < |offs| - 1 ==> CheckPasses(s, offs[i])
  {
    if Scan(s, 4) == Some(w) {
      var offs := ScanWalks(s, 4);
    }
    forall offs | && Walk(s, 4, offs) && offs[|offs| - 1] == w && s[w..w + 2] == [255, 255]
                  && forall i :: 0 <= i < |offs| - 1 ==> CheckPasses(s, offs[i])
      ensures Scan(s, 4) == Some(w)
    {
      WalkScans(s, 4, offs);
    }
  }

  lemma {:induction false} ScanWalks(s: Sector, off: nat) returns (offs: seq<nat>)
    requires Scan(s, off).Some?
    ensures Walk(s, off, offs) && offs[|offs| - 1] == Scan(s, off).value
    ensures var w := Scan(s, off).value; w < 1014 && s[w..w + 2] == [255, 255]
    ensures forall i :: 0 <= i < |offs| - 1 ==> CheckPasses(s, offs[i])
    decreases 1024 - off
  {
    hide Scan, PayloadLength, CheckPasses;
    ScanOnce(s, off);
    if s[off..off + 2] == [255, 255] {
      offs := [off];
    } else {
      var rest := ScanWalks(s, off + 8 + PayloadLength(s[off + 2]));
      offs := [off] + rest;
    }
  }

  lemma {:induction false} WalkScans(s: Sector, off: nat, offs: seq<nat>)
    requires Walk(s, off, offs)
    requires var w := offs[|offs| - 1]; s[w..w + 2] == [255, 255]
    requires forall i :: 0 <= i < |offs| - 1 ==> CheckPasses(s, offs[i])
    ensures Scan(s, off) == Some(offs[|offs| - 1])
    decreases |offs|
  {
    hide Scan, PayloadLength, CheckPasses;
    ScanOnce(s, off);
    if |offs| > 1 {
      assert CheckPasses(s, offs[0]) && offs[1] == off + 8 + PayloadLength(s[off + 2]);
      WalkScans(s, offs[1], offs[1..]);
    }
  }

  /** One turn of the loop of `sanityCheck`. */
  lemma ScanOnce(s: Sector, o: nat)
    ensures o >= 1014 ==> Scan(s, o) == None
    ensures o < 1014 && s[o..o + 2] == [255, 255] ==> Scan(s, o) == Some(o)
    ensures o < 1014 && CheckPasses(s, o) ==> Scan(s, o) == Scan(s, o + 8 + PayloadLength(s[o + 2]))
    ensures o < 1014 && s[o..o + 2] != [255, 255] && !CheckPasses(s, o) ==> Scan(s, o) == None
  {
    if o < 1014 {
      EntryBytes(s, o);
      hide EntryAt, Roundup;
    }
  }

  lemma EntryBytes(s: Sector, o: nat)
    requires o < 1014
    ensures EntryAt(s, o).id == ALL_ONES <==> s[o..o + 2] == [255, 255]
    ensures EntryAt(s, o) == Entry(0, 0, 0, 0) <==> s[o..o + 8] == [0, 0, 0, 0, 0, 0, 0, 0]
    ensures EntryAt(s, o).size == s[o + 2] as int + 256 * s[o + 3] as int
    ensures Roundup(EntryAt(s, o).size) == PayloadLength(s[o + 2])
  {
    hide Roundup, PayloadLength;
    EightBytes(s, o);
    assert s[o..o + 2] == [s[o], s[o + 1]];
    RoundupByte(s[o + 3], s[o + 2]);
  }

  /** `findEntry` finds `id` at `w` exactly if a walk over entries it passes leads to one it takes. */
  lemma FindMeansIff(s: Sector, id: nat, w: nat)
    ensures FindFrom(s, 4, id) == Some(w) <==>
            exists offs :: && Walk(s, 4, offs) && offs[|offs| - 1] == w && Taken(s, w, id)
                           && forall i :: 0 <= i < |offs| - 1 ==> FindPasses(s, offs[i], id)
  {
    if FindFrom(s, 4, id) == Some(w) {
      var offs := FindWalks(s, 4, id);
    }
    forall offs | && Walk(s, 4, offs) && offs[|offs| - 1] == w && Taken(s, w, id)
                  && forall i :: 0 <= i < |offs| - 1 ==> FindPasses(s, offs[i], id)
      ensures FindFrom(s, 4, id) == Some(w)
    {
      WalkFinds(s, 4, id, offs);
    }
  }

  lemma {:induction false} FindWalks(s: Sector, off: nat, id: nat) returns (offs: seq<nat>)
    requires FindFrom(s, off, id).Some?
    ensures Walk(s, off, offs) && offs[|offs| - 1] == FindFrom(s, off, id).value
    ensures FindFrom(s, off, id).value < 1014 && Taken(s, FindFrom(s, off, id).value, id)
    ensures forall i :: 0 <= i < |offs| - 1 ==> FindPasses(s, offs[i], id)
    decreases 1024 - off
  {
    hide FindFrom, Taken, FindPasses, PayloadLength;
    FindOnce(s, off, id);
    if Taken(s, off, id) {
      offs := [off];
    } else {
      var rest := FindWalks(s, off + 8 + PayloadLength(s[off + 2]), id);
      offs := [off] + rest;
    }
  }

  lemma {:induction false} WalkFinds(s: Sector, off: nat, id: nat, offs: seq<nat>)
    requires Walk(s, off, offs) && Taken(s, offs[|offs| - 1], id)
    requires forall i :: 0 <= i < |offs| - 1 ==> FindPasses(s, offs[i], id)
    ensures FindFrom(s, off, id) == Some(offs[|offs| - 1])
    decreases |offs|
  {
    hide FindFrom, Taken, FindPasses, PayloadLength;
    FindOnce(s, off, id);
    if |offs| > 1 {
      assert FindPasses(s, offs[0], id) && offs[1] == off + 8 + PayloadLength(s[off + 2]);
      WalkFinds(s, offs[1], id, offs[1..]);
    }
  }

  /** One turn of the loop of `findEntry`. */
  lemma FindOnce(s: Sector, o: nat, id: nat)
    ensures o >= 1014 ==> FindFrom(s, o, id) == None
    ensures o < 1014 && Taken(s, o, id) ==> FindFrom(s, o, id) == Some(o)
    ensures o < 1014 && FindPasses(s, o, id) ==> FindFrom(s, o, id) == FindFrom(s, o + 8 + PayloadLength(s[o + 2]), id)
    ensures o < 1014 && !Taken(s, o, id) && !FindPasses(s, o, id) ==> FindFrom(s, o, id) == None
  {
    hide Roundup, PayloadLength;
    if o < 1014 {
      assert s[o..o + 2] == [s[o], s[o + 1]];
      assert s[o + 4..o + 6] == [s[o + 4], s[o + 5]];
      assert s[o + 4..o + 8] == [s[o + 4], s[o + 5], s[o + 6], s[o + 7]];
      RoundupByte(s[o + 3], s[o + 2]);
    }
  }

  // ---------- a log, byte by byte ----------

  /** An entry: id, size, state and `validated`, each with its low byte first, then the payload. */
  function SlotBytes(x: Slot): (r: seq<byte>)
    ensures |r| == 8 + |x.payload|
  {
    [x.id % 256, x.id / 256, x.size % 256, x.size / 256,
     x.state % 256, x.state / 256, x.validated % 256, x.validated / 256] + x.payload
  }

  function LogBytes(slots: seq<Slot>): seq<byte> {
    if slots == [] then [] else LogBytes(slots[..|slots| - 1]) + SlotBytes(slots[|slots| - 1])
  }

  lemma SlotAtBytes(s: Sector, x: Slot, off: nat)
    requires off + 8 + |x.payload| <= 1024
    ensures SlotAt(s, x, off) <==> s[off..off + 8 + |x.payload|] == SlotBytes(x)
  {
    var here, n := s[off..off + 8 + |x.payload|], |x.payload|;
    EightBytes(s, off);
    assert here == s[off..off + 8] + s[off + 8..off + 8 + n];
    HalfBytes(s[off], s[off + 1], x.id);
    HalfBytes(s[off + 2], s[off + 3], x.size);
    HalfBytes(s[off + 4], s[off + 5], x.state);
    HalfBytes(s[off + 6], s[off + 7], x.validated);
    if here == SlotBytes(x) {
      assert s[off..off + 8] == here[..8] == SlotBytes(x)[..8];
      assert s[off + 8..off + 8 + n] == here[8..] == SlotBytes(x)[8..] == x.payload;
    }
  }

  lemma HalfBytes(lo: byte, hi: byte, v: half)
    ensures lo as int + 256 * hi as int == v <==> lo == v % 256 && hi == v / 256
  {
  }

  lemma LogBytesLength(slots: seq<Slot>)
    requires AllOk(slots)
    ensures End(slots) == 4 + |LogBytes(slots)|
  {
    if slots != [] {
      var init := slots[..|slots| - 1];
      LogBytesLength(init);
      OffBySizes(slots, init, |init|);
    }
  }

  lemma LogIsSnoc(s: Sector, slots: seq<Slot>)
    requires AllOk(slots) && slots != []
    ensures var n := |slots| - 1; LogIs(s, slots) <==> LogIs(s, slots[..n]) && SlotAt(s, slots[n], End(slots[..n]))
    ensures LogBytes(slots) == LogBytes(slots[..|slots| - 1]) + SlotBytes(slots[|slots| - 1])
  {
    hide LogIs, SlotAt, Off, AllOk;
    if LogIs(s, slots) {
      LogWithoutLast(s, slots);
    }
    if LogIs(s, slots[..|slots| - 1]) && SlotAt(s, slots[|slots| - 1], End(slots[..|slots| - 1])) {
      LogWithLast(s, slots);
    }
  }

  /** The offsets of the slots do not depend on the last one, and the end is behind it. */
  lemma SameOffsets(slots: seq<Slot>, i: nat)
    requires slots != [] && i < |slots|
    ensures var init := slots[..|slots| - 1];
      Off(slots, i) == Off(init, i) && End(slots) == End(init) + Foot(slots[|slots| - 1])
  {
    OffBySizes(slots, slots[..|slots| - 1], i);
    OffBySizes(slots, slots[..|slots| - 1], |slots| - 1);
  }

  lemma LogWithoutLast(s: Sector, slots: seq<Slot>)
    requires slots != [] && LogIs(s, slots)
    ensures var n := |slots| - 1; LogIs(s, slots[..n]) && SlotAt(s, slots[n], End(slots[..n]))
  {
    hide SlotAt, Off, SlotOk;
    var n := |slots| - 1;
    var init := slots[..n];
    SameOffsets(slots, n);
    assert SlotAt(s, slots[n], Off(slots, n));
    forall i {:trigger SlotAt(s, init[i], Off(init, i))} | 0 <= i < n ensures SlotAt(s, init[i], Off(init, i)) {
      SameOffsets(slots, i);
      assert SlotAt(s, slots[i], Off(slots, i));
    }
  }

  lemma LogWithLast(s: Sector, slots: seq<Slot>)
    requires AllOk(slots) && slots != []
    requires LogIs(s, slots[..|slots| - 1]) && SlotAt(s, slots[|slots| - 1], End(slots[..|slots| - 1]))
    ensures LogIs(s, slots)
  {
    SlotEnds(s, slots[|slots| - 1], End(slots[..|slots| - 1]));
    assert SlotOk(slots[|slots| - 1]);
    hide SlotAt, Off, SlotOk;
    var n := |slots| - 1;
    var init := slots[..n];
    SameOffsets(slots, n);
    forall i {:trigger SlotAt(s, slots[i], Off(slots, i))} | 0 <= i <= n ensures SlotAt(s, slots[i], Off(slots, i)) {
      SameOffsets(slots, i);
      assert i < n ==> SlotAt(s, init[i], Off(init, i));
    }
  }

  lemma SlotEnds(s: Sector, x: Slot, off: nat)
    requires SlotAt(s, x, off)
    ensures off + 8 + |x.payload| <= 1024
  {
  }

  lemma Joined(s: Sector, mid: nat, end: nat, a: seq<byte>, b: seq<byte>)
    requires mid == 4 + |a| && end == mid + |b| <= 1024
    ensures s[4..end] == a + b <==> s[4..mid] == a && s[mid..end] == b
  {
    assert s[4..end] == s[4..mid] + s[mid..end];
    assert s[4..mid] == s[4..end][..|a|] && s[mid..end] == s[4..end][|a|..];
  }

  lemma {:induction false} LogIsBytes(s: Sector, slots: seq<Slot>)
    requires AllOk(slots)
    ensures LogIs(s, slots) <==> 4 + |LogBytes(slots)| <= 1024 && s[4..4 + |LogBytes(slots)|] == LogBytes(slots)
  {
    if slots == [] {
      assert s[4..4] == [];
    } else {
      var n := |slots| - 1;
      LogIsBytes(s, slots[..n]);
      LogBytesLength(slots[..n]);
      LogBytesLength(slots);
      LogIsSnoc(s, slots);
      hide LogIs, LogBytes, SlotBytes, SlotAt, Off;
      if 4 + |LogBytes(slots)| <= 1024 {
        SlotAtBytes(s, slots[n], End(slots[..n]));
        Joined(s, End(slots[..n]), End(slots), LogBytes(slots[..n]), SlotBytes(slots[n]));
      }
    }
  }

  /**
   * An image holds a log exactly if, in the lowest sector that begins with four zeroes, the bytes of its entries follow
   * end to end, and behind them, below 1014, erased bytes only or a lone id.
   */
  lemma HoldsBytesIff(f: Flash, c: nat, slots: seq<Slot>, torn: Option<half>)
    ensures Holds(f, c, slots, torn) <==>
      && c < |f| && f[c][..4] == [0, 0, 0, 0]
      && (forall j :: 0 <= j < c ==> f[j][..4] != [0, 0, 0, 0])
      && (forall i :: 0 <= i < |slots| ==>
            && 0 < slots[i].id < 65535 && slots[i].size <= 64
            && |slots[i].payload| == slots[i].size + slots[i].size % 2
            && (slots[i].state == 0 || slots[i].state == 65535)
            && (slots[i].validated == 0 || slots[i].validated == 65535))
      && var end := 4 + |LogBytes(slots)|;
      && end < 1014 && f[c][4..end] == LogBytes(slots)
      && match torn
         case None => forall b :: end <= b < 1024 ==> f[c][b] == 255
         case Some(id) =>
           && 0 < id < 65535 && f[c][end..end + 2] == [id % 256, id / 256]
           && forall b :: end + 2 <= b < 1024 ==> f[c][b] == 255
  {
    hide StateOf, LogBytes, LogIs, Off, Roundup;
    forall s: Sector ensures StateOf(s) == Active <==> s[..4] == [0, 0, 0, 0] {
      StateBytes(s);
    }
    forall x: Slot ensures x.size <= 64 ==> Roundup(x.size) == x.size + x.size % 2 {
      RoundupMeans(x.size);
    }
    if AllOk(slots) && c < |f| {
      LogIsBytes(f[c], slots);
      LogBytesLength(slots);
      var end := End(slots);
      if torn.Some? && end + 2 <= 1024 {
        assert f[c][end..end + 2] == [f[c][end], f[c][end + 1]];
        HalfBytes(f[c][end], f[c][end + 1], torn.value);
      }
    }
    assert Holds(f, c, slots, torn) ==> AllOk(slots) by {
      AllOkInLog(f, c, slots, torn);
    }
  }

  lemma AllOkInLog(f: Flash, c: nat, slots: seq<Slot>, torn: Option<half>)
    ensures Holds(f, c, slots, torn) ==> AllOk(slots)
  {
  }

  /**
   * What a log says about an id is the value of the first entry with it that is live: state erased, `validated` zero.
   */
  lemma LookupMeansIff(slots: seq<Slot>, id: nat, v: seq<byte>)
    requires AllOk(slots)
    ensures Lookup(slots, id) == Some(v) <==>
            exists i :: && 0 <= i < |slots| && slots[i].id == id && slots[i].state == 65535 && slots[i].validated == 0
                        && v == slots[i].payload[..slots[i].size]
                        && forall j :: 0 <= j < i && slots[j].id == id ==>
                             slots[j].state != 65535 || slots[j].validated != 0
  {
    var r := First(slots, id, 0);
    if r < |slots| {
      forall i | && 0 <= i < |slots| && slots[i].id == id && slots[i].state == 65535 && slots[i].validated == 0
                 && forall j :: 0 <= j < i && slots[j].id == id ==> slots[j].state != 65535 || slots[j].validated != 0
        ensures i == r
      {
        FirstIs(slots, id, i);
      }
    }
  }

  function Zeroed(s: seq<byte>, at: nat): (r: seq<byte>)
    requires at + 1 < |s|
    ensures |r| == |s|
  {
    s[at := 0][at + 1 := 0]
  }

  lemma ZeroedLeft(a: seq<byte>, b: seq<byte>, at: nat)
    requires at + 1 < |a|
    ensures Zeroed(a + b, at) == Zeroed(a, at) + b
  {
  }

  lemma ZeroedRight(a: seq<byte>, b: seq<byte>, at: nat)
    requires at + 1 < |b|
    ensures Zeroed(a + b, |a| + at) == a + Zeroed(b, at)
  {
  }

  lemma KilledSlot(x: Slot)
    ensures SlotBytes(x.(state := 0)) == Zeroed(SlotBytes(x), 4)
  {
  }

  /** Killing an entry zeroes its two state bytes. */
  lemma {:induction false} KilledBytes(slots: seq<Slot>, i: nat)
    requires AllOk(slots) && i < |slots|
    ensures Off(slots, i) + 8 <= 4 + |LogBytes(slots)|
    ensures LogBytes(slots[i := slots[i].(state := 0)]) == Zeroed(LogBytes(slots), Off(slots, i))
  {
    hide Zeroed, SlotBytes;
    var n := |slots| - 1;
    var init, killed := slots[..n], slots[i := slots[i].(state := 0)];
    OffBySizes(slots, init, i);
    LogBytesLength(init);
    if i < n {
      KilledBytes(init, i);
      assert killed[..n] == init[i := init[i].(state := 0)] && killed[n] == slots[n];
      ZeroedLeft(LogBytes(init), SlotBytes(slots[n]), Off(init, i));
    } else {
      assert killed[..n] == init;
      KilledSlot(slots[n]);
      ZeroedRight(LogBytes(init), SlotBytes(slots[n]), 4);
    }
  }

  lemma AppendedBytes(s: Sector, slots: seq<Slot>, x: Slot)
    requires AllOk(slots + [x]) && LogIs(s, slots + [x])
    ensures var end, n := 4 + |LogBytes(slots)|, 8 + |x.payload|;
      && End(slots + [x]) == end + n <= 1024 && s[4..end] == LogBytes(slots) && s[end..end + n] == SlotBytes(x)
  {
    var all := slots + [x];
    assert all[..|slots|] == slots && all[|slots|] == x && |all| - 1 == |slots|;
    LogIsBytes(s, all);
    LogBytesLength(all);
    assert LogBytes(all) == LogBytes(slots) + SlotBytes(x);
    hide LogIs, LogBytes, SlotBytes, Off;
    Joined(s, 4 + |LogBytes(slots)|, 4 + |LogBytes(slots)| + 8 + |x.payload|, LogBytes(slots), SlotBytes(x));
  }

  /**
   * What one write of a new entry does to the bytes of its sector: the entry lies behind the log, all of it; the two
   * state bytes of the entry `findEntry` found for the id before, if there was one, are zero; nothing else changes.
   */
  lemma WrittenBytes(f: Flash, g: Flash, c: nat, log: seq<Slot>, x: Slot)
    requires Holds(f, c, log, None) && c < |g| && Holds(g, c, AfterWrite(log, x), None)
    requires x.state == 65535 && x.validated == 0
    ensures var end, n := End(log), |x.payload|;
      && end + 8 + n < 1014
      && g[c][end..end + 8 + n] == [x.id % 256, x.id / 256, x.size % 256, x.size / 256, 255, 255, 0, 0] + x.payload
      && (forall b :: end + 8 + n <= b < 1024 ==> g[c][b] == 255)
      && match FindFrom(f[c], 4, x.id)
         case None => forall b :: 0 <= b < end ==> g[c][b] == f[c][b]
         case Some(o) =>
           && 4 <= o && o + 8 <= end
           && forall b :: 0 <= b < end ==> g[c][b] == if b == o + 4 || b == o + 5 then 0 else f[c][b]
  {
    hide Holds, FindFrom, LogBytes, First, Off, AllOk, LogIs, Zeroed, Live, SlotAt, SlotOk, Roundup, Foot;
    HeldParts(f, c, log, x.id);
    HeldParts(g, c, AfterWrite(log, x), x.id);
    LogIsBytes(f[c], log);
    LogBytesLength(log);
    var i := First(log, x.id, 0);
    if i < |log| {
      WrittenOver(f[c], g[c], log, x, i);
    } else {
      AppendedBytes(g[c], log, x);
      SameBelow(f[c], g[c], End(log));
    }
  }

  lemma WrittenOver(s: Sector, t: Sector, log: seq<Slot>, x: Slot, i: nat)
    requires i < |log| && AllOk(log) && LogIs(s, log) && s[..4] == t[..4] && End(log) < 1014
    requires var after := log[i := log[i].(state := 0)] + [x]; AllOk(after) && LogIs(t, after)
    ensures var end, n, o := End(log), |x.payload|, Off(log, i);
      && 4 <= o && o + 8 <= end && End(log[i := log[i].(state := 0)] + [x]) == end + 8 + n <= 1024
      && t[end..end + 8 + n] == SlotBytes(x)
      && forall b :: 0 <= b < end ==> t[b] == if b == o + 4 || b == o + 5 then 0 else s[b]
  {
    hide LogBytes, Off, AllOk, LogIs, Zeroed, SlotBytes;
    LogIsBytes(s, log);
    LogBytesLength(log);
    KilledBytes(log, i);
    AppendedBytes(t, log[i := log[i].(state := 0)], x);
    ZeroedAt(s, t, End(log), Off(log, i));
  }

  lemma ZeroedAt(s: Sector, t: Sector, end: nat, o: nat)
    requires s[..4] == t[..4] && 4 <= o && o + 8 <= end <= 1024 && t[4..end] == Zeroed(s[4..end], o)
    ensures forall b :: 0 <= b < end ==> t[b] == if b == o + 4 || b == o + 5 then 0 else s[b]
  {
    forall b | 0 <= b < end ensures t[b] == if b == o + 4 || b == o + 5 then 0 else s[b] {
      if b < 4 {
        assert t[..4][b] == s[..4][b];
      } else {
        assert t[4..end][b - 4] == Zeroed(s[4..end], o)[b - 4];
      }
    }
  }

  lemma SameBelow(s: Sector, t: Sector, end: nat)
    requires s[..4] == t[..4] && 4 <= end <= 1024 && t[4..end] == s[4..end]
    ensures forall b :: 0 <= b < end ==> t[b] == s[b]
  {
    forall b | 0 <= b < end ensures t[b] == s[b] {
      if b < 4 {
        assert t[..4][b] == s[..4][b];
      } else {
        assert t[4..end][b - 4] == s[4..end][b - 4];
      }
    }
  }

  lemma HeldParts(f: Flash, c: nat, slots: seq<Slot>, id: nat)
    requires Holds(f, c, slots, None)
    ensures c < |f| && AllOk(slots) && LogIs(f[c], slots) && End(slots) < 1014 && f[c][..4] == [0, 0, 0, 0]
    ensures forall b :: End(slots) <= b < 1024 ==> f[c][b] == 255
    ensures FindFrom(f[c], 4, id) == if First(slots, id, 0) < |slots| then Some(Off(slots, First(slots, id, 0)))
            else None
  {
    FindFindsFirst(f[c], slots, None, id);
    StateBytes(f[c]);
  }
}
