/**
 * What a fresh object sees after a power loss, and why every flash image
 * met during a write or a garbage collection is good.
 */
module NvmRecovery {
  import opened Common
  import opened NvmLayout
  import opened NvmLog

  /** The lowest Active sector is `c`; it holds the log `slots`, perhaps followed by a torn header. */
  ghost predicate Holds(f: Flash, c: nat, slots: seq<Slot>, torn: Option<half>) {
    && c < |f|
    && StateOf(f[c]) == Active
    && (forall j :: 0 <= j < c ==> StateOf(f[j]) != Active)
    && LogIs(f[c], slots)
    && End(slots) < SCAN_LIMIT
    && TailIs(f[c], End(slots), torn)
  }

  lemma FirstEntryIsSane(s: Sector, slots: seq<Slot>, torn: Option<half>)
    requires LogIs(s, slots) && End(slots) < SCAN_LIMIT && TailIs(s, End(slots), torn)
    ensures Sane(s)
  {
    if slots != [] {
      assert SlotAt(s, slots[0], Off(slots, 0));
    } else {
      assert U16(s, 4) != 0;
    }
  }

  /**
   * A fresh object mounts the held sector, finds the end of the log unless
   * the tail is torn, and reads what the log says.
   */
  lemma HeldIsRead(f: Flash, c: nat, slots: seq<Slot>, torn: Option<half>)
    requires Holds(f, c, slots, torn)
    ensures BootFrom(f, 0) == c
    ensures BootWriteIndex(f) == if torn.None? then End(slots) else 0
    ensures forall id: nat :: ReadBack(f, id) == Lookup(slots, id)
  {
    FirstEntryIsSane(f[c], slots, torn);
    ScanFindsEnd(f[c], slots, torn, 0);
    forall id: nat ensures ReadBack(f, id) == Lookup(slots, id) {
      HeldIdIsRead(f, c, slots, torn, id);
    }
  }

  lemma HeldIdIsRead(f: Flash, c: nat, slots: seq<Slot>, torn: Option<half>, id: nat)
    requires Holds(f, c, slots, torn)
    ensures ReadBack(f, id) == Lookup(slots, id)
  {
    hide TailIs, EntryAt, FindFrom, SlotAt, LiveIds;
    FirstEntryIsSane(f[c], slots, torn);
    assert BootFrom(f, 0) == c;
    FoundInLog(f[c], slots, torn, id);
    ContentsIsLookup(slots, id);
  }

  /** What `findEntry` returns on a log is what the map has: the entry of the value, or nothing. */
  lemma FoundInLog(s: Sector, slots: seq<Slot>, torn: Option<half>, id: nat)
    requires LogIs(s, slots) && End(slots) < SCAN_LIMIT && TailIs(s, End(slots), torn)
    ensures id in Contents(slots) <==> FindFrom(s, 4, id).Some?
    ensures id in Contents(slots) ==>
              var off, v := FindFrom(s, 4, id).value, Contents(slots)[id];
              id > 0 && EntryAt(s, off).size == |v| && off + 8 + |v| <= SECTOR_SIZE && s[off + 8..off + 8 + |v|] == v
  {
    FindFindsFirst(s, slots, torn, id);
    ContentsIsLookup(slots, id);
    var i := First(slots, id, 0);
    if i < |slots| {
      assert SlotAt(s, slots[i], Off(slots, i));
      PayloadPrefix(s, slots[i], Off(slots, i));
    }
  }

  /** What the copying loop reads at slot `i`. */
  lemma SlotRead(s: Sector, slots: seq<Slot>, i: nat)
    requires LogIs(s, slots) && i < |slots|
    ensures SlotOk(slots[i]) && Off(slots, i + 1) == Off(slots, i) + Foot(slots[i]) <= End(slots) <= SECTOR_SIZE
    ensures EntryAt(s, Off(slots, i)) == Entry(slots[i].id, slots[i].size, slots[i].state, slots[i].validated)
    ensures s[Off(slots, i) + 8..Off(slots, i) + 8 + slots[i].size] == Value(slots[i])
  {
    OffMonotone(slots, i, |slots|);
    assert SlotAt(s, slots[i], Off(slots, i));
    PayloadPrefix(s, slots[i], Off(slots, i));
  }

  /** One more slot dealt with: copied when it is live, dropped when it is not. */
  lemma CopyStep(slots: seq<Slot>, i: nat, copied: seq<Slot>, y: Slot)
    requires i < |slots| && SameRecords(copied, LiveSlots(slots[..i]))
    ensures !Live(slots[i]) ==> SameRecords(copied, LiveSlots(slots[..i + 1]))
    ensures Live(slots[i]) && SameRecord(y, slots[i]) ==> SameRecords(copied + [y], LiveSlots(slots[..i + 1]))
  {
    assert slots[..i + 1][..i] == slots[..i];
  }

  lemma CopiedLog(s: Sector, t: Sector, slots: seq<Slot>, y: Slot)
    requires LogIs(s, slots) && SlotOk(y) && End(slots) + Foot(y) <= SECTOR_SIZE
    requires forall b :: 0 <= b < End(slots) ==> t[b] == s[b]
    requires EntryAt(t, End(slots)) == Entry(y.id, y.size, y.state, y.validated)
    requires t[End(slots) + 8..End(slots) + 8 + |y.payload|] == y.payload
    ensures LogIs(t, slots + [y]) && End(slots + [y]) == End(slots) + Foot(y)
  {
    AppendedLog(s, t, slots, y);
  }

  lemma PayloadPrefix(s: Sector, x: Slot, off: nat)
    requires SlotOk(x) && SlotAt(s, x, off)
    ensures off + 8 + x.size <= SECTOR_SIZE && s[off + 8..off + 8 + x.size] == Value(x)
  {
    assert s[off + 8..off + 8 + |x.payload|][..x.size] == s[off + 8..off + 8 + x.size];
  }

  // ---------- a write, half-word by half-word ----------

  function Blank(n: nat): seq<byte> {
    seq(n, _ => 255)
  }

  /** The flash with slot `x` behind the log. */
  lemma HoldsAppended(f: Flash, c: nat, slots: seq<Slot>, t: Sector, x: Slot)
    requires Holds(f, c, slots, None) && SlotOk(x)
    requires End(slots) + Foot(x) < SCAN_LIMIT
    requires forall b :: 0 <= b < End(slots) ==> t[b] == f[c][b]
    requires SlotAt(t, x, End(slots)) && BlankFrom(t, End(slots) + Foot(x))
    ensures Holds(f[c := t], c, slots + [x], None)
  {
    AppendedLog(f[c], t, slots, x);
    assert StateOf(t) == StateOf(f[c]);
  }

  /**
   * Power loss inside the header: after one half-word the header is torn, whether or not there is room for the entry.
   */
  lemma HeaderTorn(f: Flash, c: nat, slots: seq<Slot>, id: half, size: half)
    requires Holds(f, c, slots, None) && 0 < id < ALL_ONES
    ensures Holds(f[c := Overlay(f[c], End(slots), HeaderBytes(Entry(id, size, ALL_ONES, ALL_ONES))[..2])],
                  c, slots, Some(id))
  {
    var w := End(slots);
    var t := Overlay(f[c], w, HeaderBytes(Entry(id, size, ALL_ONES, ALL_ONES))[..2]);
    SameLog(f[c], t, slots);
    assert U16(t, w) == id;
  }

  /** Later on it is a dead entry. */
  lemma HeaderCut(f: Flash, c: nat, slots: seq<Slot>, id: half, size: half, k: nat)
    requires Holds(f, c, slots, None) && 0 < id < ALL_ONES && size <= MAX_PAYLOAD && 2 <= k <= 4
    requires HasRoom(slots, size)
    ensures Holds(f[c := Overlay(f[c], End(slots), HeaderBytes(Entry(id, size, ALL_ONES, ALL_ONES))[..2 * k])], c,
                  slots + [Slot(id, size, ALL_ONES, ALL_ONES, Blank(Roundup(size)))], None)
  {
    var w := End(slots);
    var t := Overlay(f[c], w, HeaderBytes(Entry(id, size, ALL_ONES, ALL_ONES))[..2 * k]);
    var x := Slot(id, size, ALL_ONES, ALL_ONES, Blank(Roundup(size)));
    HeaderBytesAt(f[c], t, w, id, size, k);
    assert t[w + 8..w + 8 + |x.payload|] == x.payload;
    HoldsAppended(f, c, slots, t, x);
  }

  lemma HeaderBytesAt(s: Sector, t: Sector, w: nat, id: half, size: half, k: nat)
    requires 2 <= k <= 4 && w + 8 <= SECTOR_SIZE && BlankFrom(s, w)
    requires t == Overlay(s, w, HeaderBytes(Entry(id, size, ALL_ONES, ALL_ONES))[..2 * k])
    ensures EntryAt(t, w) == Entry(id, size, ALL_ONES, ALL_ONES)
    ensures BlankFrom(t, w + 8)
  {
    var h := HeaderBytes(Entry(id, size, ALL_ONES, ALL_ONES));
    assert h[0] == id % 256 && h[1] == id / 256 && h[2] == size % 256 && h[3] == size / 256;
    assert h[4] == 255 && h[5] == 255 && h[6] == 255 && h[7] == 255;
    assert forall b :: w <= b < w + 2 * k ==> t[b] == h[b - w];
    assert t[w] == h[0] && t[w + 1] == h[1] && t[w + 2] == h[2] && t[w + 3] == h[3];
    assert t[w + 4] == 255 && t[w + 5] == 255 && t[w + 6] == 255 && t[w + 7] == 255;
  }

  lemma SameLog(s: Sector, t: Sector, slots: seq<Slot>)
    requires LogIs(s, slots)
    requires forall b :: 0 <= b < End(slots) ==> t[b] == s[b]
    ensures LogIs(t, slots)
  {
    forall i {:trigger SlotAt(t, slots[i], Off(slots, i))} | 0 <= i < |slots|
      ensures SlotAt(t, slots[i], Off(slots, i))
    {
      OffMonotone(slots, i, |slots|);
      assert SlotAt(s, slots[i], Off(slots, i));
      SameSlotAt(s, t, slots[i], Off(slots, i));
    }
  }

  /** Power loss inside the payload: the entry is dead, whatever part of the payload it has. */
  lemma PayloadCut(f: Flash, c: nat, slots: seq<Slot>, t: Sector, id: half, size: half, data: seq<byte>, k: nat)
    requires Holds(f, c, slots, None) && 0 < id < ALL_ONES && size <= MAX_PAYLOAD
    requires |data| == Roundup(size) && 2 * k <= |data|
    requires HasRoom(slots, size)
    requires forall b :: 0 <= b < End(slots) ==> t[b] == f[c][b]
    requires EntryAt(t, End(slots)) == Entry(id, size, ALL_ONES, ALL_ONES) && BlankFrom(t, End(slots) + 8)
    ensures Holds(f[c := Overlay(t, End(slots) + 8, data[..2 * k])], c,
                  slots + [Slot(id, size, ALL_ONES, ALL_ONES, data[..2 * k] + Blank(Roundup(size) - 2 * k))], None)
  {
    var w := End(slots);
    var u := Overlay(t, w + 8, data[..2 * k]);
    var x := Slot(id, size, ALL_ONES, ALL_ONES, data[..2 * k] + Blank(Roundup(size) - 2 * k));
    OverlayBytes(t, w + 8, data[..2 * k]);
    assert u[w + 8..w + 8 + |x.payload|] == x.payload;
    HoldsAppended(f, c, slots, u, x);
  }

  lemma OverlayBytes(s: Sector, off: nat, data: seq<byte>)
    requires off + |data| <= SECTOR_SIZE
    ensures forall b :: 0 <= b < off || off + |data| <= b < SECTOR_SIZE ==> Overlay(s, off, data)[b] == s[b]
    ensures forall b :: off <= b < off + |data| ==> Overlay(s, off, data)[b] == data[b - off]
    ensures Overlay(s, off, data)[off..off + |data|] == data
  {
  }

  /** Power loss right after the `validated` half-word: the new entry is live. */
  lemma ValidateCut(f: Flash, c: nat, slots: seq<Slot>, t: Sector, id: half, size: half, data: seq<byte>)
    requires Holds(f, c, slots, None) && 0 < id < ALL_ONES && size <= MAX_PAYLOAD
    requires |data| == Roundup(size)
    requires HasRoom(slots, size)
    requires forall b :: 0 <= b < End(slots) ==> t[b] == f[c][b]
    requires EntryAt(t, End(slots)) == Entry(id, size, ALL_ONES, ALL_ONES)
    requires t[End(slots) + 8..End(slots) + 8 + |data|] == data && BlankFrom(t, End(slots) + 8 + |data|)
    ensures Holds(f[c := Overlay(t, End(slots) + 6, [0, 0])], c, slots + [Slot(id, size, ALL_ONES, 0, data)], None)
  {
    hide Overlay, EntryAt, BlankFrom, Off, LogIs, TailIs;
    var u := Overlay(t, End(slots) + 6, [0, 0]);
    ValidatedBytes(t, u, End(slots), id, size, data);
    HoldsAppended(f, c, slots, u, Slot(id, size, ALL_ONES, 0, data));
  }

  lemma ValidatedBytes(t: Sector, u: Sector, w: nat, id: half, size: half, data: seq<byte>)
    requires w + 8 + |data| <= SECTOR_SIZE && u == Overlay(t, w + 6, [0, 0])
    requires EntryAt(t, w) == Entry(id, size, ALL_ONES, ALL_ONES)
    requires t[w + 8..w + 8 + |data|] == data && BlankFrom(t, w + 8 + |data|)
    ensures forall b :: 0 <= b < w ==> u[b] == t[b]
    ensures EntryAt(u, w) == Entry(id, size, ALL_ONES, 0)
    ensures u[w + 8..w + 8 + |data|] == data && BlankFrom(u, w + 8 + |data|)
  {
    OverlayBytes(t, w + 6, [0, 0]);
    hide Overlay;
    forall i | 0 <= i < |data| ensures u[w + 8 + i] == data[i] {
      assert t[w + 8..w + 8 + |data|][i] == data[i];
    }
  }

  /** Power loss right after the old entry's `state` half-word: the write is complete. */
  lemma KillCut(f: Flash, c: nat, slots: seq<Slot>, i: nat)
    requires Holds(f, c, slots, None) && i < |slots|
    ensures Off(slots, i) + 6 <= SECTOR_SIZE
    ensures Holds(f[c := Overlay(f[c], Off(slots, i) + 4, [0, 0])], c, slots[i := slots[i].(state := 0)], None)
  {
    hide LogIs, Off, Overlay, StateOf, BlankFrom, AllOk, SlotAt;
    KilledLog(f[c], slots, i);
    var o := Off(slots, i);
    var t := Overlay(f[c], o + 4, [0, 0]);
    SameAround(f[c], t, o + 4, End(slots));
    StillBlank(f[c], t, End(slots));
  }

  lemma StillBlank(s: Sector, t: Sector, end: nat)
    requires BlankFrom(s, end) && forall b :: end <= b < SECTOR_SIZE ==> t[b] == s[b]
    ensures BlankFrom(t, end)
  {
  }

  /** Two zero bytes between the state of a sector and the end of its log. */
  lemma SameAround(s: Sector, t: Sector, at: nat, end: nat)
    requires 4 <= at && at + 2 <= end <= SECTOR_SIZE && t == Overlay(s, at, [0, 0])
    ensures StateOf(t) == StateOf(s)
    ensures forall b :: end <= b < SECTOR_SIZE ==> t[b] == s[b]
  {
  }

  // ---------- garbage collection ----------

  /** Only sector `other` differs from `f`, and it is not Active. */
  ghost predicate Building(f: Flash, g: Flash, other: nat) {
    && |g| == |f| && other < |f|
    && (forall j :: 0 <= j < |f| && j != other ==> g[j] == f[j])
    && StateOf(g[other]) != Active
  }

  /** While the next sector is being filled, the current one is what `begin` mounts. */
  lemma BuildingIsInvisible(f: Flash, g: Flash, c: nat, slots: seq<Slot>, torn: Option<half>, other: nat)
    requires Holds(f, c, slots, torn) && Building(f, g, other) && other != c
    ensures Holds(g, c, slots, torn)
  {
  }

  /** The sector after `c`, as garbage collection picks it. */
  function Next(c: nat, n: nat): (r: nat)
    requires c < n && n >= 2
    ensures r < n && r != c
    ensures r == c + 1 || (r == 0 && c == n - 1)
  {
    (c + 1) % n
  }

  /** With two Active sectors `begin` mounts the lower one, which is the old log or, after the last sector, its copy. */
  lemma BothActive(f: Flash, g: Flash, c: nat, slots: seq<Slot>, copied: seq<Slot>)
    requires Holds(f, c, slots, None) && |f| >= 2
    requires |g| == |f| && forall j :: 0 <= j < |f| && j != Next(c, |f|) ==> g[j] == f[j]
    requires var o := Next(c, |f|);
      StateOf(g[o]) == Active && LogIs(g[o], copied) && End(copied) < SCAN_LIMIT && BlankFrom(g[o], End(copied))
    ensures Next(c, |f|) > c ==> Holds(g, c, slots, None)
    ensures Next(c, |f|) < c ==> Holds(g, 0, copied, None)
  {
  }

  /** Once the old sector is erased the copy is what `begin` mounts, whichever way round the two lie. */
  lemma OldErased(f: Flash, g: Flash, c: nat, slots: seq<Slot>, copied: seq<Slot>)
    requires Holds(f, c, slots, None) && |f| >= 2
    requires |g| == |f| && forall j :: 0 <= j < |f| && j != Next(c, |f|) && j != c ==> g[j] == f[j]
    requires g[c] == BlankSector()
    requires var o := Next(c, |f|);
      StateOf(g[o]) == Active && LogIs(g[o], copied) && End(copied) < SCAN_LIMIT && BlankFrom(g[o], End(copied))
    ensures Holds(g, Next(c, |f|), copied, None)
  {
    assert StateOf(g[c]) == Erased;
  }

  // ---------- images along the way ----------

  /** A power loss at image `g` keeps the records `l`; and afterwards a fresh object can write exactly if `writable`. */
  ghost predicate GoodImage(g: Flash, l: seq<Record>, writable: bool) {
    exists c, slots, torn :: Holds(g, c, slots, torn) && Records(slots) == l && (torn.None? <==> writable)
  }

  lemma HeldIsGood(g: Flash, c: nat, slots: seq<Slot>, torn: Option<half>)
    requires Holds(g, c, slots, torn)
    ensures GoodImage(g, Records(slots), torn.None?)
  {
  }

  /**
   * Good means: a fresh object's `begin` succeeds, every id reads as in the records, and there is a write index or not.
   */
  lemma GoodMeans(g: Flash, l: seq<Record>, writable: bool)
    requires GoodImage(g, l, writable)
    ensures BootFrom(g, 0) < |g|
    ensures forall id: nat :: ReadBack(g, id) == Find(l, id)
    ensures BootWriteIndex(g) != 0 <==> writable
  {
    var c, slots, torn :| Holds(g, c, slots, torn) && Records(slots) == l && (torn.None? <==> writable);
    HeldIsRead(g, c, slots, torn);
    hide Holds;
    forall id: nat ensures ReadBack(g, id) == Find(l, id) {
      RecordsSayAll(slots, id);
    }
  }

  lemma Holder(g: Flash, l: seq<Record>, writable: bool) returns (c: nat, slots: seq<Slot>, torn: Option<half>)
    requires GoodImage(g, l, writable)
    ensures Holds(g, c, slots, torn) && AllOk(slots) && Records(slots) == l && (torn.None? <==> writable)
  {
    c, slots, torn :| Holds(g, c, slots, torn) && Records(slots) == l && (torn.None? <==> writable);
  }

  lemma HeldOnce(f: Flash, c: nat, slots: seq<Slot>, torn: Option<half>, d: nat, log: seq<Slot>, tail: Option<half>)
    requires Holds(f, c, slots, torn) && Holds(f, d, log, tail)
    ensures c == d && slots == log && torn == tail
  {
    HeldIsRead(f, c, slots, torn);
    HeldIsRead(f, d, log, tail);
    OneLog(f[c], slots, torn, log, tail);
  }

  /** The flash bytes decide the records, and whether the store can be written. */
  lemma GoodOnce(g: Flash, l: seq<Record>, writable: bool, m: seq<Record>, other: bool)
    requires GoodImage(g, l, writable) && GoodImage(g, m, other)
    ensures l == m && writable == other
  {
    hide GoodImage, Holds, Records;
    var c, slots, torn := Holder(g, l, writable);
    var d, log, tail := Holder(g, m, other);
    HeldOnce(g, c, slots, torn, d, log, tail);
  }

  lemma PayloadImage(f: Flash, c: nat, slots: seq<Slot>, t: Sector, id: half, size: half, data: seq<byte>, k: nat)
    requires Holds(f, c, slots, None) && 0 < id < ALL_ONES && size <= MAX_PAYLOAD
    requires |data| == Roundup(size) && 2 * k <= |data| && HasRoom(slots, size)
    requires forall b :: 0 <= b < End(slots) ==> t[b] == f[c][b]
    requires EntryAt(t, End(slots)) == Entry(id, size, ALL_ONES, ALL_ONES) && BlankFrom(t, End(slots) + 8)
    ensures GoodImage(f[c := Overlay(t, End(slots) + 8, data[..2 * k])], Records(slots), true)
  {
    PayloadCut(f, c, slots, t, id, size, data, k);
    var x := Slot(id, size, ALL_ONES, ALL_ONES, data[..2 * k] + Blank(Roundup(size) - 2 * k));
    RecordsAppend(slots, x);
    HeldIsGood(f[c := Overlay(t, End(slots) + 8, data[..2 * k])], c, slots + [x], None);
  }

  /** `g` is `f` with the header of an entry behind the log of sector `c`, and nothing behind that header. */
  ghost predicate Started(f: Flash, g: Flash, c: nat, slots: seq<Slot>, id: half, size: half) {
    && c < |f| == |g| && g == f[c := g[c]]
    && End(slots) + 8 <= SECTOR_SIZE
    && (forall b :: 0 <= b < End(slots) ==> g[c][b] == f[c][b])
    && EntryAt(g[c], End(slots)) == Entry(id, size, ALL_ONES, ALL_ONES)
    && BlankFrom(g[c], End(slots) + 8)
  }

  /** `g` is `f` with header and payload of an entry behind the log of sector `c`, and nothing behind them. */
  ghost predicate Filled(f: Flash, g: Flash, c: nat, slots: seq<Slot>, id: half, size: half, data: seq<byte>) {
    && c < |f| == |g| && g == f[c := g[c]]
    && End(slots) + 8 + |data| <= SECTOR_SIZE
    && (forall b :: 0 <= b < End(slots) ==> g[c][b] == f[c][b])
    && EntryAt(g[c], End(slots)) == Entry(id, size, ALL_ONES, ALL_ONES)
    && g[c][End(slots) + 8..End(slots) + 8 + |data|] == data
    && BlankFrom(g[c], End(slots) + 8 + |data|)
  }

  /** Good for one of the record lists `ls`. */
  ghost predicate GoodFor(g: Flash, ls: set<seq<Record>>, writable: bool) {
    exists l :: l in ls && GoodImage(g, l, writable)
  }

  /**
   * Every image of `h` from `from` on is good for one of `ls`; number
   * `tear` is the one that leaves the store read-only.
   */
  ghost predicate GoodFrom(h: seq<Flash>, from: nat, ls: set<seq<Record>>, tear: int) {
    forall k {:trigger h[k]} :: from <= k < |h| ==> GoodFor(h[k], ls, k != tear)
  }

  lemma GoodFromJoins(h: seq<Flash>, more: seq<Flash>, from: nat, ls: set<seq<Record>>, ms: set<seq<Record>>, tear: int)
    requires from <= |h| <= |more| && h <= more && ls <= ms
    requires GoodFrom(h, from, ls, tear) && GoodFrom(more, |h|, ms, tear)
    ensures GoodFrom(more, from, ms, tear)
  {
    hide GoodImage;
    forall k {:trigger more[k]} | from <= k < |more| ensures GoodFor(more[k], ms, k != tear) {
      if k < |h| {
        assert more[k] == h[k];
        assert GoodFor(h[k], ls, k != tear);
      }
    }
  }

  /** One more image. */
  lemma GoodFromNext(h: seq<Flash>, g: Flash, from: nat, ls: set<seq<Record>>, tear: int, l: seq<Record>)
    requires from <= |h| && GoodFrom(h, from, ls, tear) && tear != |h| && l in ls && GoodImage(g, l, true)
    ensures GoodFrom(h + [g], from, ls, tear)
  {
    hide GoodImage;
    var more := h + [g];
    forall k {:trigger more[k]} | from <= k < |more| ensures GoodFor(more[k], ls, k != tear) {
      if k < |h| {
        assert more[k] == h[k];
      }
    }
  }

  /** One payload half-word more. */
  lemma PayloadStep(f: Flash, g: Flash, c: nat, slots: seq<Slot>, id: half, size: half, data: seq<byte>, k: nat)
    requires Holds(f, c, slots, None) && 0 < id < ALL_ONES && size <= MAX_PAYLOAD
    requires |data| == Roundup(size) && 2 * k < |data|
    requires HasRoom(slots, size)
    requires Started(f, g, c, slots, id, size)
    ensures c < |g| && End(slots) + 8 + 2 * (k + 1) <= SECTOR_SIZE && AllOk(slots)
    ensures GoodImage(g[c := Overlay(g[c], End(slots) + 8, data[..2 * (k + 1)])], Records(slots), true)
  {
    PayloadImage(f, c, slots, g[c], id, size, data, k + 1);
    var u := Overlay(g[c], End(slots) + 8, data[..2 * (k + 1)]);
    assert g[c := u] == f[c := u];
  }

  lemma FilledBy(f: Flash, g: Flash, c: nat, slots: seq<Slot>, id: half, size: half, data: seq<byte>)
    requires Started(f, g, c, slots, id, size) && End(slots) + 8 + |data| <= SECTOR_SIZE
    ensures Filled(f, g[c := Overlay(g[c], End(slots) + 8, data)], c, slots, id, size, data)
  {
    var t := Overlay(g[c], End(slots) + 8, data);
    assert t[End(slots) + 8..End(slots) + 8 + |data|] == data;
    assert g[c := t] == f[c := t];
  }

  lemma AfterWriteEnd(slots: seq<Slot>, x: Slot)
    ensures End(AfterWrite(slots, x)) == End(slots) + Foot(x)
  {
    var after := AfterWrite(slots, x);
    assert |after| == |slots| + 1 && after[|slots|] == x;
    OffBySizes(after, slots, |slots|);
  }

  lemma KilledHolds(g: Flash, c: nat, slots: seq<Slot>, x: Slot, i: nat)
    requires Holds(g, c, slots + [x], None) && i == First(slots, x.id, 0) < |slots|
    ensures Off(slots, i) + 6 <= SECTOR_SIZE
    ensures Holds(g[c := Overlay(g[c], Off(slots, i) + 4, [0, 0])], c, AfterWrite(slots, x), None)
  {
    var all := slots + [x];
    assert all[i := all[i].(state := 0)] == AfterWrite(slots, x);
    OffBySizes(all, slots, i);
    KillCut(g, c, all, i);
  }

  lemma ActivatedSector(s: Sector, copied: seq<Slot>)
    requires StateOf(s) == Prep && LogIs(s, copied) && BlankFrom(s, End(copied))
    ensures var t := Overlay(s, 2, [0, 0]);
      StateOf(t) == Active && LogIs(t, copied) && BlankFrom(t, End(copied))
  {
    var t := Overlay(s, 2, [0, 0]);
    forall i {:trigger SlotAt(t, copied[i], Off(copied, i))} | 0 <= i < |copied|
      ensures SlotAt(t, copied[i], Off(copied, i))
    {
      assert SlotAt(s, copied[i], Off(copied, i));
      SameSlotAt(s, t, copied[i], Off(copied, i));
    }
  }

  /** Power loss while two sectors are Active. */
  lemma ActivatedGood(f: Flash, g: Flash, c: nat, slots: seq<Slot>, copied: seq<Slot>)
    requires Holds(f, c, slots, None) && |f| >= 2
    requires SameRecords(copied, LiveSlots(slots)) && End(copied) <= End(slots)
    requires |g| == |f| && forall j :: 0 <= j < |f| && j != Next(c, |f|) ==> g[j] == f[j]
    requires var o := Next(c, |f|);
      StateOf(g[o]) == Active && LogIs(g[o], copied) && BlankFrom(g[o], End(copied))
    ensures GoodImage(g, Records(slots), true)
  {
    BothActive(f, g, c, slots, copied);
    CollectedRecords(copied, slots);
    if Next(c, |f|) > c {
      HeldIsGood(g, c, slots, None);
    } else {
      HeldIsGood(g, 0, copied, None);
    }
  }

  lemma OldErasedGood(f: Flash, g: Flash, c: nat, slots: seq<Slot>, copied: seq<Slot>)
    requires Holds(f, c, slots, None) && |f| >= 2
    requires SameRecords(copied, LiveSlots(slots)) && End(copied) <= End(slots)
    requires |g| == |f| && forall j :: 0 <= j < |f| && j != Next(c, |f|) && j != c ==> g[j] == f[j]
    requires g[c] == BlankSector()
    requires var o := Next(c, |f|);
      StateOf(g[o]) == Active && LogIs(g[o], copied) && BlankFrom(g[o], End(copied))
    ensures Holds(g, Next(c, |f|), copied, None)
    ensures GoodImage(g, Records(slots), true)
  {
    OldErased(f, g, c, slots, copied);
    CollectedRecords(copied, slots);
    HeldIsGood(g, Next(c, |f|), copied, None);
  }

  // ---------- a write that does not fit ----------

  /**
   * An Active sector that holds the log `slots`, and behind it the header of an entry that leaves no room for another
   * one; its payload may go on past the end of the sector.
   */
  ghost predicate JamSector(s: Sector, slots: seq<Slot>, id: half, size: half) {
    && StateOf(s) == Active
    && LogIs(s, slots)
    && End(slots) < SCAN_LIMIT && !HasRoom(slots, size)
    && 0 < id < ALL_ONES && size <= MAX_PAYLOAD
    && EntryAt(s, End(slots)).id == id && EntryAt(s, End(slots)).size == size
    && EntryAt(s, End(slots)).state == ALL_ONES
  }

  /** The lowest Active sector is such a one. */
  ghost predicate Jammed(g: Flash, c: nat, slots: seq<Slot>, id: half, size: half) {
    && c < |g|
    && (forall j :: 0 <= j < c ==> StateOf(g[j]) != Active)
    && JamSector(g[c], slots, id, size)
  }

  /** A fresh object that can read every other id as in the log, and can never write again. */
  ghost predicate ReadOnly(g: Flash, slots: seq<Slot>, id: nat)
    requires AllOk(slots)
  {
    && BootFrom(g, 0) < |g| && BootWriteIndex(g) == 0
    && forall other: nat :: other != id ==> ReadBack(g, other) == Lookup(slots, other)
  }

  lemma JammedIsReadOnly(g: Flash, c: nat, slots: seq<Slot>, id: half, size: half)
    requires Jammed(g, c, slots, id, size)
    ensures ReadOnly(g, slots, id)
  {
    JammedBoots(g, c, slots, id, size);
    forall other: nat | other != id ensures ReadBack(g, other) == Lookup(slots, other) {
      JammedIdIsRead(g, c, slots, id, size, other);
    }
  }

  lemma JammedBoots(g: Flash, c: nat, slots: seq<Slot>, id: half, size: half)
    requires Jammed(g, c, slots, id, size)
    ensures BootFrom(g, 0) == c && BootWriteIndex(g) == 0
  {
    ScanSkipsLog(g[c], slots, 0);
    if slots != [] {
      assert SlotAt(g[c], slots[0], Off(slots, 0));
    }
  }

  lemma JammedIdIsRead(g: Flash, c: nat, slots: seq<Slot>, id: half, size: half, other: nat)
    requires Jammed(g, c, slots, id, size) && other != id
    ensures ReadBack(g, other) == Lookup(slots, other)
  {
    JammedBoots(g, c, slots, id, size);
    JamSectorFound(g[c], slots, id, size, other);
    hide JamSector, FindFrom, EntryAt, BootFrom;
  }

  /** `findEntry` on such a sector, and what there is to read where it points. */
  lemma JamSectorFound(s: Sector, slots: seq<Slot>, id: half, size: half, other: nat)
    requires JamSector(s, slots, id, size) && other != id
    ensures Lookup(slots, other) ==
            match FindFrom(s, 4, other)
            case None => None
            case Some(off) =>
              if off + 8 + EntryAt(s, off).size <= SECTOR_SIZE then Some(s[off + 8..off + 8 + EntryAt(s, off).size])
              else None
  {
    hide FindFrom, StateOf;
    FindPassesLog(s, slots, other, 0);
    NothingBehindJam(s, slots, id, size, other);
    hide JamSector;
    var i := First(slots, other, 0);
    if i < |slots| {
      assert SlotAt(s, slots[i], Off(slots, i));
      hide LogIs, First;
      PayloadPrefix(s, slots[i], Off(slots, i));
    }
  }

  lemma NothingBehindJam(s: Sector, slots: seq<Slot>, id: half, size: half, other: nat)
    requires JamSector(s, slots, id, size) && other != id
    ensures FindFrom(s, End(slots), other) == None
  {
    hide LogIs;
  }

  /** Only bytes of sector `c` from `off` on, and of the sector behind it, differ. */
  ghost predicate KeptBelow(f: Flash, g: Flash, c: nat, off: nat) {
    && |g| == |f| && c < |f| && off <= SECTOR_SIZE
    && (forall j :: 0 <= j < |f| && j != c && j != c + 1 ==> g[j] == f[j])
    && (forall b :: 0 <= b < off ==> g[c][b] == f[c][b])
  }

  lemma StaysJammed(f: Flash, g: Flash, c: nat, slots: seq<Slot>, id: half, size: half)
    requires Jammed(f, c, slots, id, size) && KeptBelow(f, g, c, End(slots) + 6)
    ensures Jammed(g, c, slots, id, size)
  {
    SameLog(f[c], g[c], slots);
  }

  /** The header from its second half-word on. */
  lemma HeaderJams(f: Flash, c: nat, slots: seq<Slot>, id: half, size: half, k: nat)
    requires Holds(f, c, slots, None) && 0 < id < ALL_ONES && size <= MAX_PAYLOAD && 2 <= k <= 4
    requires !HasRoom(slots, size)
    ensures Jammed(f[c := Overlay(f[c], End(slots), HeaderBytes(Entry(id, size, ALL_ONES, ALL_ONES))[..2 * k])],
                   c, slots, id, size)
  {
    var t := Overlay(f[c], End(slots), HeaderBytes(Entry(id, size, ALL_ONES, ALL_ONES))[..2 * k]);
    HeaderBytesAt(f[c], t, End(slots), id, size, k);
    SameLog(f[c], t, slots);
  }

  lemma KilledJamSector(s: Sector, slots: seq<Slot>, id: half, size: half, i: nat, t: Sector)
    requires JamSector(s, slots, id, size) && i < |slots|
    requires Off(slots, i) + 6 <= SECTOR_SIZE && t == Overlay(s, Off(slots, i) + 4, [0, 0])
    ensures JamSector(t, slots[i := slots[i].(state := 0)], id, size)
  {
    hide LogIs, Off, Overlay, StateOf, AllOk;
    KilledLog(s, slots, i);
    SameAround(s, t, Off(slots, i) + 4, End(slots));
    assert EntryAt(t, End(slots)) == EntryAt(s, End(slots));
    hide EntryAt;
  }

  /** The old entry of the id killed. */
  lemma KilledStaysJammed(g: Flash, c: nat, slots: seq<Slot>, id: half, size: half, i: nat, h: Flash)
    requires Jammed(g, c, slots, id, size) && i < |slots|
    requires Off(slots, i) + 6 <= SECTOR_SIZE && h == g[c := Overlay(g[c], Off(slots, i) + 4, [0, 0])]
    ensures Jammed(h, c, slots[i := slots[i].(state := 0)], id, size)
  {
    KilledJamSector(g[c], slots, id, size, i, h[c]);
    hide JamSector, Off, Overlay;
  }

  /** Killing an entry of one id changes nothing for the others. */
  lemma KilledReadsAlike(g: Flash, slots: seq<Slot>, i: nat, id: nat)
    requires AllOk(slots) && i == First(slots, id, 0) < |slots|
    requires ReadOnly(g, slots[i := slots[i].(state := 0)], id)
    ensures ReadOnly(g, slots, id)
  {
    var killed := slots[i := slots[i].(state := 0)];
    forall other: nat | other != id ensures Lookup(killed, other) == Lookup(slots, other) {
      KilledRecords(slots, id, i);
      RecordsSayAll(slots, other);
      RecordsSayAll(killed, other);
      WithoutOne(Records(slots), id, other);
    }
  }
}
