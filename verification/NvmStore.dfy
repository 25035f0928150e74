/** The store object: its methods over the flash, with every image the flash goes through kept in a ghost history. */
module NvmStore {
  import opened Common
  import opened NvmLayout
  import opened NvmLog
  import opened NvmRecovery
  import opened NvmBytes

  /** The half-word of `data` number `k` may be programmed at `off`: it is erased there, or zero is being written. */
  predicate CanProgram(s: Sector, off: nat, data: seq<byte>, k: nat)
    requires off + |data| <= SECTOR_SIZE && 2 * k + 1 < |data|
  {
    || (s[off + 2 * k] == 255 && s[off + 2 * k + 1] == 255)
    || (data[2 * k] == 0 && data[2 * k + 1] == 0)
  }

  /** The flash with one half-word replaced. */
  function WithHalf(f: Flash, sector: nat, at: nat, lo: byte, hi: byte): Flash
    requires sector < |f| && at + 1 < SECTOR_SIZE
  {
    f[sector := f[sector][at := lo][at + 1 := hi]]
  }

  /** No sector but `c` differs. */
  ghost predicate OnlySector(f: Flash, g: Flash, c: int) {
    |g| == |f| && forall j :: 0 <= j < |f| && j != c ==> g[j] == f[j]
  }

  ghost predicate CanProgramAll(s: Sector, off: nat, data: seq<byte>)
    requires off + |data| <= SECTOR_SIZE
  {
    forall k: nat :: 2 * k + 1 < |data| ==> CanProgram(s, off, data, k)
  }

  /** The images the flash goes through while `data` is programmed, one for each half-word. */
  ghost function Steps(f: Flash, sector: nat, off: nat, data: seq<byte>): (r: seq<Flash>)
    requires sector < |f| && off + |data| <= SECTOR_SIZE
    ensures |r| == |data| / 2
  {
    seq(|data| / 2, k requires 0 <= k < |data| / 2 => f[sector := Overlay(f[sector], off, data[..2 * (k + 1)])])
  }

  /** The header and payload of a complete entry, byte by byte. */
  ghost predicate HasEntryAt(f: Flash, c: int, w: int, id: nat, size: nat, data: seq<byte>) {
    && 0 <= c < |f| && 4 <= w && size + size % 2 <= |data| && id < 65536 && size < 256
    && w + 8 + size + size % 2 < 1014
    && f[c][w..w + 8 + size + size % 2] ==
       [id % 256, id / 256, size, 0, 255, 255, 0, 0] + data[..size + size % 2]
  }

  /** The write index after looking through a sector: the end of its log if it is found, otherwise what it was. */
  function Found(s: Sector, before: int): int {
    match Scan(s, 4) case None => before case Some(w) => w
  }

  /** One operation of the device: erasing a sector, or programming two neighbouring bytes of it. */
  ghost predicate DeviceStep(f: Flash, g: Flash) {
    |g| == |f| && exists s :: 0 <= s < |f| && OnlySector(f, g, s) && (IsErased(g[s]) || HalfStep(f[s], g[s]))
  }

  ghost predicate IsErased(s: Sector) {
    forall b :: 0 <= b < 1024 ==> s[b] == 255
  }

  /** Two neighbouring bytes change, which were erased or become zero. */
  ghost predicate HalfStep(s: Sector, t: Sector) {
    exists at :: 0 <= at < 1023 && ChangedAt(s, t, at)
  }

  ghost predicate ChangedAt(s: Sector, t: Sector, at: nat)
    requires at < 1023
  {
    && (forall b :: 0 <= b < 1024 && b != at && b != at + 1 ==> t[b] == s[b])
    && ((s[at] == 255 && s[at + 1] == 255) || (t[at] == 0 && t[at + 1] == 0))
  }

  ghost function Last(start: Flash, h: seq<Flash>): Flash {
    if h == [] then start else h[|h| - 1]
  }

  /** Each image of `h` is one device operation after the one before. */
  ghost predicate Trace(start: Flash, h: seq<Flash>) {
    h != [] ==>
      var before := h[..|h| - 1];
      Trace(start, before) && DeviceStep(Last(start, before), h[|h| - 1])
  }

  lemma TraceNext(start: Flash, h: seq<Flash>, g: Flash)
    requires Trace(start, h) && DeviceStep(Last(start, h), g)
    ensures Trace(start, h + [g])
  {
    assert (h + [g])[..|h|] == h;
  }

  lemma ErasureIsAStep(f: Flash, s: nat)
    requires s < |f|
    ensures DeviceStep(f, f[s := BlankSector()])
  {
    var g := f[s := BlankSector()];
    assert OnlySector(f, g, s) && IsErased(g[s]);
  }

  lemma ProgrammingIsAStep(f: Flash, s: nat, at: nat, lo: byte, hi: byte)
    requires s < |f| && at + 1 < 1024
    requires (f[s][at] == 255 && f[s][at + 1] == 255) || (lo == 0 && hi == 0)
    ensures DeviceStep(f, WithHalf(f, s, at, lo, hi))
  {
    var g := WithHalf(f, s, at, lo, hi);
    assert ChangedAt(f[s], g[s], at) && OnlySector(f, g, s);
  }

  class Nvm {
    const nbSectors: nat
    ghost const powerUp: Flash
    var currentSector: int
    var writeIndex: int
    var flash: Flash

    /** The images the flash has gone through since this object was made, one for each half-word or erase. */
    var history: seq<Flash>
    /** The log of the current sector. */
    ghost var slots: seq<Slot>
    ghost var torn: Option<half>

    ghost predicate Sized()
      reads this`flash, this`history
    {
      2 <= nbSectors <= INVALID_SECTOR && |flash| == nbSectors && Traced()
    }

    /** The history leads from the image at power-up to the flash as it is, one device operation at a time. */
    ghost predicate Traced()
      reads this`flash, this`history
    {
      Trace(powerUp, history) && flash == Last(powerUp, history)
    }

    ghost predicate Mounted()
      reads this
    {
      && 0 <= currentSector < nbSectors
      && |flash| == nbSectors
      && Holds(flash, currentSector, slots, torn)
      && writeIndex == if torn.None? then End(slots) else 0
    }

    ghost predicate Valid()
      reads this
    {
      Sized() && (currentSector == INVALID_SECTOR || Mounted())
    }

    /** The map the store stands for. */
    ghost function Map(): map<nat, seq<byte>>
      requires Valid()
      reads this
    {
      if currentSector == INVALID_SECTOR then map[] else Contents(slots)
    }

    /** Power-up over a flash image. */
    constructor (n: nat, image: Flash)
      requires 2 <= n <= INVALID_SECTOR && |image| == n
      ensures Valid() && currentSector == INVALID_SECTOR && writeIndex == 0
      ensures flash == image && history == [] && nbSectors == n && powerUp == image
    {
      nbSectors := n;
      powerUp := image;
      currentSector := INVALID_SECTOR;
      writeIndex := 0;
      flash := image;
      history, slots, torn := [], [], None;
    }

    // ---------- the device ----------

    method EraseSector(sector: nat) returns (ok: bool)
      requires sector < |flash|
      requires Traced()
      modifies this`flash, this`history
      ensures Traced()
      ensures ok
      ensures flash == old(flash)[sector := BlankSector()]
      ensures history == old(history) + [flash]
    {
      ErasureIsAStep(flash, sector);
      TraceNext(powerUp, history, flash[sector := BlankSector()]);
      flash := flash[sector := BlankSector()];
      history := history + [flash];
      return true;
    }

    /** One half-word: refused when it is neither erased nor to become zero. */
    method ProgramHalf(sector: nat, at: nat, lo: byte, hi: byte) returns (ok: bool)
      requires sector < |flash| && at + 1 < SECTOR_SIZE
      requires Traced()
      modifies this`flash, this`history
      ensures Traced()
      ensures ok <==> (old(flash)[sector][at] == 255 && old(flash)[sector][at + 1] == 255) || (lo == 0 && hi == 0)
      ensures flash == if ok then WithHalf(old(flash), sector, at, lo, hi) else old(flash)
      ensures history == if ok then old(history) + [flash] else old(history)
    {
      var s := flash[sector];
      if !((s[at] == 255 && s[at + 1] == 255) || (lo == 0 && hi == 0)) {
        return false;
      }
      ProgrammingIsAStep(flash, sector, at, lo, hi);
      TraceNext(powerUp, history, WithHalf(flash, sector, at, lo, hi));
      flash := WithHalf(flash, sector, at, lo, hi);
      history := history + [flash];
      return true;
    }

    /**
     * Programs half-word after half-word, and gives up at the first that is neither erased nor written to zero: `part`
     * is what got programmed.
     */
    method WriteSector(sector: nat, offset: nat, data: seq<byte>) returns (ok: bool, ghost part: seq<byte>)
      requires sector < |flash| && offset + |data| <= SECTOR_SIZE && |data| % 2 == 0
      requires Traced()
      modifies this`flash, this`history
      ensures Traced()
      ensures part <= data && |part| % 2 == 0 && (ok <==> part == data)
      ensures ok <==> CanProgramAll(old(flash)[sector], offset, data)
      ensures flash == old(flash)[sector := Overlay(old(flash)[sector], offset, part)]
      ensures history == old(history) + Steps(old(flash), sector, offset, part)
    {
      hide Traced;
      ghost var f, h0 := flash, history;
      var i, n := 0, |data| / 2;
      assert |data| == 2 * n;
      NothingProgrammed(f, h0, sector, offset, data);
      hide Programmed, Overlay, Steps, CanProgram, CanProgramAll, WithHalf;
      while i < n
        invariant 0 <= i <= n && |flash| == |f| && Traced()
        invariant Programmed(f, h0, flash, history, sector, offset, data, i)
      {
        ok := ProgramNext(sector, offset, data, i, f, h0);
        if !ok {
          ProgrammedMeans(f, h0, flash, history, sector, offset, data, i);
          return false, data[..2 * i];
        }
        i := i + 1;
      }
      ProgrammedMeans(f, h0, flash, history, sector, offset, data, i);
      return true, data;
    }

    /** One half-word more of `data`, or none if it cannot be programmed. */
    method ProgramNext(sector: nat, offset: nat, data: seq<byte>, i: nat, ghost f: Flash, ghost h0: seq<Flash>)
      returns (ok: bool)
      requires sector < |flash| == |f| && offset + |data| <= SECTOR_SIZE && 2 * i + 1 < |data|
      requires Programmed(f, h0, flash, history, sector, offset, data, i)
      requires Traced()
      modifies this`flash, this`history
      ensures Traced()
      ensures |flash| == |f|
      ensures Programmed(f, h0, flash, history, sector, offset, data, if ok then i + 1 else i)
      ensures !ok ==> !CanProgramAll(f[sector], offset, data)
    {
      hide Traced;
      hide Programmed, Overlay, Steps, CanProgram, CanProgramAll;
      NextHalf(f, h0, flash, history, sector, offset, data, i);
      ok := ProgramHalf(sector, offset + 2 * i, data[2 * i], data[2 * i + 1]);
    }

    /**
     * A write that goes on past the end of its sector continues in the one behind it; behind the last one there is no
     * erased flash.
     */
    method WriteOn(sector: nat, offset: nat, data: seq<byte>) returns (ok: bool)
      requires sector < |flash| && offset <= SECTOR_SIZE < offset + |data| && |data| <= SECTOR_SIZE
      requires |data| % 2 == 0 && offset % 2 == 0 && history != [] && history[|history| - 1] == flash
      requires Traced()
      modifies this`flash, this`history
      ensures Traced()
      ensures |old(history)| <= |history| && old(history) <= history && history[|history| - 1] == flash
      ensures KeptBelow(old(flash), flash, sector, offset)
      ensures forall k {:trigger history[k]} :: |old(history)| <= k < |history| ==>
                KeptBelow(old(flash), history[k], sector, offset)
      ensures var n := SECTOR_SIZE - offset;
        && (ok <==> && CanProgramAll(old(flash)[sector], offset, data[..n]) && sector + 1 < |old(flash)|
                    && CanProgramAll(old(flash)[sector + 1], 0, data[n..]))
        && (ok ==> flash == old(flash)[sector := Overlay(old(flash)[sector], offset, data[..n])]
                            [sector + 1 := Overlay(old(flash)[sector + 1], 0, data[n..])])
    {
      hide Traced;
      hide Steps, Overlay, KeptBelow, CanProgramAll;
      ghost var f, h0, part := flash, history, [];
      NothingChanged(f, sector, offset);
      var n := SECTOR_SIZE - offset;
      ok, part := WriteSector(sector, offset, data[..n]);
      StepsKept(f, f, h0, sector, offset, sector, offset, part);
      LastStep(f, sector, offset, part, h0);
      if !ok {
        return;
      }
      if sector + 1 == |flash| {
        return false;
      }
      ghost var g, h1 := flash, history;
      ok, part := WriteSector(sector + 1, 0, data[n..]);
      StepsKept(f, g, h1, sector, offset, sector + 1, 0, part);
      LastStep(g, sector + 1, 0, part, h1);
    }

    /** Copies flash bytes into the front of a buffer. */
    method ReadSector(sector: nat, offset: nat, size: nat, data: array<byte>)
      requires sector < |flash| && offset + size <= SECTOR_SIZE && size <= data.Length
      modifies data
      ensures data[..size] == flash[sector][offset..offset + size]
      ensures data[size..] == old(data[size..])
    {
      forall k | 0 <= k < size {
        data[k] := flash[sector][offset + k];
      }
    }

    /** Programs one half-word to zero, which is possible whatever it holds. */
    method Zero(sector: nat, offset: nat) returns (ok: bool)
      requires sector < |flash| && offset + 2 <= SECTOR_SIZE
      requires Traced()
      modifies this`flash, this`history
      ensures Traced()
      ensures ok && flash == old(flash)[sector := Overlay(old(flash)[sector], offset, [0, 0])]
      ensures history == old(history) + [flash]
    {
      hide Traced;
      ghost var part;
      ok, part := WriteSector(sector, offset, [0, 0]);
      assert part[..2] == part;
    }

    // ---------- sector states ----------

    method SetSectorState(sector: nat, state: SectorState) returns (ok: bool)
      requires sector < |flash|
      requires Traced()
      modifies this`flash, this`history
      ensures Traced()
      ensures StateOf(old(flash)[sector]) == state ==> ok && flash == old(flash) && history == old(history)
      ensures StateOf(old(flash)[sector]) == Erased && state == Prep ==>
                && ok && flash == old(flash)[sector := Overlay(old(flash)[sector], 0, [0, 0])]
                && history == old(history) + [flash]
      ensures StateOf(old(flash)[sector]) == Prep && state == Active ==>
                && ok && flash == old(flash)[sector := Overlay(old(flash)[sector], 2, [0, 0])]
                && history == old(history) + [flash]
      ensures ok <==>
        || state == StateOf(old(flash)[sector])
        || (state == Prep && StateOf(old(flash)[sector]) == Erased)
        || (state == Active && StateOf(old(flash)[sector]) == Prep)
      ensures !ok ==> flash == old(flash) && history == old(history)
    {
      hide Traced;
      var oldState := StateOf(flash[sector]);
      if oldState == state {
        return true;
      }
      if oldState == Erased && state == Prep {
        ok := Zero(sector, 0);
      } else if oldState == Prep && state == Active {
        ok := Zero(sector, 2);
      } else {
        ok := false;
      }
    }

    method PrepareSector(sector: nat) returns (ok: bool)
      requires sector < |flash|
      requires Traced()
      modifies this`flash, this`history
      ensures Traced()
      ensures ok
      ensures flash == old(flash)[sector := Overlay(BlankSector(), 0, [0, 0])]
      ensures history == old(history) + [old(flash)[sector := BlankSector()], flash]
    {
      hide Traced;
      ok := EraseSector(sector);
      if !ok {
        return false;
      }
      assert StateOf(flash[sector]) == Erased;
      ok := SetSectorState(sector, Prep);
    }

    // ---------- mounting ----------

    /** Looks for the end of the log of the current sector; false if its first entry is all zeroes. */
    method SanityCheck() returns (ok: bool)
      requires |flash| == nbSectors && (currentSector == INVALID_SECTOR || 0 <= currentSector < nbSectors)
      modifies this`writeIndex
      ensures ok <==> currentSector != 100 && flash[currentSector][4..12] != [0, 0, 0, 0, 0, 0, 0, 0]
      ensures ok <==> currentSector != INVALID_SECTOR && Sane(flash[currentSector])
      ensures writeIndex == if ok then Found(flash[currentSector], old(writeIndex)) else old(writeIndex)
    {
      if currentSector == INVALID_SECTOR {
        return false;
      }
      SaneBytes(flash[currentSector]);
      var offset := 4;
      var processed, valid := 0, false;
      var run := true;
      while run && offset < SCAN_LIMIT
        invariant offset >= 4 && processed >= 0 && !valid
        invariant processed == 0 ==> offset == 4
        invariant processed > 0 ==> Sane(flash[currentSector])
        invariant Scan(flash[currentSector], 4) == if run then Scan(flash[currentSector], offset) else None
        invariant !run ==> Sane(flash[currentSector])
        decreases run, SCAN_LIMIT - offset
      {
        var entry := EntryAt(flash[currentSector], offset);
        var roundup := Roundup(entry.size);
        if entry.id == ALL_ONES {
          valid := true;
          break;
        }
        if entry.id == 0 && entry.size == 0 && entry.state == 0 && entry.validated == 0 {
          if processed == 0 {
            return false;
          }
          break;
        }
        if entry.size > MAX_PAYLOAD {
          run := false;
          continue;
        }
        offset := offset + 8 + roundup;
        processed := processed + 1;
      }
      if valid {
        writeIndex := offset;
      }
      return true;
    }

    /** The loop of `begin`, over the sectors. */
    method MountFirst() returns (ok: bool)
      requires Sized()
      modifies this`currentSector, this`writeIndex, this`flash, this`history
      ensures Traced()
      ensures Sized()
      ensures ok <==> BootFrom(old(flash), 0) < nbSectors
      ensures currentSector == if ok then BootFrom(old(flash), 0) else INVALID_SECTOR
      ensures writeIndex == if ok then Found(old(flash)[currentSector], old(writeIndex)) else old(writeIndex)
      ensures forall j :: 0 <= j < nbSectors ==>
                flash[j] == if j < BootFrom(old(flash), 0) && StateOf(old(flash)[j]) == Active then BlankSector()
                            else old(flash)[j]
      ensures (forall j :: 0 <= j < nbSectors && j < BootFrom(old(flash), 0) ==> StateOf(old(flash)[j]) != Active) ==>
                flash == old(flash) && history == old(history)
    {
      hide Traced;
      hide Scan, StateOf, Sane, Found;
      ghost var boot := BootFrom(flash, 0);
      var sec := -1;
      var i := 0;
      while i < nbSectors && sec == -1
        invariant 0 <= i <= nbSectors && |flash| == nbSectors && Traced()
        invariant sec == -1 ==> i <= boot && writeIndex == old(writeIndex)
        invariant sec != -1 ==>
                    sec == boot < nbSectors && currentSector == sec
                    && writeIndex == Found(old(flash)[sec], old(writeIndex))
        invariant forall j :: 0 <= j < nbSectors ==>
                    flash[j] == if j < i && j < boot && StateOf(old(flash)[j]) == Active then BlankSector()
                                else old(flash)[j]
        invariant sec != -1 ==> i == boot + 1
        invariant (forall j :: 0 <= j < i && j < boot ==> StateOf(old(flash)[j]) != Active) ==>
                    flash == old(flash) && history == old(history)
      {
        if StateOf(flash[i]) != Active {
          i := i + 1;
          continue;
        }
        currentSector := i;
        var sane := SanityCheck();
        if sane {
          sec := i;
        } else {
          var erased := EraseSector(i);
        }
        i := i + 1;
      }
      if sec == -1 {
        currentSector := INVALID_SECTOR;
        ok := false;
      } else {
        ok := true;
      }
    }

    /** Mounts the first Active sector that looks sane; the Active ones before it are erased. */
    method Begin() returns (ok: bool)
      requires Sized()
      modifies this
      ensures Traced()
      ensures Sized()
      ensures ok <==> exists i :: && 0 <= i < nbSectors && old(flash)[i][..4] == [0, 0, 0, 0]
                                  && old(flash)[i][4..12] != [0, 0, 0, 0, 0, 0, 0, 0]
      ensures ok ==>
        && 0 <= currentSector < nbSectors && old(flash)[currentSector][..4] == [0, 0, 0, 0]
        && old(flash)[currentSector][4..12] != [0, 0, 0, 0, 0, 0, 0, 0]
      ensures !ok ==> currentSector == 100
      ensures forall i :: 0 <= i < nbSectors ==>
        if (ok ==> i < currentSector) && old(flash)[i][..12] == [0, 0, 0, 0, 0, 0, 0, 0, 0, 0, 0, 0]
        then forall b :: 0 <= b < 1024 ==> flash[i][b] == 255
        else flash[i] == old(flash)[i] && (ok && i < currentSector ==> old(flash)[i][..4] != [0, 0, 0, 0])
      ensures ok <==> BootFrom(old(flash), 0) < nbSectors
      ensures currentSector == if ok then BootFrom(old(flash), 0) else INVALID_SECTOR
      ensures writeIndex == if ok then Found(old(flash)[currentSector], old(writeIndex)) else old(writeIndex)
      ensures old(writeIndex) == 0 ==> writeIndex == BootWriteIndex(old(flash))
      ensures forall c, log, tail :: Holds(old(flash), c, log, tail) ==>
                && ok && currentSector == c && slots == log && torn == tail
                && flash == old(flash) && history == old(history)
                && (Valid() <==> tail.None? || old(writeIndex) == 0)
    {
      hide Traced;
      hide TailIs, SlotAt, FindFrom, Scan, ReadBack, StateOf, Sane, LogIs, Off, Holds, BootFrom, Found;
      ok := MountFirst();
      BootBytes(old(flash), flash);
      FreshIndex(old(flash), BootFrom(old(flash), 0));
      if exists c: nat, log: seq<Slot>, tail: Option<half> :: Holds(old(flash), c, log, tail) {
        ghost var c: nat, log: seq<Slot>, tail: Option<half> :| Holds(old(flash), c, log, tail);
        OneHeld(old(flash), c, log, tail, old(writeIndex));
        slots, torn := log, tail;
      }
    }

    /** Starts over in sector 0. */
    method Format() returns (ok: bool)
      requires Sized()
      modifies this
      ensures Traced()
      ensures ok && Valid() && currentSector == 0 && torn == None
      ensures Map() == map[] && Unique(slots)
      ensures forall j :: 1 <= j < nbSectors ==> flash[j] == old(flash)[j]
      ensures Records(slots) == []
      ensures |history| == |old(history)| + 3 && old(history) <= history && history[|history| - 1] == flash
      ensures (forall j :: 0 <= j < nbSectors ==> StateOf(old(flash)[j]) != Active) ==>
                forall k :: |old(history)| <= k < |history| - 1 ==> BootFrom(history[k], 0) == |history[k]|
    {
      hide Traced;
      currentSector := INVALID_SECTOR;
      ok := PrepareSector(0);
      if !ok {
        return false;
      }
      assert StateOf(flash[0]) == Prep;
      ok := SetSectorState(0, Active);
      if !ok {
        return false;
      }
      currentSector := 0;
      writeIndex := 4;
      slots, torn := [], None;
      assert Holds(flash, 0, [], None);
      assert StateOf(BlankSector()) == Erased;
      return true;
    }

    // ---------- reading ----------

    method FindEntry(id: nat) returns (found: bool, offset: nat, entry: Entry)
      requires |flash| == nbSectors && (currentSector == INVALID_SECTOR || 0 <= currentSector < nbSectors)
      ensures found <==> currentSector != INVALID_SECTOR && FindFrom(flash[currentSector], 4, id).Some?
      ensures found ==>
                offset == FindFrom(flash[currentSector], 4, id).value && entry == EntryAt(flash[currentSector], offset)
    {
      offset, entry := 4, Entry(0, 0, 0, 0);
      if currentSector == INVALID_SECTOR {
        return false, offset, entry;
      }
      while offset < SCAN_LIMIT
        invariant offset >= 4
        invariant FindFrom(flash[currentSector], 4, id) == FindFrom(flash[currentSector], offset, id)
        decreases SCAN_LIMIT - offset
      {
        entry := EntryAt(flash[currentSector], offset);
        if entry.id == ALL_ONES {
          return false, offset, entry;
        }
        var roundup := Roundup(entry.size);
        if roundup > MAX_PAYLOAD {
          return false, offset, entry;
        }
        if entry.state != 0 && entry.state != ALL_ONES {
          return false, offset, entry;
        }
        if id != entry.id || entry.state == 0 || entry.validated != 0 {
          offset := offset + 8 + roundup;
          continue;
        }
        return true, offset, entry;
      }
      return false, offset, entry;
    }

    /**
     * Reads are map lookups with the size the value has; on any bytes they deliver what lies behind the header that
     * `findEntry` finds, unless its size is another.
     */
    method Read(id: nat, size: nat, data: array<byte>) returns (ok: bool)
      requires Sized() && (currentSector == INVALID_SECTOR || 0 <= currentSector < nbSectors) && size <= data.Length
      requires Valid() || currentSector == INVALID_SECTOR
               || forall o :: FindFrom(flash[currentSector], 4, id) == Some(o) ==> o + 8 + size <= SECTOR_SIZE
      modifies data
      ensures ok <==> && id != 0 && currentSector != INVALID_SECTOR && FindFrom(flash[currentSector], 4, id).Some?
                      && U16(flash[currentSector], FindFrom(flash[currentSector], 4, id).value + 2) == size
      ensures ok ==> var o := FindFrom(flash[currentSector], 4, id).value;
                o + 8 + size <= SECTOR_SIZE && data[..size] == flash[currentSector][o + 8..o + 8 + size]
      ensures Valid() ==> (ok <==> id in Map() && |Map()[id]| == size)
      ensures Valid() && ok ==> data[..size] == Map()[id]
      ensures data[size..] == old(data[size..])
    {
      hide Traced, FindFrom, LogIs, TailIs, Contents, StateOf;
      if currentSector == INVALID_SECTOR {
        return false;
      }
      if Valid() {
        FoundInLog(flash[currentSector], slots, torn, id);
      }
      if id == 0 {
        return false;
      }
      var found, offset, entry := FindEntry(id);
      if !found {
        return false;
      }
      if entry.size != size {
        return false;
      }
      ReadSector(currentSector, offset + 8, size, data);
      return true;
    }

    // ---------- writing ----------

    /** Programs the header of a new entry behind the log. */
    method WriteHeader(id: half, size: half) returns (ok: bool)
      requires Mounted() && torn.None? && 0 < id < ALL_ONES && size <= MAX_PAYLOAD
      requires Traced()
      modifies this`flash, this`history
      ensures Traced()
      ensures ok && Started(old(flash), flash, currentSector, slots, id, size)
      ensures NotYetLive(old(flash), old(history), flash, history, currentSector, slots, id, size)
    {
      hide Traced;
      ghost var f, c, w, h0 := flash, currentSector, writeIndex, history;
      var header := HeaderBytes(Entry(id, size, ALL_ONES, ALL_ONES));
      hide NotYetLive, Started, Steps, Overlay, CanProgramAll, HeaderBytes;
      HeaderProgrammable(f, c, slots, id, size);
      ghost var part;
      ok, part := WriteSector(currentSector, writeIndex, header);
      HeaderSteps(f, c, slots, id, size, h0);
    }

    /** Programs the payload of the entry whose header has just been written; without room it may leave the sector. */
    method WritePayload(ghost f: Flash, ghost h0: seq<Flash>, id: half, size: half, data: seq<byte>) returns (ok: bool)
      requires 0 <= currentSector && Holds(f, currentSector, slots, None) && writeIndex == End(slots)
      requires 0 < id < ALL_ONES && size <= MAX_PAYLOAD && |data| == Roundup(size)
      requires Started(f, flash, currentSector, slots, id, size)
      requires NotYetLive(f, h0, flash, history, currentSector, slots, id, size)
      requires Traced()
      modifies this`flash, this`history
      ensures Traced()
      ensures NotYetLive(f, h0, flash, history, currentSector, slots, id, size) && old(history) <= history
      ensures HasRoom(slots, size) ==> Filled(f, flash, currentSector, slots, id, size, data)
      ensures End(slots) + 8 + Roundup(size) <= SECTOR_SIZE ==> ok
    {
      hide Traced;
      hide NotYetLive, Started, Filled, Steps, Overlay, KeptBelow, Holds, CanProgramAll, HasRoom, Roundup, Off;
      ghost var g, c, h1 := flash, currentSector, history;
      PayloadBounds(f, h0, g, h1, c, slots, id, size);
      if writeIndex + 8 + |data| <= SECTOR_SIZE {
        PayloadProgrammable(f, g, c, slots, id, size, data);
        ghost var part;
        ok, part := WriteSector(currentSector, writeIndex + 8, data);
        PayloadInside(f, h0, g, h1, c, slots, id, size, data);
      } else {
        NoRoomOutside(slots, size);
        ok := WriteOn(currentSector, writeIndex + 8, data);
        PayloadOutside(f, h0, g, h1, flash, history, c, slots, id, size);
      }
    }

    /** Makes the new entry valid. */
    method Validate(ghost f: Flash, ghost h0: seq<Flash>, id: half, size: half, data: seq<byte>, ghost x: Slot)
      returns (ok: bool)
      requires 0 <= currentSector && Holds(f, currentSector, slots, None) && writeIndex == End(slots)
      requires x == Slot(id, size, ALL_ONES, 0, data) && SlotOk(x)
      requires NotYetLive(f, h0, flash, history, currentSector, slots, id, size)
      requires HasRoom(slots, size) ==> Filled(f, flash, currentSector, slots, id, size, data)
      requires Traced()
      modifies this`flash, this`history
      ensures Traced()
      ensures ok && Added(f, h0, flash, history, currentSector, slots, x) && old(history) <= history
      ensures OnlySector(old(flash), flash, currentSector)
    {
      hide Traced;
      hide NotYetLive, Added, Holds, Filled;
      ghost var g, c, h := flash, currentSector, history;
      PayloadBounds(f, h0, g, h, c, slots, id, size);
      ok := Zero(currentSector, writeIndex + 6);
      ValidatedImages(f, h0, g, h, c, slots, x, flash);
    }

    /**
     * Header, payload, then `validated`: the new entry, live behind the log, with the old one for the same id still
     * there.
     */
    method AddEntry(id: half, size: half, data: seq<byte>, ghost x: Slot) returns (ok: bool)
      requires Mounted() && torn.None?
      requires x == Slot(id, size, ALL_ONES, 0, data) && SlotOk(x)
      requires Traced()
      modifies this`flash, this`history, this`writeIndex
      ensures Traced()
      ensures ok ==> Added(old(flash), old(history), flash, history, currentSector, slots, x)
      ensures ok ==> writeIndex == End(slots) + Foot(x)
      ensures !ok ==> NotYetLive(old(flash), old(history), flash, history, currentSector, slots, id, size)
      ensures !ok ==> writeIndex == 0
      ensures End(slots) + 8 + Roundup(size) <= SECTOR_SIZE ==> ok
      ensures old(history) <= history
      ensures HasRoom(slots, size) ==> OnlySector(old(flash), flash, currentSector)
    {
      hide Traced;
      ghost var f, h0 := flash, history;
      assert |data| == Roundup(size) && Holds(f, currentSector, slots, None);
      hide Holds, NotYetLive, Started, Filled, HasRoom, SlotOk, Added, Off, Roundup;
      ok := WriteHeader(id, size);
      if !ok {
        return; // a failing device: the write index would be dropped here
      }
      ghost var h1 := history;
      assert h0 <= h1 by {
        NotYetLiveGrows(f, h0, flash, h1, currentSector, slots, id, size);
      }
      ok := WritePayload(f, h0, id, size, data);
      if !ok {
        writeIndex := 0;
        return;
      }
      ok := Validate(f, h0, id, size, data, x);
      if !ok {
        return; // a failing device: the write index would be dropped here
      }
      writeIndex := writeIndex + 8 + Roundup(size);
    }

    /** Kills the old entry, if there was one: the last step of `write`. */
    method FinishWrite(hasOldEntry: bool, oldOffset: nat, ghost x: Slot, ghost f: Flash, ghost h0: seq<Flash>)
      returns (ok: bool)
      requires 0 <= currentSector && |f| == nbSectors && SlotOk(x) && Live(x)
      requires hasOldEntry <==> First(slots, x.id, 0) < |slots|
      requires hasOldEntry ==> oldOffset == Off(slots, First(slots, x.id, 0))
      requires torn.None? && writeIndex == End(slots) + Foot(x)
      requires Added(f, h0, flash, history, currentSector, slots, x)
      requires Traced()
      modifies this`flash, this`history, this`slots
      ensures Traced()
      ensures OnlySector(old(flash), flash, currentSector)
      ensures ok && torn.None? && writeIndex == End(old(slots)) + Foot(x) && |flash| == nbSectors
      ensures Finished(h0, flash, history, currentSector, old(slots), x, slots)
    {
      hide Traced;
      ghost var log, h, c, g := slots, history, currentSector, flash;
      ghost var i := First(slots, x.id, 0);
      AddedBounds(f, h0, g, h, c, log, x);
      hide Added, Finished, HasRoom, First, Off;
      if hasOldEntry {
        ok := Zero(currentSector, oldOffset + 4);
        slots := Killed(f, h0, g, h, c, log, x, i, flash);
      } else {
        ok := true;
        NothingToKill(f, h0, g, h, c, log, x);
        slots := log + [x];
      }
    }

    /** `findEntry`, told in terms of the log. */
    method FindSlot(id: nat) returns (found: bool, offset: nat)
      requires Sized() && Mounted()
      ensures found <==> First(slots, id, 0) < |slots|
      ensures found ==> offset == Off(slots, First(slots, id, 0))
    {
      var entry;
      found, offset, entry := FindEntry(id);
      FindFindsFirst(flash[currentSector], slots, torn, id);
    }

    /**
     * The second half of `write`: the new entry, then the `state` of the old one. With room behind the log, every image
     * on the way is that of the records before, with both values, or after, and only the first is read-only. Without
     * room the first is read-only for the records before, and all the others for everything but this id.
     */
    method AppendEntry(id: half, size: half, data: seq<byte>, ghost x: Slot) returns (ok: bool)
      requires Sized() && Mounted() && torn.None?
      requires x == Slot(id, size, ALL_ONES, 0, data) && SlotOk(x)
      modifies this
      ensures Traced()
      ensures currentSector == old(currentSector) && |flash| == nbSectors
      ensures Finished(old(history), flash, history, currentSector, old(slots), x, slots)
      ensures HasRoom(old(slots), size) ==> ok && Sized() && Mounted() && torn.None?
      ensures HasRoom(old(slots), size) ==>
                slots == AfterWrite(old(slots), x) && OnlySector(old(flash), flash, currentSector)
      ensures End(old(slots)) + 8 + Roundup(size) <= SECTOR_SIZE ==> ok
      ensures !ok ==> writeIndex == 0
    {
      hide Traced;
      ghost var f, h0, log := flash, history, slots;
      assert |f| == nbSectors;
      hide LogIs, TailIs, SlotAt, FindFrom, StateOf, NotYetLive, Added, Finished, HasRoom, SlotOk, First, Off, Live;
      var hasOldEntry, oldOffset := FindSlot(id);
      ok := AddEntry(id, size, data, x);
      RoomInside(log, size);
      if !ok {
        NeverLive(f, h0, flash, history, currentSector, slots, x);
        return;
      }
      ok := FinishWrite(hasOldEntry, oldOffset, x, f, h0);
      if HasRoom(log, size) {
        FinishedMeans(h0, flash, history, currentSector, log, x, slots);
      }
    }

    // ---------- garbage collection ----------

    /**
     * Copies one entry: header, payload, and once more the `validated` half-word the header already carries as zero.
     */
    method CopyEntry(sector: nat, offset: nat, entry: Entry, payload: seq<byte>) returns (ok: bool)
      requires sector < |flash| && 4 <= offset && offset + 8 + |payload| <= SECTOR_SIZE && |payload| % 2 == 0
      requires BlankFrom(flash[sector], offset) && entry.validated == 0
      requires StateOf(flash[sector]) != Active
      requires Traced()
      modifies this`flash, this`history
      ensures Traced()
      ensures ok && |flash| == |old(flash)| && Building(old(flash), flash, sector)
      ensures StateOf(flash[sector]) == StateOf(old(flash)[sector])
      ensures forall b :: 0 <= b < offset ==> flash[sector][b] == old(flash)[sector][b]
      ensures EntryAt(flash[sector], offset) == entry
      ensures flash[sector][offset + 8..offset + 8 + |payload|] == payload
      ensures BlankFrom(flash[sector], offset + 8 + |payload|)
      ensures old(history) <= history && AllBuilding(old(flash), history, |old(history)|, sector)
      ensures |history| == |old(history)| + 5 + |payload| / 2
    {
      hide Traced;
      ghost var f := flash;
      ghost var h0 := history;
      ghost var part;
      var header := HeaderBytes(entry);
      assert CanProgramAll(f[sector], offset, header);
      ok, part := WriteSector(sector, offset, header);
      StepsBuild(f, f, h0, h0, sector, offset, header);
      if !ok {
        return;
      }
      ghost var g, h1 := flash, history;
      assert CanProgramAll(g[sector], offset + 8, payload);
      ok, part := WriteSector(sector, offset + 8, payload);
      StepsBuild(f, g, h0, h1, sector, offset + 8, payload);
      if !ok {
        return;
      }
      ok := Zero(sector, offset + 6);
      CopiedBytes(f[sector], flash[sector], offset, entry, payload);
    }

    /** The copying loop of garbage collection: every live slot of the current log ends up in sector `other`. */
    method CopyLive(other: nat) returns (ghost copied: seq<Slot>)
      requires Valid() && currentSector != INVALID_SECTOR && torn.None?
      requires other < nbSectors && other != currentSector
      requires flash[other] == Overlay(BlankSector(), 0, [0, 0])
      modifies this`flash, this`history
      ensures Traced()
      ensures Building(old(flash), flash, other)
      ensures StateOf(flash[other]) == Prep
      ensures SameRecords(copied, LiveSlots(slots)) && End(copied) <= End(slots)
      ensures LogIs(flash[other], copied) && BlankFrom(flash[other], End(copied))
      ensures |old(history)| <= |history| && old(history) <= history
              && AllBuilding(old(flash), history, |old(history)|, other)
    {
      hide Traced, Roundup;
      hide LogIs, SlotAt, EntryAt, StateOf, LiveSlots, SameRecords, TailIs;
      hide Off, AllBuilding, Building, BlankFrom, Copying;
      ghost var f, h0 := flash, history;
      CopyingStarts(f, h0, other, slots);
      var tmp := new byte[MAX_PAYLOAD];
      var offset, writeOffset := 4, 4;
      var run := true;
      copied := [];
      ghost var i := 0;
      while run && offset < writeIndex
        invariant i <= |slots| && offset == Off(slots, i) && run && writeOffset == End(copied) && Traced()
        invariant Copying(f, h0, flash, history, other, slots, i, copied)
        decreases |slots| - i
      {
        CopyingMeans(f, h0, flash, history, other, slots, i, copied);
        SlotRead(flash[currentSector], slots, i);
        SlotSizes(slots[i]);
        var entry := EntryAt(flash[currentSector], offset);
        var roundup := Roundup(entry.size);
        if entry.id == ALL_ONES {
          break;
        }
        if entry.size > MAX_PAYLOAD {
          run := false;
          continue;
        }
        if entry.state != ALL_ONES || entry.validated != 0 {
          offset := offset + 8 + roundup;
          CopyingSkips(f, h0, flash, history, other, slots, i, copied);
          i := i + 1;
          continue;
        }
        ReadSector(currentSector, offset + 8, entry.size, tmp);
        offset := offset + 8 + roundup;
        ghost var g, h := flash, history;
        ghost var y := Slot(entry.id, entry.size, entry.state, entry.validated, tmp[..roundup]);
        var ok := CopyEntry(other, writeOffset, entry, tmp[..roundup]);
        if !ok {
          run := false;
          continue;
        }
        writeOffset := writeOffset + 8 + roundup;
        assert y.payload[..y.size] == tmp[..entry.size];
        CopyingCopies(f, h0, g, h, flash, history, other, slots, i, copied, y);
        copied := copied + [y];
        i := i + 1;
      }
      CopyingEnds(f, h0, flash, history, other, slots, i, copied);
    }

    /** The other sector, filled, becomes the current one. */
    method SwitchSectors(otherSector: nat, ghost copied: seq<Slot>, ghost f: Flash, ghost h0: seq<Flash>)
      returns (ok: bool)
      requires 0 <= currentSector < nbSectors == |f| == |flash| && nbSectors >= 2
      requires otherSector == Next(currentSector, nbSectors) && Holds(f, currentSector, slots, None)
      requires AllOk(slots) && SameRecords(copied, LiveSlots(slots)) && End(copied) <= End(slots)
      requires forall j :: 0 <= j < nbSectors && j != otherSector ==> flash[j] == f[j]
      requires StateOf(flash[otherSector]) == Prep
      requires LogIs(flash[otherSector], copied) && BlankFrom(flash[otherSector], End(copied))
      requires |h0| <= |history| && h0 <= history && GoodFrom(history, |h0|, {Records(slots)}, -1)
      requires AllSized(history, |h0|, nbSectors)
      requires Traced()
      modifies this`flash, this`history, this`currentSector, this`slots
      ensures Traced()
      ensures ok && |flash| == nbSectors && currentSector == otherSector && slots == copied
      ensures Holds(flash, currentSector, slots, None)
      ensures flash[old(currentSector)] == BlankSector()
      ensures forall j :: 0 <= j < nbSectors && j != currentSector && j != old(currentSector) ==> flash[j] == f[j]
      ensures |old(history)| <= |history| && old(history) <= history
      ensures GoodFrom(history, |h0|, {Records(old(slots))}, -1) && AllSized(history, |h0|, nbSectors)
    {
      hide Traced;
      hide LogIs, SlotAt, EntryAt, StateOf, LiveSlots, SameRecords, TailIs;
      hide Off, GoodImage, AllOk, GoodFrom, Overlay, BlankFrom;
      ghost var c, log, s, h1 := currentSector, slots, flash[otherSector], history;
      ok := SetSectorState(otherSector, Active);
      if !ok {
        return;
      }
      ActivatedSector(s, copied);
      ActivatedGood(f, flash, c, log, copied);
      GoodFromNext(h1, flash, |h0|, {Records(log)}, -1, Records(log));
      ghost var h2 := history;
      var previousCurrent := currentSector;
      currentSector := otherSector;
      var erased := EraseSector(previousCurrent);
      OldErasedGood(f, flash, c, log, copied);
      GoodFromNext(h2, flash, |h0|, {Records(log)}, -1, Records(log));
      slots := copied;
    }

    /**
     * Copies the live entries into the next sector, activates it and erases the current one. Whatever the step after
     * which power is lost, begin() finds the same records and a store it can write to.
     */
    method GarbageCollection() returns (ok: bool)
      requires Valid() && (currentSector != INVALID_SECTOR ==> torn.None?)
      modifies this
      ensures Traced()
      ensures ok <==> old(currentSector) != INVALID_SECTOR
      ensures !ok ==> Valid() && currentSector == INVALID_SECTOR && flash == old(flash) && history == old(history)
      ensures ok ==>
        && Sized() && currentSector == Next(old(currentSector), nbSectors) && torn.None?
        && writeIndex == old(writeIndex)
        && Holds(flash, currentSector, slots, None)
        && AllOk(old(slots)) && SameRecords(slots, LiveSlots(old(slots))) && End(slots) <= End(old(slots))
        && flash[old(currentSector)] == BlankSector()
        && (forall j :: 0 <= j < nbSectors && j != currentSector && j != old(currentSector) ==>
              flash[j] == old(flash)[j])
      ensures |old(history)| <= |history| && old(history) <= history
      ensures ok ==> GoodFrom(history, |old(history)|, {Records(old(slots))}, -1)
      ensures ok ==> AllSized(history, |old(history)|, nbSectors)
    {
      hide Traced;
      if currentSector == INVALID_SECTOR {
        return false;
      }
      hide LogIs, SlotAt, EntryAt, StateOf, LiveSlots, SameRecords, TailIs, Off, GoodImage, AllBuilding, GoodFrom;
      ghost var f, c, h0, log := flash, currentSector, history, slots;
      var otherSector := (currentSector + 1) % nbSectors;
      assert otherSector == Next(c, nbSectors);
      ok := PrepareSector(otherSector);
      if !ok {
        return;
      }
      PreparedBuilds(f, flash, h0, history, otherSector);
      BuildingIsInvisible(f, flash, c, log, None, otherSector);
      ghost var g, h1 := flash, history;
      ghost var copied := CopyLive(otherSector);
      BuildingJoins(f, g, flash, h0, h1, history, otherSector);
      BuildingGood(f, history, |h0|, c, log, otherSector);
      BuildingSized(f, history, |h0|, otherSector);
      ok := SwitchSectors(otherSector, copied, f, h0);
    }

    /** `write` after its argument checks: collects garbage first when the sector is nine tenths full. */
    method WriteChecked(id: half, size: half, data: seq<byte>, ghost x: Slot) returns (ok: bool, ghost tear: nat)
      requires Sized() && Mounted() && torn.None?
      requires x == Slot(id, size, ALL_ONES, 0, data) && SlotOk(x)
      modifies this
      ensures Traced()
      ensures AllOk(old(slots)) && |old(history)| <= tear && tear + 1 < |history| && old(history) <= history
      ensures history[|history| - 1] == flash && AllSized(history, |old(history)|, nbSectors)
      ensures GoodImage(history[tear], Records(old(slots)), false)
      ensures Fits(old(slots), size) ==>
        && ok && Sized() && Mounted() && torn.None? && Written(old(slots), slots, x)
        && Records(slots) == AfterPut(Records(old(slots)), RecordOf(x))
        && GoodFrom(history, |old(history)|, Outcomes(Records(old(slots)), RecordOf(x)), tear)
      ensures End(LiveSlots(old(slots))) + 8 + Roundup(size) <= SECTOR_SIZE ==> ok
      ensures !ok ==> writeIndex == 0
      ensures !Fits(old(slots), size) ==>
        && GoodFrom(history[..tear], |old(history)|, {Records(old(slots))}, -1)
        && AllReadOnly(history, tear + 1, old(slots), id)
      ensures old(writeIndex) + 8 + size + size % 2 < 921 ==>
        && ok && Sized() && Mounted() && torn.None? && currentSector == old(currentSector)
        && OnlySector(old(flash), flash, currentSector) && slots == AfterWrite(old(slots), x)
        && var w := old(writeIndex);
           && w >= 4 && w + 8 + |data| < 1014
           && flash[currentSector][w..w + 8 + |data|] ==
              [id % 256, id / 256, size % 256, size / 256, 255, 255, 0, 0] + data
      ensures old(writeIndex) + 8 + size + size % 2 >= 921 ==>
        && currentSector == (old(currentSector) + 1) % nbSectors
        && (Fits(old(slots), size) ==> flash[old(currentSector)] == BlankSector())
    {
      hide Traced;
      hide SlotAt, EntryAt, StateOf, LiveSlots, SameRecords, TailIs, Off, AfterWrite;
      hide GoodImage, Scan, GoodFrom, AllReadOnly, SlotOk, Roundup, Written, Fits, HasRoom, LogIs, Finished;
      StoredSize(x);
      tear := 0;
      if writeIndex + 8 + Roundup(size) >= SECTOR_SIZE * 9 / 10 {
        ok, tear := CollectAndAppend(id, size, data, x);
      } else {
        ghost var log := slots;
        BelowFits(log, size);
        tear := |history|;
        ok := AppendEntry(id, size, data, x);
        FinishedAtOnce(old(history), flash, history, currentSector, log, x, slots);
        WrittenInPlace(old(flash), flash, currentSector, log, x);
      }
    }

    /** `write` in a sector that is nine tenths full. */
    method CollectAndAppend(id: half, size: half, data: seq<byte>, ghost x: Slot) returns (ok: bool, ghost tear: nat)
      requires Sized() && Mounted() && torn.None?
      requires x == Slot(id, size, ALL_ONES, 0, data) && SlotOk(x)
      modifies this
      ensures Traced()
      ensures AllOk(old(slots)) && |old(history)| <= tear && tear + 1 < |history| && old(history) <= history
      ensures history[|history| - 1] == flash && AllSized(history, |old(history)|, nbSectors)
      ensures GoodImage(history[tear], Records(old(slots)), false)
      ensures Fits(old(slots), size) ==>
        && ok && Sized() && Mounted() && torn.None? && Written(old(slots), slots, x)
        && Records(slots) == AfterPut(Records(old(slots)), RecordOf(x))
        && GoodFrom(history, |old(history)|, Outcomes(Records(old(slots)), RecordOf(x)), tear)
      ensures End(LiveSlots(old(slots))) + 8 + Roundup(size) <= SECTOR_SIZE ==> ok
      ensures !ok ==> writeIndex == 0
      ensures !Fits(old(slots), size) ==>
        && GoodFrom(history[..tear], |old(history)|, {Records(old(slots))}, -1)
        && AllReadOnly(history, tear + 1, old(slots), id)
      ensures currentSector == Next(old(currentSector), nbSectors) && |flash| == nbSectors
      ensures Fits(old(slots), size) ==> flash[old(currentSector)] == BlankSector()
    {
      hide Traced;
      hide SlotAt, EntryAt, StateOf, LiveSlots, SameRecords, TailIs, Off, AfterWrite, LogIs;
      hide GoodImage, Scan, GoodFrom, AllReadOnly, SlotOk, Roundup, Written;
      tear := 0;
      ok := GarbageCollection();
      if !ok {
        return false, tear;
      }
      ghost var h1, log, copied := history, old(slots), slots;
      SameRecordsSameEnd(slots, LiveSlots(log));
      CollectedIsMounted(flash, currentSector, slots);
      ok := SanityCheck();
      if !ok {
        return false, tear;
      }
      if writeIndex <= 0 {
        return false, tear;
      }
      tear := |history|;
      ok := AppendEntry(id, size, data, x);
      FinishedAfterCollecting(old(history), h1, flash, history, currentSector, log, copied, x, slots);
    }

    /**
     * With room for the entry, writes are map updates that survive a power loss after any flash step; `tear`, the step
     * that programs the id of the new header, is the only one after which a fresh object can read but no longer write.
     * Without room that holds from `tear` on for good: the other ids are still read, but a fresh object cannot write.
     */
    method Write(id: nat, size: nat, data: seq<byte>) returns (ok: bool, ghost tear: nat)
      requires Valid()
      requires id < ALL_ONES && size <= MAX_PAYLOAD && Roundup(size) <= |data|
      modifies this
      ensures Traced()
      ensures id == 0 || old(currentSector) == INVALID_SECTOR || old(torn).Some? ==> !ok && Valid() && unchanged(this)
      ensures id != 0 && old(currentSector) != INVALID_SECTOR && old(torn).None? ==>
        && |old(history)| <= tear && tear + 1 < |history| && old(history) <= history && history[|history| - 1] == flash
        && AllSized(history, |old(history)|, nbSectors)
        && AllOk(old(slots)) && GoodImage(history[tear], Records(old(slots)), false)
        && (BootWriteIndex(flash) != 0 <==> Fits(old(slots), size))
        && (if Fits(old(slots), size)
            then WroteWell(old(slots), old(history), Slot(id, size, ALL_ONES, 0, data[..Roundup(size)]), tear) && ok
            else Jams(old(slots), old(history), id, tear))
      ensures id != 0 && old(currentSector) != INVALID_SECTOR && old(torn).None? ==>
        (End(LiveSlots(old(slots))) + 8 + Roundup(size) <= SECTOR_SIZE ==> ok) && (!ok ==> writeIndex == 0)
      ensures id != 0 && old(currentSector) != 100 && old(torn).None? && old(writeIndex) + 8 + size + size % 2 < 921 ==>
        && ok && currentSector == old(currentSector) && OnlySector(old(flash), flash, currentSector)
        && slots == AfterWrite(old(slots), Slot(id, size, 65535, 0, data[..Roundup(size)]))
        && HasEntryAt(flash, currentSector, old(writeIndex), id, size, data)
      ensures id != 0 && old(currentSector) != 100 && old(torn).None?
              && old(writeIndex) + 8 + size + size % 2 >= 921 ==>
        && currentSector == (old(currentSector) + 1) % nbSectors
        && (Fits(old(slots), size) ==> 0 <= old(currentSector) < |flash| && IsErased(flash[old(currentSector)]))
    {
      hide Traced;
      hide SlotAt, StateOf, TailIs, GoodImage, Lookup, LiveCount, First, Contents, GoodFrom, AllReadOnly, Fits, Records;
      hide LogIs, Roundup, FindFrom, AfterWrite, Off, Written;
      RoundupMeans(size);
      tear := 0;
      if currentSector == INVALID_SECTOR {
        return false, tear;
      }
      if id == 0 {
        return false, tear;
      }
      if writeIndex <= 0 {
        return false, tear;
      }
      var roundup := Roundup(size);
      ghost var x := Slot(id, size, ALL_ONES, 0, data[..roundup]);
      ghost var log := slots;
      ok, tear := WriteChecked(id, size, data[..roundup], x);
      if Fits(log, size) {
        HeldIsRead(flash, currentSector, slots, torn);
      } else {
        LastIsReadOnly(history, tear + 1, log, id);
      }
    }

    /** A complete write of slot `x` over the log `log`, and every image on the way. */
    ghost predicate WroteWell(log: seq<Slot>, h0: seq<Flash>, x: Slot, tear: nat)
      reads this
    {
      && Valid() && currentSector != INVALID_SECTOR && torn.None?
      && AllOk(log) && Written(log, slots, x)
      && Records(slots) == AfterPut(Records(log), RecordOf(x))
      && GoodFrom(history, |h0|, Outcomes(Records(log), RecordOf(x)), tear)
    }

    /** A write over the log `log` that does not fit, and every image on the way. */
    ghost predicate Jams(log: seq<Slot>, h0: seq<Flash>, id: nat, tear: nat)
      requires tear < |history| && AllOk(log)
      reads this
    {
      && GoodFrom(history[..tear], |h0|, {Records(log)}, -1)
      && AllReadOnly(history, tear + 1, log, id)
    }

    /** Before the tearing step the records are all there; behind it `ReadOnlyMeans` tells what is. */
    lemma JamsMeans(log: seq<Slot>, h0: seq<Flash>, id: nat, tear: nat)
      requires tear < |history| && AllOk(log) && Jams(log, h0, id, tear)
      ensures AllReadOnly(history, tear + 1, log, id)
      ensures forall k {:trigger history[k]} :: |h0| <= k < tear ==> GoodFor(history[k], {Records(log)}, true)
    {
      hide GoodFor, AllReadOnly;
      forall k {:trigger history[k]} | |h0| <= k < tear ensures GoodFor(history[k], {Records(log)}, true) {
        assert history[..tear][k] == history[k];
      }
    }
  }

  // ---------- what the contracts say, in bytes ----------

  lemma OnlySectorMeans(f: Flash, g: Flash, c: int)
    requires OnlySector(f, g, c)
    ensures |g| == |f| && forall j :: 0 <= j < |f| && j != c ==> g[j] == f[j]
  {
  }

  lemma HasEntryMeans(f: Flash, c: int, w: int, id: nat, size: nat, data: seq<byte>)
    requires HasEntryAt(f, c, w, id, size, data) && size <= 64
    ensures 0 <= c < |f| && 4 <= w && w + 8 + size + size % 2 < 1014 && size + size % 2 <= |data|
    ensures f[c][w] == id % 256 && f[c][w + 1] == id / 256 && f[c][w + 2] == size && f[c][w + 3] == 0
    ensures f[c][w + 4] == f[c][w + 5] == 255 && f[c][w + 6] == f[c][w + 7] == 0
    ensures forall k :: 0 <= k < size + size % 2 ==> f[c][w + 8 + k] == data[k]
  {
    var n := size + size % 2;
    var here := f[c][w..w + 8 + n];
    assert forall k :: 0 <= k < 8 + n ==> here[k] == f[c][w + k];
    forall k | 0 <= k < n ensures f[c][w + 8 + k] == data[k] {
      assert here[8 + k] == data[..n][k];
    }
  }

  /** One device operation: a sector becomes all ones, or two bytes of it change that were erased or become zero. */
  lemma DeviceStepMeans(f: Flash, g: Flash) returns (s: nat, at: nat)
    requires DeviceStep(f, g)
    ensures |g| == |f| && s < |f| && at < 1023 && forall j :: 0 <= j < |f| && j != s ==> g[j] == f[j]
    ensures || (forall b :: 0 <= b < 1024 ==> g[s][b] == 255)
            || ((forall b :: 0 <= b < 1024 && b != at && b != at + 1 ==> g[s][b] == f[s][b])
                && ((f[s][at] == 255 && f[s][at + 1] == 255) || (g[s][at] == 0 && g[s][at + 1] == 0)))
  {
    s :| 0 <= s < |f| && OnlySector(f, g, s) && (IsErased(g[s]) || HalfStep(f[s], g[s]));
    at := 0;
    if !IsErased(g[s]) {
      at :| 0 <= at < 1023 && ChangedAt(f[s], g[s], at);
    }
  }

  /** The history leaves no operation out. */
  lemma {:induction false} TraceMeans(start: Flash, h: seq<Flash>, k: nat)
    requires Trace(start, h) && k < |h|
    ensures DeviceStep(if k == 0 then start else h[k - 1], h[k])
  {
    if k < |h| - 1 {
      TraceMeans(start, h[..|h| - 1], k);
    }
  }

  /** What every image on the way of a write that fits promises. */
  lemma GoodFromMeans(h: seq<Flash>, from: nat, ls: set<seq<Record>>, tear: int, k: nat) returns (l: seq<Record>)
    requires GoodFrom(h, from, ls, tear) && from <= k < |h|
    ensures l in ls && BootFrom(h[k], 0) < |h[k]| && (BootWriteIndex(h[k]) != 0 <==> k != tear)
    ensures forall id: nat :: ReadBack(h[k], id) == Find(l, id)
  {
    assert GoodFor(h[k], ls, k != tear);
    l :| l in ls && GoodImage(h[k], l, k != tear);
    GoodMeans(h[k], l, k != tear);
  }

  /** And of one that does not fit, from the step after its first on. */
  lemma ReadOnlyMeans(h: seq<Flash>, from: nat, slots: seq<Slot>, id: nat, k: nat)
    requires AllOk(slots) && AllReadOnly(h, from, slots, id) && from <= k < |h|
    ensures BootFrom(h[k], 0) < |h[k]| && BootWriteIndex(h[k]) == 0
    ensures forall other: nat :: other != id ==> ReadBack(h[k], other) == Lookup(slots, other)
  {
    assert ReadOnly(h[k], slots, id);
  }

  /** What is held is what `begin` mounts, and there is only one log it can be. */
  lemma OneHeld(f: Flash, c: nat, log: seq<Slot>, tail: Option<half>, before: int)
    requires Holds(f, c, log, tail)
    ensures BootFrom(f, 0) == c < |f| && (forall j :: 0 <= j < c ==> StateOf(f[j]) != Active)
    ensures Found(f[c], before) == if tail.None? then End(log) else before
    ensures forall d, l, t :: Holds(f, d, l, t) ==> d == c && l == log && t == tail
  {
    HeldIsRead(f, c, log, tail);
    ScanFindsEnd(f[c], log, tail, 0);
    forall d, l, t | Holds(f, d, l, t) ensures d == c && l == log && t == tail {
      HeldOnce(f, c, log, tail, d, l, t);
    }
  }

  lemma FreshIndex(f: Flash, c: nat)
    requires c == BootFrom(f, 0)
    ensures BootWriteIndex(f) == if c < |f| then Found(f[c], 0) else 0
  {
  }

  lemma CollectedIsMounted(f: Flash, c: nat, slots: seq<Slot>)
    requires Holds(f, c, slots, None)
    ensures Sane(f[c]) && Scan(f[c], 4) == Some(End(slots))
  {
    FirstEntryIsSane(f[c], slots, None);
    ScanFindsEnd(f[c], slots, None, 0);
  }

  /** `g` and `h` are what flash and history become when the first `i` half-words of `data` are programmed. */
  ghost predicate Programmed(f: Flash, h0: seq<Flash>, g: Flash, h: seq<Flash>, sector: nat, off: nat, data: seq<byte>,
                             i: nat)
    requires sector < |f| && off + |data| <= SECTOR_SIZE && 2 * i <= |data|
  {
    && g == f[sector := Overlay(f[sector], off, data[..2 * i])]
    && h == h0 + Steps(f, sector, off, data[..2 * i])
    && forall k: nat :: k < i ==> CanProgram(f[sector], off, data, k)
  }

  lemma NothingProgrammed(f: Flash, h0: seq<Flash>, sector: nat, off: nat, data: seq<byte>)
    requires sector < |f| && off + |data| <= SECTOR_SIZE
    ensures Programmed(f, h0, f, h0, sector, off, data, 0)
  {
    assert Overlay(f[sector], off, data[..0]) == f[sector];
  }

  lemma ProgrammedMeans(f: Flash, h0: seq<Flash>, g: Flash, h: seq<Flash>, sector: nat, off: nat, data: seq<byte>,
                        i: nat)
    requires sector < |f| && off + |data| <= SECTOR_SIZE && 2 * i <= |data|
    requires Programmed(f, h0, g, h, sector, off, data, i)
    ensures g == f[sector := Overlay(f[sector], off, data[..2 * i])] && h == h0 + Steps(f, sector, off, data[..2 * i])
    ensures 2 * i == |data| ==> data[..2 * i] == data && g == f[sector := Overlay(f[sector], off, data)]
    ensures 2 * i == |data| ==> h == h0 + Steps(f, sector, off, data) && CanProgramAll(f[sector], off, data)
  {
  }

  /** The half-word to come is as it was, and programming it makes one step more. */
  lemma NextHalf(f: Flash, h0: seq<Flash>, g: Flash, h: seq<Flash>, sector: nat, off: nat, data: seq<byte>, i: nat)
    requires sector < |f| && off + |data| <= SECTOR_SIZE && 2 * i + 1 < |data|
    requires Programmed(f, h0, g, h, sector, off, data, i)
    ensures |g| == |f|
    ensures var k := WithHalf(g, sector, off + 2 * i, data[2 * i], data[2 * i + 1]);
      if || (g[sector][off + 2 * i] == 255 && g[sector][off + 2 * i + 1] == 255)
         || (data[2 * i] == 0 && data[2 * i + 1] == 0)
      then Programmed(f, h0, k, h + [k], sector, off, data, i + 1) else !CanProgramAll(f[sector], off, data)
  {
    StepsGrow(f, sector, off, data, i);
    hide Steps, Overlay;
    var k := WithHalf(g, sector, off + 2 * i, data[2 * i], data[2 * i + 1]);
    var can := CanProgram(f[sector], off, data, i);
    assert can <==> || (g[sector][off + 2 * i] == 255 && g[sector][off + 2 * i + 1] == 255)
                    || (data[2 * i] == 0 && data[2 * i + 1] == 0);
    hide CanProgram;
    if can {
      assert k == f[sector := Overlay(f[sector], off, data[..2 * (i + 1)])];
      assert h + [k] == h0 + Steps(f, sector, off, data[..2 * (i + 1)]);
    }
  }

  lemma StepsKept(f: Flash, g: Flash, h: seq<Flash>, c: nat, from: nat, sector: nat, off: nat, data: seq<byte>)
    requires KeptBelow(f, g, c, from) && sector < |g| && off + |data| <= SECTOR_SIZE && |data| % 2 == 0
    requires sector == c + 1 || (sector == c && off >= from)
    ensures KeptBelow(f, g[sector := Overlay(g[sector], off, data)], c, from)
    ensures forall k {:trigger (h + Steps(g, sector, off, data))[k]} :: |h| <= k < |h + Steps(g, sector, off, data)| ==>
              KeptBelow(f, (h + Steps(g, sector, off, data))[k], c, from)
  {
  }

  lemma NothingChanged(f: Flash, c: nat, from: nat)
    requires c < |f| && from <= SECTOR_SIZE
    ensures KeptBelow(f, f, c, from)
  {
  }

  lemma LastStep(f: Flash, sector: nat, off: nat, data: seq<byte>, h: seq<Flash>)
    requires sector < |f| && off + |data| <= SECTOR_SIZE && |data| % 2 == 0
    requires h != [] && h[|h| - 1] == f
    ensures var all := h + Steps(f, sector, off, data);
      all[|all| - 1] == f[sector := Overlay(f[sector], off, data)]
  {
    assert data[..|data|] == data;
    if data == [] {
      assert Overlay(f[sector], off, data) == f[sector];
    }
  }

  lemma PayloadProgrammable(f: Flash, g: Flash, c: nat, slots: seq<Slot>, id: half, size: half, data: seq<byte>)
    requires Started(f, g, c, slots, id, size) && End(slots) + 8 + |data| <= SECTOR_SIZE
    ensures CanProgramAll(g[c], End(slots) + 8, data)
  {
  }

  lemma NoRoomOutside(slots: seq<Slot>, size: nat)
    requires End(slots) + 8 + Roundup(size) > SECTOR_SIZE
    ensures !HasRoom(slots, size)
  {
  }

  // ---------- images of a write without room ----------

  ghost predicate AllJammed(h: seq<Flash>, from: nat, c: nat, slots: seq<Slot>, id: half, size: half) {
    forall k {:trigger h[k]} :: from <= k < |h| ==> Jammed(h[k], c, slots, id, size)
  }

  ghost predicate AllReadOnly(h: seq<Flash>, from: nat, slots: seq<Slot>, id: nat)
    requires AllOk(slots)
  {
    forall k {:trigger h[k]} :: from <= k < |h| ==> ReadOnly(h[k], slots, id)
  }

  lemma AllJammedJoins(h: seq<Flash>, more: seq<Flash>, from: nat, c: nat, slots: seq<Slot>, id: half, size: half)
    requires from <= |h| <= |more| && h <= more
    requires AllJammed(h, from, c, slots, id, size) && AllJammed(more, |h|, c, slots, id, size)
    ensures AllJammed(more, from, c, slots, id, size)
  {
    hide Jammed;
    forall k {:trigger more[k]} | from <= k < |more| ensures Jammed(more[k], c, slots, id, size) {
      assert k < |h| ==> more[k] == h[k];
    }
  }

  lemma AllJammedNext(h: seq<Flash>, g: Flash, from: nat, c: nat, slots: seq<Slot>, id: half, size: half)
    requires from <= |h| && AllJammed(h, from, c, slots, id, size) && Jammed(g, c, slots, id, size)
    ensures AllJammed(h + [g], from, c, slots, id, size)
  {
    hide Jammed;
    var more := h + [g];
    forall k {:trigger more[k]} | from <= k < |more| ensures Jammed(more[k], c, slots, id, size) {
      assert k < |h| ==> more[k] == h[k];
    }
  }

  lemma AllJammedReadOnly(h: seq<Flash>, from: nat, c: nat, slots: seq<Slot>, id: half, size: half)
    requires AllOk(slots) && AllJammed(h, from, c, slots, id, size)
    ensures AllReadOnly(h, from, slots, id)
  {
    hide ReadOnly, Jammed;
    forall k {:trigger h[k]} | from <= k < |h| ensures ReadOnly(h[k], slots, id) {
      JammedIsReadOnly(h[k], c, slots, id, size);
    }
  }

  lemma AllReadOnlyNext(h: seq<Flash>, g: Flash, from: nat, slots: seq<Slot>, id: nat)
    requires AllOk(slots) && from <= |h| && AllReadOnly(h, from, slots, id) && ReadOnly(g, slots, id)
    ensures AllReadOnly(h + [g], from, slots, id)
  {
    hide ReadOnly;
    var more := h + [g];
    forall k {:trigger more[k]} | from <= k < |more| ensures ReadOnly(more[k], slots, id) {
      assert k < |h| ==> more[k] == h[k];
    }
  }

  lemma KeptStaysJammed(f: Flash, g: Flash, h0: seq<Flash>, h: seq<Flash>, c: nat, slots: seq<Slot>, id: half,
                        size: half)
    requires Jammed(f, c, slots, id, size) && End(slots) + 8 <= SECTOR_SIZE
    requires KeptBelow(f, g, c, End(slots) + 8)
    requires forall k {:trigger h[k]} :: |h0| <= k < |h| ==> KeptBelow(f, h[k], c, End(slots) + 8)
    ensures Jammed(g, c, slots, id, size) && AllJammed(h, |h0|, c, slots, id, size)
  {
    hide Jammed;
    StaysJammed(f, g, c, slots, id, size);
    forall k {:trigger h[k]} | |h0| <= k < |h| ensures Jammed(h[k], c, slots, id, size) {
      StaysJammed(f, h[k], c, slots, id, size);
    }
  }

  lemma ZeroStaysJammed(f: Flash, g: Flash, c: nat, slots: seq<Slot>, id: half, size: half)
    requires Jammed(f, c, slots, id, size) && End(slots) + 8 <= SECTOR_SIZE
    requires c < |f| && g == f[c := Overlay(f[c], End(slots) + 6, [0, 0])]
    ensures Jammed(g, c, slots, id, size)
  {
    hide Jammed;
    StaysJammed(f, g, c, slots, id, size);
  }

  // ---------- images of a write with room ----------

  lemma HeaderImage(f: Flash, c: nat, slots: seq<Slot>, id: half, size: half, k: nat)
    requires Holds(f, c, slots, None) && 0 < id < ALL_ONES && size <= MAX_PAYLOAD && 2 <= k <= 4 && HasRoom(slots, size)
    ensures GoodImage(f[c := Overlay(f[c], End(slots), HeaderBytes(Entry(id, size, ALL_ONES, ALL_ONES))[..2 * k])],
                      Records(slots), true)
  {
    var x := Slot(id, size, ALL_ONES, ALL_ONES, Blank(Roundup(size)));
    HeaderCut(f, c, slots, id, size, k);
    RecordsAppend(slots, x);
    HeldIsGood(f[c := Overlay(f[c], End(slots), HeaderBytes(Entry(id, size, ALL_ONES, ALL_ONES))[..2 * k])],
               c, slots + [x], None);
  }

  lemma StartedBounds(f: Flash, g: Flash, c: nat, slots: seq<Slot>, id: half, size: half)
    requires Holds(f, c, slots, None) && Started(f, g, c, slots, id, size) && HasRoom(slots, size)
    ensures c < |g| && End(slots) + 8 + Roundup(size) <= SECTOR_SIZE && AllOk(slots)
  {
  }

  lemma PayloadSteps(f: Flash, g: Flash, c: nat, slots: seq<Slot>, id: half, size: half, data: seq<byte>, h: seq<Flash>)
    requires Holds(f, c, slots, None) && 0 < id < ALL_ONES && size <= MAX_PAYLOAD
    requires |data| == Roundup(size) && HasRoom(slots, size)
    requires Started(f, g, c, slots, id, size)
    ensures GoodFrom(h + Steps(g, c, End(slots) + 8, data), |h|, {Records(slots)}, -1)
  {
    hide Holds, Started, GoodImage, HasRoom, Overlay, Off, Records;
    StartedBounds(f, g, c, slots, id, size);
    var all := h + Steps(g, c, End(slots) + 8, data);
    forall k {:trigger all[k]} | |h| <= k < |all| ensures GoodFor(all[k], {Records(slots)}, true) {
      PayloadStep(f, g, c, slots, id, size, data, k - |h|);
    }
  }

  /** The image with the new slot validated holds one record more. */
  lemma ValidatedImage(g: Flash, c: nat, slots: seq<Slot>, x: Slot)
    requires Holds(g, c, slots + [x], None) && AllOk(slots) && SlotOk(x) && Live(x)
    ensures GoodImage(g, Records(slots) + [RecordOf(x)], true)
  {
    RecordsAppend(slots, x);
    HeldIsGood(g, c, slots + [x], None);
  }

  lemma GoodFromMore(h: seq<Flash>, from: nat, ls: set<seq<Record>>, ms: set<seq<Record>>, tear: int)
    requires GoodFrom(h, from, ls, tear) && ls <= ms
    ensures GoodFrom(h, from, ms, tear)
  {
    hide GoodImage;
  }

  lemma GoodFromShifts(h: seq<Flash>, from: nat, ls: set<seq<Record>>, tear: int)
    requires GoodFrom(h, from, ls, -1) && !(from <= tear < |h|)
    ensures GoodFrom(h, from, ls, tear)
  {
    hide GoodFor;
  }

  // ---------- the stages of a write ----------

  ghost predicate AllSized(h: seq<Flash>, from: nat, n: nat) {
    forall k {:trigger h[k]} :: from <= k < |h| ==> |h[k]| == n
  }

  lemma AllSizedJoins(h: seq<Flash>, more: seq<Flash>, from: nat, n: nat)
    requires from <= |h| <= |more| && h <= more && AllSized(h, from, n) && AllSized(more, |h|, n)
    ensures AllSized(more, from, n)
  {
    forall k {:trigger more[k]} | from <= k < |more| ensures |more[k]| == n {
      assert k < |h| ==> more[k] == h[k];
    }
  }

  lemma OneSized(h: seq<Flash>, g: Flash, n: nat)
    requires |g| == n
    ensures AllSized(h + [g], |h|, n)
  {
  }

  lemma KeptSized(g: Flash, k: Flash, h: seq<Flash>, from: nat, c: nat, off: nat)
    requires KeptBelow(g, k, c, off)
    requires forall i {:trigger h[i]} :: from <= i < |h| ==> KeptBelow(g, h[i], c, off)
    ensures |k| == |g| && AllSized(h, from, |g|)
  {
  }

  lemma StepsSized(f: Flash, sector: nat, off: nat, data: seq<byte>, h: seq<Flash>)
    requires sector < |f| && off + |data| <= SECTOR_SIZE
    ensures AllSized(h + Steps(f, sector, off, data), |h|, |f|)
  {
  }

  /**
   * The flash has gone from `f` with history `h0` to `g` with history `h` while an entry was being added behind the
   * log of sector `c`, and the entry is not live yet. The first image has the records of the log and is read-only.
   * With room for the entry the others have them too and can be written; without, they have the log behind a header
   * that jams it.
   */
  ghost predicate NotYetLive(f: Flash, h0: seq<Flash>, g: Flash, h: seq<Flash>, c: nat, slots: seq<Slot>, id: half,
                             size: half) {
    && AllOk(slots) && |g| == |f| && |h0| + 1 < |h| && h0 <= h && h[|h| - 1] == g && AllSized(h, |h0|, |f|)
    && GoodImage(h[|h0|], Records(slots), false)
    && (HasRoom(slots, size) ==> GoodFrom(h, |h0|, {Records(slots)}, |h0|))
    && (!HasRoom(slots, size) ==>
          && Jammed(g, c, slots, id, size)
          && AllJammed(h, |h0| + 1, c, slots, id, size))
  }

  /** The same with the entry `x` live, and the old one of its id, if there is one, live as well. */
  ghost predicate Added(f: Flash, h0: seq<Flash>, g: Flash, h: seq<Flash>, c: nat, slots: seq<Slot>, x: Slot) {
    && AllOk(slots) && SlotOk(x) && |g| == |f| && |h0| + 1 < |h| && h0 <= h && h[|h| - 1] == g
    && AllSized(h, |h0|, |f|)
    && GoodImage(h[|h0|], Records(slots), false)
    && (HasRoom(slots, x.size) ==>
          && Holds(g, c, slots + [x], None)
          && GoodFrom(h, |h0|, Outcomes(Records(slots), RecordOf(x)), |h0|))
    && (!HasRoom(slots, x.size) ==>
          && Jammed(g, c, slots, x.id, x.size)
          && AllJammed(h, |h0| + 1, c, slots, x.id, x.size))
  }

  /** The write of `x` over the log `log` has come to its end, with `after` the log of the sector if there was room. */
  ghost predicate Finished(h0: seq<Flash>, g: Flash, h: seq<Flash>, c: int, log: seq<Slot>, x: Slot, after: seq<Slot>) {
    && AllOk(log) && SlotOk(x) && |h0| + 1 < |h| && h0 <= h && h[|h| - 1] == g && c >= 0
    && AllSized(h, |h0|, |g|)
    && GoodImage(h[|h0|], Records(log), false)
    && (HasRoom(log, x.size) ==>
          && after == AfterWrite(log, x) && Holds(g, c, after, None)
          && GoodFrom(h, |h0|, Outcomes(Records(log), RecordOf(x)), |h0|))
    && (!HasRoom(log, x.size) ==> AllReadOnly(h, |h0| + 1, log, x.id))
  }

  lemma FinishedMeans(h0: seq<Flash>, g: Flash, h: seq<Flash>, c: int, log: seq<Slot>, x: Slot, after: seq<Slot>)
    requires Finished(h0, g, h, c, log, x, after) && HasRoom(log, x.size)
    ensures c >= 0 && Holds(g, c, after, None) && End(after) == End(log) + Foot(x) && after == AfterWrite(log, x)
  {
    AfterWriteEnd(log, x);
  }

  /**
   * A write behind the collected log is a write of the log that was collected, with the images of collecting before it.
   */
  lemma FinishedAfterCollecting(h0: seq<Flash>, h1: seq<Flash>, g: Flash, h: seq<Flash>, c: int, log: seq<Slot>,
                                copied: seq<Slot>, x: Slot, after: seq<Slot>)
    requires AllOk(log) && SameRecords(copied, LiveSlots(log)) && Live(x)
    requires |h0| <= |h1| && h0 <= h1 && GoodFrom(h1, |h0|, {Records(log)}, -1) && AllSized(h1, |h0|, |g|)
    requires Finished(h1, g, h, c, copied, x, after)
    ensures |h1| + 1 < |h| && h0 <= h && AllSized(h, |h0|, |g|) && h[|h| - 1] == g
    ensures GoodImage(h[|h1|], Records(log), false)
    ensures Fits(log, x.size) <==> HasRoom(copied, x.size)
    ensures SlotOk(x)
    ensures Fits(log, x.size) ==>
      && AllOk(after) && Written(log, after, x) && Records(after) == AfterPut(Records(log), RecordOf(x))
      && GoodFrom(h, |h0|, Outcomes(Records(log), RecordOf(x)), |h1|)
    ensures !Fits(log, x.size) ==>
      GoodFrom(h[..|h1|], |h0|, {Records(log)}, -1) && AllReadOnly(h, |h1| + 1, log, x.id)
  {
    hide GoodFrom, GoodImage, AllReadOnly, Records, AllSized, Outcomes, SameRecords;
    hide LiveSlots, Holds, Off, AfterWrite, Written;
    hide AfterPut, RecordOf;
    SameRecordsSameEnd(copied, LiveSlots(log));
    CollectThenWrite(log, copied, x);
    CollectedRecords(copied, log);
    WrittenRecords(copied, x);
    AllSizedJoins(h1, h, |h0|, |g|);
    if HasRoom(copied, x.size) {
      OutcomesHave(Records(log), RecordOf(x));
      GoodFromShifts(h1, |h0|, {Records(log)}, |h1|);
      GoodFromJoins(h1, h, |h0|, {Records(log)}, Outcomes(Records(log), RecordOf(x)), |h1|);
    } else {
      assert h[..|h1|] == h1;
      ReadOnlyAlike(h, |h1| + 1, copied, log, x.id);
    }
  }

  lemma FinishedAtOnce(h0: seq<Flash>, g: Flash, h: seq<Flash>, c: int, log: seq<Slot>, x: Slot, after: seq<Slot>)
    requires Finished(h0, g, h, c, log, x, after) && HasRoom(log, x.size) && Live(x)
    ensures AllOk(log) && AllOk(after) && SlotOk(x)
    ensures |h0| + 1 < |h| && h0 <= h && h[|h| - 1] == g && AllSized(h, |h0|, |g|)
    ensures GoodImage(h[|h0|], Records(log), false)
    ensures Written(log, after, x) && Records(after) == AfterPut(Records(log), RecordOf(x))
    ensures GoodFrom(h, |h0|, Outcomes(Records(log), RecordOf(x)), |h0|)
  {
    hide GoodFrom, GoodImage, AllReadOnly, Records, AllSized, Outcomes, Holds, AfterWrite, AfterPut, RecordOf, HasRoom;
    WrittenRecords(log, x);
    WriteIsWritten(log, x);
  }

  lemma SlotSizes(x: Slot)
    requires SlotOk(x)
    ensures x.size <= Roundup(x.size) <= MAX_PAYLOAD && Roundup(x.size) % 2 == 0
  {
  }

  lemma StoredSize(x: Slot)
    requires SlotOk(x)
    ensures x.size <= 64 && Roundup(x.size) == x.size + x.size % 2
  {
    RoundupMeans(x.size);
  }

  lemma WrittenInPlace(f: Flash, g: Flash, c: nat, log: seq<Slot>, x: Slot)
    requires Holds(f, c, log, None) && c < |g| && Holds(g, c, AfterWrite(log, x), None)
    requires x.state == 65535 && x.validated == 0
    ensures End(log) + 8 + |x.payload| < 1014
    ensures g[c][End(log)..End(log) + 8 + |x.payload|] ==
            [x.id % 256, x.id / 256, x.size % 256, x.size / 256, 255, 255, 0, 0] + x.payload
  {
    WrittenBytes(f, g, c, log, x);
  }

  /** Below nine tenths of the sector there is room, and would be after collecting. */
  lemma BelowFits(slots: seq<Slot>, size: nat)
    requires End(slots) + 8 + Roundup(size) < 921
    ensures HasRoom(slots, size) && Fits(slots, size) && End(slots) + 8 + Roundup(size) <= SECTOR_SIZE
    ensures End(LiveSlots(slots)) + 8 + Roundup(size) <= SECTOR_SIZE
  {
    LiveSlotsTakeLess(slots);
  }

  lemma RoomInside(slots: seq<Slot>, size: nat)
    ensures HasRoom(slots, size) ==> End(slots) + 8 + Roundup(size) <= SECTOR_SIZE
  {
  }

  lemma NotYetLiveGrows(f: Flash, h0: seq<Flash>, g: Flash, h: seq<Flash>, c: nat, slots: seq<Slot>, id: half,
                        size: half)
    requires NotYetLive(f, h0, g, h, c, slots, id, size)
    ensures |h0| + 1 < |h| && h0 <= h && h[|h| - 1] == g && |g| == |f| && AllOk(slots)
  {
  }

  lemma HeaderProgrammable(f: Flash, c: nat, slots: seq<Slot>, id: half, size: half)
    requires Holds(f, c, slots, None)
    ensures c < |f| && End(slots) + 8 <= SECTOR_SIZE && |HeaderBytes(Entry(id, size, ALL_ONES, ALL_ONES))| == 8
    ensures var header := HeaderBytes(Entry(id, size, ALL_ONES, ALL_ONES));
      && CanProgramAll(f[c], End(slots), header)
      && Started(f, f[c := Overlay(f[c], End(slots), header)], c, slots, id, size)
  {
    var header := HeaderBytes(Entry(id, size, ALL_ONES, ALL_ONES));
    assert header[..8] == header;
    HeaderBytesAt(f[c], Overlay(f[c], End(slots), header), End(slots), id, size, 4);
  }

  /** The images while a header is programmed. */
  lemma HeaderSteps(f: Flash, c: nat, slots: seq<Slot>, id: half, size: half, h0: seq<Flash>)
    requires Holds(f, c, slots, None) && 0 < id < ALL_ONES && size <= MAX_PAYLOAD && End(slots) + 8 <= SECTOR_SIZE
    ensures var header := HeaderBytes(Entry(id, size, ALL_ONES, ALL_ONES));
      NotYetLive(f, h0, f[c := Overlay(f[c], End(slots), header)], h0 + Steps(f, c, End(slots), header),
                 c, slots, id, size)
  {
    hide Holds, GoodImage, Jammed, AllSized, HeaderBytes, Overlay, HasRoom, Off, AllOk;
    HeaderStarts(f, c, slots, id, size);
    FourSteps(f, c, End(slots), Entry(id, size, ALL_ONES, ALL_ONES));
    var header := HeaderBytes(Entry(id, size, ALL_ONES, ALL_ONES));
    var h := h0 + Steps(f, c, End(slots), header);
    assert h[|h0|] == Steps(f, c, End(slots), header)[0];
    StepsSized(f, c, End(slots), header, h0);
    if HasRoom(slots, size) {
      forall k {:trigger h[k]} | |h0| <= k < |h| ensures GoodFor(h[k], {Records(slots)}, k != |h0|) {
        if k > |h0| {
          HeaderImage(f, c, slots, id, size, k - |h0| + 1);
        }
      }
    } else {
      forall k {:trigger h[k]} | |h0| + 1 <= k < |h| ensures Jammed(h[k], c, slots, id, size) {
        HeaderJams(f, c, slots, id, size, k - |h0| + 1);
      }
      assert h[|h| - 1] == Steps(f, c, End(slots), header)[3];
    }
  }

  lemma FourSteps(f: Flash, c: nat, off: nat, e: Entry)
    requires c < |f| && off + 8 <= SECTOR_SIZE
    ensures |HeaderBytes(e)| == 8 && HeaderBytes(e)[..8] == HeaderBytes(e)
    ensures var steps := Steps(f, c, off, HeaderBytes(e));
      |steps| == 4 && steps[3] == f[c := Overlay(f[c], off, HeaderBytes(e))]
  {
    assert HeaderBytes(e)[..8] == HeaderBytes(e);
  }

  lemma HeaderStarts(f: Flash, c: nat, slots: seq<Slot>, id: half, size: half)
    requires Holds(f, c, slots, None) && 0 < id < ALL_ONES && End(slots) + 8 <= SECTOR_SIZE
    ensures c < |f| && AllOk(slots) && |HeaderBytes(Entry(id, size, ALL_ONES, ALL_ONES))| == 8
    ensures GoodImage(f[c := Overlay(f[c], End(slots), HeaderBytes(Entry(id, size, ALL_ONES, ALL_ONES))[..2])],
                      Records(slots), false)
  {
    HeaderTorn(f, c, slots, id, size);
    HeldIsGood(f[c := Overlay(f[c], End(slots), HeaderBytes(Entry(id, size, ALL_ONES, ALL_ONES))[..2])],
               c, slots, Some(id));
  }

  lemma PayloadBounds(f: Flash, h0: seq<Flash>, g: Flash, h: seq<Flash>, c: nat, slots: seq<Slot>, id: half, size: half)
    requires Holds(f, c, slots, None) && size <= MAX_PAYLOAD && NotYetLive(f, h0, g, h, c, slots, id, size)
    ensures c < |f| == |g| && End(slots) + 8 <= SECTOR_SIZE && End(slots) < SCAN_LIMIT
    ensures Roundup(size) <= MAX_PAYLOAD && Roundup(size) % 2 == 0
    ensures h != [] && h[|h| - 1] == g
  {
  }

  /** The images while a payload is programmed that stays inside the sector. */
  lemma PayloadInside(f: Flash, h0: seq<Flash>, g: Flash, h: seq<Flash>, c: nat, slots: seq<Slot>, id: half, size: half,
                      data: seq<byte>)
    requires Holds(f, c, slots, None) && 0 < id < ALL_ONES && size <= MAX_PAYLOAD
    requires |data| == Roundup(size) && Started(f, g, c, slots, id, size) && End(slots) + 8 + |data| <= SECTOR_SIZE
    requires NotYetLive(f, h0, g, h, c, slots, id, size)
    ensures c < |g|
    ensures var k := g[c := Overlay(g[c], End(slots) + 8, data)];
      && NotYetLive(f, h0, k, h + Steps(g, c, End(slots) + 8, data), c, slots, id, size)
      && (HasRoom(slots, size) ==> Filled(f, k, c, slots, id, size, data))
  {
    hide LogIs, TailIs, Jammed, GoodFrom, AllJammed, Started, Filled;
    hide Steps, Overlay, KeptBelow, Holds, HasRoom, GoodImage;
    hide AllSized, Roundup, Off;
    PayloadBounds(f, h0, g, h, c, slots, id, size);
    LastStep(g, c, End(slots) + 8, data, h);
    StepsSized(g, c, End(slots) + 8, data, h);
    var k := g[c := Overlay(g[c], End(slots) + 8, data)];
    var more := h + Steps(g, c, End(slots) + 8, data);
    AllSizedJoins(h, more, |h0|, |f|);
    if HasRoom(slots, size) {
      FilledBy(f, g, c, slots, id, size, data);
      PayloadSteps(f, g, c, slots, id, size, data, h);
      GoodFromShifts(more, |h|, {Records(slots)}, |h0|);
      GoodFromJoins(h, more, |h0|, {Records(slots)}, {Records(slots)}, |h0|);
    } else {
      NothingChanged(g, c, End(slots) + 8);
      StepsKept(g, g, h, c, End(slots) + 8, c, End(slots) + 8, data);
      PayloadOutside(f, h0, g, h, k, more, c, slots, id, size);
    }
  }

  /** The images while a payload is programmed for which there is no room. */
  lemma PayloadOutside(f: Flash, h0: seq<Flash>, g: Flash, h: seq<Flash>, k: Flash, more: seq<Flash>, c: nat,
                       slots: seq<Slot>, id: half, size: half)
    requires NotYetLive(f, h0, g, h, c, slots, id, size) && !HasRoom(slots, size) && End(slots) + 8 <= SECTOR_SIZE
    requires KeptBelow(g, k, c, End(slots) + 8) && |h| <= |more| && h <= more && more[|more| - 1] == k
    requires forall i {:trigger more[i]} :: |h| <= i < |more| ==> KeptBelow(g, more[i], c, End(slots) + 8)
    ensures NotYetLive(f, h0, k, more, c, slots, id, size)
  {
    hide LogIs, Jammed, AllJammed, GoodFrom, GoodImage, HasRoom, AllSized, KeptBelow;
    KeptSized(g, k, more, |h|, c, End(slots) + 8);
    assert more[|h0|] == h[|h0|];
    AllSizedJoins(h, more, |h0|, |f|);
    KeptStaysJammed(g, k, h, more, c, slots, id, size);
    AllJammedJoins(h, more, |h0| + 1, c, slots, id, size);
  }

  lemma FilledThenValid(f: Flash, g: Flash, c: nat, slots: seq<Slot>, x: Slot, k: Flash)
    requires Holds(f, c, slots, None) && SlotOk(x) && x.state == ALL_ONES && x.validated == 0 && HasRoom(slots, x.size)
    requires Filled(f, g, c, slots, x.id, x.size, x.payload)
    requires c < |g| && End(slots) + 8 <= SECTOR_SIZE && k == g[c := Overlay(g[c], End(slots) + 6, [0, 0])]
    ensures Holds(k, c, slots + [x], None)
  {
    ValidateCut(f, c, slots, g[c], x.id, x.size, x.payload);
    assert k == f[c := Overlay(g[c], End(slots) + 6, [0, 0])];
  }

  lemma OutcomesHave(l: seq<Record>, r: Record)
    ensures l in Outcomes(l, r) && l + [r] in Outcomes(l, r) && AfterPut(l, r) in Outcomes(l, r)
  {
  }

  /** The image with `validated` programmed. */
  lemma ValidatedImages(f: Flash, h0: seq<Flash>, g: Flash, h: seq<Flash>, c: nat, slots: seq<Slot>, x: Slot, k: Flash)
    requires Holds(f, c, slots, None) && SlotOk(x) && x.state == ALL_ONES && x.validated == 0
    requires NotYetLive(f, h0, g, h, c, slots, x.id, x.size)
    requires HasRoom(slots, x.size) ==> Filled(f, g, c, slots, x.id, x.size, x.payload)
    requires c < |g| && End(slots) + 8 <= SECTOR_SIZE && k == g[c := Overlay(g[c], End(slots) + 6, [0, 0])]
    ensures Added(f, h0, k, h + [k], c, slots, x)
  {
    hide Holds, GoodFrom, GoodImage, Records, Filled, Overlay, Off, HasRoom, Jammed, AllJammed, AllSized, Outcomes;
    var l, r := Records(slots), RecordOf(x);
    OneSized(h, k, |f|);
    AllSizedJoins(h, h + [k], |h0|, |f|);
    if HasRoom(slots, x.size) {
      FilledThenValid(f, g, c, slots, x, k);
      ValidatedImage(k, c, slots, x);
      OutcomesHave(l, r);
      GoodFromMore(h, |h0|, {l}, Outcomes(l, r), |h0|);
      GoodFromNext(h, k, |h0|, Outcomes(l, r), |h0|, l + [r]);
    } else {
      ZeroStaysJammed(g, k, c, slots, x.id, x.size);
      AllJammedNext(h, k, |h0| + 1, c, slots, x.id, x.size);
    }
  }

  lemma AddedBounds(f: Flash, h0: seq<Flash>, g: Flash, h: seq<Flash>, c: nat, slots: seq<Slot>, x: Slot)
    requires Added(f, h0, g, h, c, slots, x)
    ensures AllOk(slots) && c < |g| == |f| && |h0| + 1 < |h| && h0 <= h && h[|h| - 1] == g
    ensures forall i: nat :: i < |slots| ==> Off(slots, i) + 6 <= SECTOR_SIZE
  {
    forall i: nat | i < |slots| ensures Off(slots, i) + 6 <= SECTOR_SIZE {
      OffBySizes(slots + [x], slots, |slots|);
      OffMonotone(slots, i, |slots|);
    }
  }

  /** The image with the old entry killed. */
  lemma Killed(f: Flash, h0: seq<Flash>, g: Flash, h: seq<Flash>, c: nat, slots: seq<Slot>, x: Slot, i: nat, k: Flash)
    returns (killed: seq<Slot>)
    requires Added(f, h0, g, h, c, slots, x) && Live(x) && i == First(slots, x.id, 0) < |slots|
    requires c < |g| && Off(slots, i) + 6 <= SECTOR_SIZE && k == g[c := Overlay(g[c], Off(slots, i) + 4, [0, 0])]
    ensures Finished(h0, k, h + [k], c, slots, x, killed)
  {
    hide Holds, GoodFrom, GoodImage, Records, AfterWrite, Jammed, AllJammed, AllReadOnly, ReadOnly, HasRoom, First;
    hide Overlay, Off, AllSized, Outcomes, Live;
    OneSized(h, k, |f|);
    AllSizedJoins(h, h + [k], |h0|, |f|);
    if HasRoom(slots, x.size) {
      killed := AfterWrite(slots, x);
      KilledHolds(g, c, slots, x, i);
      OutcomesHave(Records(slots), RecordOf(x));
      HeldIsGood(k, c, killed, None);
      WrittenRecords(slots, x);
      GoodFromNext(h, k, |h0|, Outcomes(Records(slots), RecordOf(x)), |h0|, Records(killed));
    } else {
      killed := slots[i := slots[i].(state := 0)];
      KilledStaysJammed(g, c, slots, x.id, x.size, i, k);
      JammedIsReadOnly(k, c, killed, x.id, x.size);
      KilledReadsAlike(k, slots, i, x.id);
      AllJammedReadOnly(h, |h0| + 1, c, slots, x.id, x.size);
      AllReadOnlyNext(h, k, |h0| + 1, slots, x.id);
    }
  }

  lemma NothingToKill(f: Flash, h0: seq<Flash>, g: Flash, h: seq<Flash>, c: nat, slots: seq<Slot>, x: Slot)
    requires Added(f, h0, g, h, c, slots, x) && First(slots, x.id, 0) == |slots|
    ensures Finished(h0, g, h, c, slots, x, slots + [x])
  {
    if !HasRoom(slots, x.size) {
      AllJammedReadOnly(h, |h0| + 1, c, slots, x.id, x.size);
    }
    hide Holds, GoodFrom, GoodImage, AllReadOnly, HasRoom;
  }

  /** A write that gives up in its payload. */
  lemma NeverLive(f: Flash, h0: seq<Flash>, g: Flash, h: seq<Flash>, c: int, slots: seq<Slot>, x: Slot)
    requires c >= 0 && NotYetLive(f, h0, g, h, c, slots, x.id, x.size) && SlotOk(x) && !HasRoom(slots, x.size)
    ensures Finished(h0, g, h, c, slots, x, slots)
  {
    AllJammedReadOnly(h, |h0| + 1, c, slots, x.id, x.size);
    hide Holds, GoodFrom, GoodImage, AllReadOnly, HasRoom;
  }

  lemma ReadOnlyAlike(h: seq<Flash>, from: nat, a: seq<Slot>, b: seq<Slot>, id: nat)
    requires AllOk(a) && AllOk(b) && Records(a) == Records(b) && AllReadOnly(h, from, a, id)
    ensures AllReadOnly(h, from, b, id)
  {
    forall other: nat ensures Lookup(a, other) == Lookup(b, other) {
      RecordsSayAll(a, other);
      RecordsSayAll(b, other);
    }
  }

  lemma LastIsReadOnly(h: seq<Flash>, from: nat, slots: seq<Slot>, id: nat)
    requires AllOk(slots) && AllReadOnly(h, from, slots, id) && from < |h|
    ensures BootWriteIndex(h[|h| - 1]) == 0
  {
  }

  /** Every image of `h` from `from` on differs from `f` in sector `other` only, which is not Active in it. */
  ghost predicate AllBuilding(f: Flash, h: seq<Flash>, from: nat, other: nat) {
    forall k {:trigger h[k]} :: from <= k < |h| ==> Building(f, h[k], other)
  }

  lemma StepsBuild(f: Flash, g: Flash, h0: seq<Flash>, h1: seq<Flash>, sector: nat, off: nat, data: seq<byte>)
    requires Building(f, g, sector) && 4 <= off && off + |data| <= SECTOR_SIZE && |data| % 2 == 0
    requires h0 <= h1 && AllBuilding(f, h1, |h0|, sector)
    ensures AllBuilding(f, h1 + Steps(g, sector, off, data), |h0|, sector)
    ensures Building(f, g[sector := Overlay(g[sector], off, data)], sector)
  {
    var h := h1 + Steps(g, sector, off, data);
    forall k {:trigger h[k]} | |h0| <= k < |h| ensures Building(f, h[k], sector) {
      if k < |h1| {
        assert h[k] == h1[k];
      }
    }
  }

  lemma PreparedBuilds(f: Flash, g: Flash, h0: seq<Flash>, h1: seq<Flash>, other: nat)
    requires other < |f| && g == f[other := Overlay(BlankSector(), 0, [0, 0])]
    requires h1 == h0 + [f[other := BlankSector()], g]
    ensures Building(f, g, other) && AllBuilding(f, h1, |h0|, other)
  {
  }

  lemma BuildingJoins(f: Flash, g: Flash, k: Flash, h0: seq<Flash>, h1: seq<Flash>, h2: seq<Flash>, other: nat)
    requires Building(f, g, other) && Building(g, k, other)
    requires h0 <= h1 <= h2 && AllBuilding(f, h1, |h0|, other) && AllBuilding(g, h2, |h1|, other)
    ensures Building(f, k, other) && AllBuilding(f, h2, |h0|, other)
  {
    forall k {:trigger h2[k]} | |h0| <= k < |h2| ensures Building(f, h2[k], other) {
      if k < |h1| {
        assert h2[k] == h1[k];
      } else {
        assert Building(g, h2[k], other);
      }
    }
  }

  lemma BuildingSized(f: Flash, h: seq<Flash>, from: nat, other: nat)
    requires AllBuilding(f, h, from, other)
    ensures AllSized(h, from, |f|)
  {
  }

  lemma BuildingGood(f: Flash, h: seq<Flash>, from: nat, c: nat, slots: seq<Slot>, other: nat)
    requires Holds(f, c, slots, None) && other != c && AllBuilding(f, h, from, other)
    ensures GoodFrom(h, from, {Records(slots)}, -1)
  {
    forall k {:trigger h[k]} | from <= k < |h| ensures GoodFor(h[k], {Records(slots)}, true) {
      BuildingIsInvisible(f, h[k], c, slots, None, other);
      HeldIsGood(h[k], c, slots, None);
    }
  }

  /** The first `i` slots are dealt with: the live ones are in the other sector, and nothing else has changed. */
  ghost predicate Copying(f: Flash, h0: seq<Flash>, g: Flash, h: seq<Flash>, other: nat, slots: seq<Slot>, i: nat,
                          copied: seq<Slot>) {
    && i <= |slots| && End(copied) <= Off(slots, i)
    && Building(f, g, other) && StateOf(g[other]) == Prep
    && SameRecords(copied, LiveSlots(slots[..i]))
    && LogIs(g[other], copied) && BlankFrom(g[other], End(copied))
    && |h0| <= |h| && h0 <= h && AllBuilding(f, h, |h0|, other)
  }

  lemma CopyingStarts(f: Flash, h: seq<Flash>, other: nat, slots: seq<Slot>)
    requires other < |f| && f[other] == Overlay(BlankSector(), 0, [0, 0])
    ensures Copying(f, h, f, h, other, slots, 0, []) && End([]) == 4 == Off(slots, 0)
  {
  }

  lemma CopyingMeans(f: Flash, h0: seq<Flash>, g: Flash, h: seq<Flash>, other: nat, slots: seq<Slot>, i: nat,
                     copied: seq<Slot>)
    requires Copying(f, h0, g, h, other, slots, i, copied)
    ensures other < |g| == |f| && forall j :: 0 <= j < |f| && j != other ==> g[j] == f[j]
    ensures BlankFrom(g[other], End(copied)) && StateOf(g[other]) == Prep && End(copied) <= Off(slots, i)
    ensures |h0| <= |h| && h0 <= h
  {
  }

  lemma CopyingSkips(f: Flash, h0: seq<Flash>, g: Flash, h: seq<Flash>, other: nat, slots: seq<Slot>, i: nat,
                     copied: seq<Slot>)
    requires Copying(f, h0, g, h, other, slots, i, copied) && i < |slots| && !Live(slots[i])
    ensures Copying(f, h0, g, h, other, slots, i + 1, copied)
  {
    hide LogIs, LiveSlots, SameRecords, Building, AllBuilding, BlankFrom, StateOf;
    CopyStep(slots, i, copied, slots[i]);
  }

  lemma CopyingCopies(f: Flash, h0: seq<Flash>, g: Flash, h: seq<Flash>, k: Flash, more: seq<Flash>, other: nat,
                      slots: seq<Slot>, i: nat, copied: seq<Slot>, y: Slot)
    requires Copying(f, h0, g, h, other, slots, i, copied) && i < |slots|
    requires Live(slots[i]) && SlotOk(slots[i]) && SlotOk(y) && y.payload[..y.size] == Value(slots[i])
    requires y.id == slots[i].id && y.size == slots[i].size && y.state == slots[i].state
    requires y.validated == slots[i].validated && End(copied) + Foot(y) <= SECTOR_SIZE
    requires |k| == |g| && other < |g| && Building(g, k, other) && StateOf(k[other]) == StateOf(g[other])
    requires forall b :: 0 <= b < End(copied) ==> k[other][b] == g[other][b]
    requires EntryAt(k[other], End(copied)) == Entry(y.id, y.size, y.state, y.validated)
    requires k[other][End(copied) + 8..End(copied) + 8 + |y.payload|] == y.payload
    requires BlankFrom(k[other], End(copied) + 8 + |y.payload|)
    requires |h| <= |more| && h <= more && AllBuilding(g, more, |h|, other)
    ensures Copying(f, h0, k, more, other, slots, i + 1, copied + [y])
    ensures End(copied + [y]) == End(copied) + Foot(y)
  {
    hide LogIs, LiveSlots, SameRecords, Building, AllBuilding, BlankFrom, StateOf, EntryAt;
    CopiedLog(g[other], k[other], copied, y);
    CopyStep(slots, i, copied, y);
    BuildingJoins(f, g, k, h0, h, more, other);
  }

  lemma CopyingEnds(f: Flash, h0: seq<Flash>, g: Flash, h: seq<Flash>, other: nat, slots: seq<Slot>, i: nat,
                    copied: seq<Slot>)
    requires Copying(f, h0, g, h, other, slots, i, copied) && Off(slots, i) >= End(slots)
    ensures Building(f, g, other) && StateOf(g[other]) == Prep
    ensures SameRecords(copied, LiveSlots(slots)) && End(copied) <= End(slots)
    ensures LogIs(g[other], copied) && BlankFrom(g[other], End(copied))
    ensures |h0| <= |h| && h0 <= h && AllBuilding(f, h, |h0|, other)
  {
    if i < |slots| {
      OffMonotone(slots, i, |slots|);
    }
    assert slots[..i] == slots;
  }

  lemma CopiedBytes(s: Sector, t: Sector, off: nat, entry: Entry, payload: seq<byte>)
    requires off + 8 + |payload| <= SECTOR_SIZE && entry.validated == 0 && BlankFrom(s, off)
    requires t == Overlay(Overlay(Overlay(s, off, HeaderBytes(entry)), off + 8, payload), off + 6, [0, 0])
    ensures forall b :: 0 <= b < off ==> t[b] == s[b]
    ensures EntryAt(t, off) == entry
    ensures t[off + 8..off + 8 + |payload|] == payload
    ensures BlankFrom(t, off + 8 + |payload|)
  {
    var h := HeaderBytes(entry);
    var u := Overlay(s, off, h);
    var v := Overlay(u, off + 8, payload);
    assert v[off + 8..off + 8 + |payload|] == payload;
    assert t[off + 8..off + 8 + |payload|] == v[off + 8..off + 8 + |payload|];
    assert forall b :: 0 <= b < off + 8 ==> v[b] == u[b];
    assert forall b :: off <= b < off + 6 ==> t[b] == h[b - off];
    assert t[off] == h[0] && t[off + 1] == h[1] && t[off + 2] == h[2] && t[off + 3] == h[3] && t[off + 4] == h[4]
           && t[off + 5] == h[5];
  }

  lemma StepsGrow(f: Flash, sector: nat, off: nat, data: seq<byte>, i: nat)
    requires sector < |f| && off + |data| <= SECTOR_SIZE && 2 * i + 1 < |data|
    ensures
      var s := Overlay(f[sector], off, data[..2 * i]);
      var t := s[off + 2 * i := data[2 * i]][off + 2 * i + 1 := data[2 * i + 1]];
      && t == Overlay(f[sector], off, data[..2 * (i + 1)])
      && s[off + 2 * i] == f[sector][off + 2 * i] && s[off + 2 * i + 1] == f[sector][off + 2 * i + 1]
      && Steps(f, sector, off, data[..2 * (i + 1)]) == Steps(f, sector, off, data[..2 * i]) + [f[sector := t]]
  {
    var more := data[..2 * (i + 1)];
    forall k | 0 <= k < i ensures Steps(f, sector, off, more)[k] == Steps(f, sector, off, data[..2 * i])[k] {
      assert more[..2 * (k + 1)] == data[..2 * i][..2 * (k + 1)];
    }
    assert more[..2 * (i + 1)] == more;
  }
}
