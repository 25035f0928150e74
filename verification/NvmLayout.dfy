/** The byte layout of the NeVerMind flash store, and what its scanning loops compute on raw bytes. */
module NvmLayout {
  import opened Common

  const SECTOR_SIZE := 1024
  const INVALID_SECTOR := 100
  const MAX_PAYLOAD := 64
  const ALL_ONES := 0xffff
  const SCAN_LIMIT := SECTOR_SIZE - 8 - 2

  type Sector = s: seq<byte> | |s| == SECTOR_SIZE witness seq(SECTOR_SIZE, _ => 255)

  /** The content of the whole device, one element a sector. */
  type Flash = seq<Sector>

  datatype SectorState = Erased | Prep | Active | Error

  /** The eight header bytes of an entry: four little-endian half-words. */
  datatype Entry = Entry(id: half, size: half, state: half, validated: half)

  function U16(s: seq<byte>, off: nat): half
    requires off + 1 < |s|
  {
    s[off] as int + 256 * s[off + 1] as int
  }

  function LE(v: half): seq<byte> {
    [v % 256, v / 256]
  }

  function HeaderBytes(e: Entry): seq<byte> {
    LE(e.id) + LE(e.size) + LE(e.state) + LE(e.validated)
  }

  function EntryAt(s: Sector, off: nat): Entry
    requires off + 8 <= SECTOR_SIZE
  {
    Entry(U16(s, off), U16(s, off + 2), U16(s, off + 4), U16(s, off + 6))
  }

  /** `(size + 1) & 0xfe`: the mask also drops everything above the low byte. */
  function Roundup(size: nat): nat {
    (size + 1) % 256 - (size + 1) % 2
  }

  /** `s` with `data` stored from `off` on. */
  function Overlay(s: Sector, off: nat, data: seq<byte>): (r: Sector)
    requires off + |data| <= SECTOR_SIZE
  {
    s[..off] + data + s[off + |data|..]
  }

  function BlankSector(): Sector {
    seq(SECTOR_SIZE, _ => 255)
  }

  function StateOf(s: Sector): SectorState {
    var a, b := U16(s, 0), U16(s, 2);
    if a == 0 && b == ALL_ONES then Prep
    else if a == 0 && b == 0 then Active
    else if a == ALL_ONES && b == ALL_ONES then Erased
    else Error
  }

  /** The first entry of a sector is not all zeroes. */
  predicate Sane(s: Sector) {
    EntryAt(s, 4) != Entry(0, 0, 0, 0)
  }

  /** Where the scan of `sanityCheck` finds the first free entry, if it finds one. */
  function Scan(s: Sector, off: nat): Option<nat>
    decreases SECTOR_SIZE - off
  {
    if off >= SCAN_LIMIT then None
    else
      var e := EntryAt(s, off);
      if e.id == ALL_ONES then Some(off)
      else if e == Entry(0, 0, 0, 0) then None
      else if e.size > MAX_PAYLOAD then None
      else Scan(s, off + 8 + Roundup(e.size))
  }

  /** Where the scan of `findEntry` finds the first live entry for `id`, if it finds one. */
  function FindFrom(s: Sector, off: nat, id: nat): (r: Option<nat>)
    ensures r.Some? ==> off <= r.value < SCAN_LIMIT
    decreases SECTOR_SIZE - off
  {
    if off >= SCAN_LIMIT then None
    else
      var e := EntryAt(s, off);
      if e.id == ALL_ONES then None
      else if Roundup(e.size) > MAX_PAYLOAD then None
      else if e.state != 0 && e.state != ALL_ONES then None
      else if id != e.id || e.state == 0 || e.validated != 0 then FindFrom(s, off + 8 + Roundup(e.size), id)
      else Some(off)
  }

  /** The sector `begin` mounts: the first one, from `i` on, that is Active and sane; `|f|` if there is none. */
  function BootFrom(f: Flash, i: nat): (r: nat)
    requires i <= |f|
    ensures i <= r <= |f|
    ensures r < |f| ==> StateOf(f[r]) == Active && Sane(f[r])
    ensures forall j :: i <= j < r ==> !(StateOf(f[j]) == Active && Sane(f[j]))
    decreases |f| - i
  {
    if i == |f| then i
    else if StateOf(f[i]) == Active && Sane(f[i]) then i
    else BootFrom(f, i + 1)
  }

  /** The write index of a fresh object after `begin`; 0 (no writing possible) if the scan finds no end. */
  function BootWriteIndex(f: Flash): nat {
    var c := BootFrom(f, 0);
    if c == |f| then 0
    else match Scan(f[c], 4) case None => 0 case Some(w) => w
  }

  /** What a fresh object finds under `id` after `begin`, straight from the flash bytes. */
  function ReadBack(f: Flash, id: nat): Option<seq<byte>> {
    var c := BootFrom(f, 0);
    if c == |f| then None
    else
      match FindFrom(f[c], 4, id)
      case None => None
      case Some(off) =>
        var size := EntryAt(f[c], off).size;
        if off + 8 + size <= SECTOR_SIZE then Some(f[c][off + 8..off + 8 + size]) else None
  }
}
