/** The entry log of one sector as a list of slots, the finite map it stands for, and how the flash bytes hold it. */
module NvmLog {
  import opened Common
  import opened NvmLayout

  /** One log entry: its header fields and its payload, padded to an even length. */
  datatype Slot = Slot(id: half, size: half, state: half, validated: half, payload: seq<byte>)

  predicate SlotOk(x: Slot) {
    && 0 < x.id < ALL_ONES
    && x.size <= MAX_PAYLOAD
    && |x.payload| == Roundup(x.size)
    && (x.state == 0 || x.state == ALL_ONES)
    && (x.validated == 0 || x.validated == ALL_ONES)
  }

  predicate Live(x: Slot) {
    x.state == ALL_ONES && x.validated == 0
  }

  predicate Matches(x: Slot, id: nat) {
    Live(x) && x.id == id
  }

  function Value(x: Slot): (v: seq<byte>)
    requires SlotOk(x)
    ensures |v| == x.size
  {
    x.payload[..x.size]
  }

  ghost predicate AllOk(slots: seq<Slot>) {
    forall i :: 0 <= i < |slots| ==> SlotOk(slots[i])
  }

  // ---------- the map a log stands for ----------

  /** The first live slot for `id` from `i` on; `|slots|` if there is none. */
  function First(slots: seq<Slot>, id: nat, i: nat): (r: nat)
    requires i <= |slots|
    ensures i <= r <= |slots|
    ensures r < |slots| ==> Matches(slots[r], id)
    ensures forall j :: i <= j < r ==> !Matches(slots[j], id)
    decreases |slots| - i
  {
    if i == |slots| then i
    else if Matches(slots[i], id) then i
    else First(slots, id, i + 1)
  }

  /** What the log says about `id`: the value of its first live slot. */
  function Lookup(slots: seq<Slot>, id: nat): Option<seq<byte>>
    requires AllOk(slots)
  {
    var i := First(slots, id, 0);
    if i == |slots| then None else Some(Value(slots[i]))
  }

  function LiveIds(slots: seq<Slot>): set<nat> {
    set x | x in slots && Live(x) :: x.id as nat
  }

  /** The finite map the log stands for. */
  ghost function Contents(slots: seq<Slot>): map<nat, seq<byte>>
    requires AllOk(slots)
  {
    map id | id in LiveIds(slots) && First(slots, id, 0) < |slots| :: Value(slots[First(slots, id, 0)])
  }

  /** How many live slots carry `id`. */
  function LiveCount(slots: seq<Slot>, id: nat): nat {
    if slots == [] then 0
    else LiveCount(slots[..|slots| - 1], id) + if Matches(slots[|slots| - 1], id) then 1 else 0
  }

  /** No id has two live slots. */
  ghost predicate Unique(slots: seq<Slot>) {
    forall id :: LiveCount(slots, id) <= 1
  }

  lemma FirstIs(slots: seq<Slot>, id: nat, r: nat)
    requires r <= |slots|
    requires r < |slots| ==> Matches(slots[r], id)
    requires forall j :: 0 <= j < r ==> !Matches(slots[j], id)
    ensures First(slots, id, 0) == r
  {
    var q := First(slots, id, 0);
    assert r < |slots| ==> q <= r;
    assert q < |slots| ==> r <= q;
  }

  lemma ContentsIsLookup(slots: seq<Slot>, id: nat)
    requires AllOk(slots)
    ensures id in Contents(slots) <==> Lookup(slots, id).Some?
    ensures id in Contents(slots) ==> Lookup(slots, id) == Some(Contents(slots)[id]) && 0 < id < ALL_ONES
  {
    var i := First(slots, id, 0);
    if i < |slots| {
      assert slots[i] in slots && Live(slots[i]) && slots[i].id as nat == id;
      assert id in LiveIds(slots);
    }
  }

  lemma SameLookupSameContents(a: seq<Slot>, b: seq<Slot>)
    requires AllOk(a) && AllOk(b)
    requires forall id: nat :: Lookup(a, id) == Lookup(b, id)
    ensures Contents(a) == Contents(b)
  {
    forall id: nat
      ensures (id in Contents(a) <==> id in Contents(b)) && (id in Contents(a) ==> Contents(a)[id] == Contents(b)[id])
    {
      ContentsIsLookup(a, id);
      ContentsIsLookup(b, id);
    }
  }

  lemma LookupAppend(slots: seq<Slot>, x: Slot, id: nat)
    requires AllOk(slots) && SlotOk(x)
    ensures AllOk(slots + [x])
    ensures Lookup(slots + [x], id) ==
            if Lookup(slots, id).Some? then Lookup(slots, id) else if Matches(x, id) then Some(Value(x)) else None
  {
    var i := First(slots, id, 0);
    var all := slots + [x];
    if i < |slots| {
      FirstIs(all, id, i);
    } else if Matches(x, id) {
      FirstIs(all, id, |slots|);
    } else {
      FirstIs(all, id, |all|);
    }
  }

  lemma CountAppend(slots: seq<Slot>, x: Slot, id: nat)
    ensures LiveCount(slots + [x], id) == LiveCount(slots, id) + if Matches(x, id) then 1 else 0
  {
    assert (slots + [x])[..|slots|] == slots;
  }

  lemma {:induction false} CountReplace(slots: seq<Slot>, i: nat, x: Slot, id: nat)
    requires i < |slots|
    ensures LiveCount(slots[i := x], id) ==
            LiveCount(slots, id) - (if Matches(slots[i], id) then 1 else 0) + (if Matches(x, id) then 1 else 0)
  {
    var n := |slots| - 1;
    if i == n {
      assert slots[i := x][..n] == slots[..n];
    } else {
      assert slots[i := x][..n] == slots[..n][i := x];
      CountReplace(slots[..n], i, x, id);
    }
  }

  lemma {:induction false} NoneLiveIffZero(slots: seq<Slot>, id: nat)
    ensures LiveCount(slots, id) == 0 <==> First(slots, id, 0) == |slots|
  {
    if slots != [] {
      var n := |slots| - 1;
      var init := slots[..n];
      NoneLiveIffZero(init, id);
      var i := First(init, id, 0);
      if i < n {
        assert slots[i] == init[i];
        FirstIs(slots, id, i);
      } else {
        assert forall j :: 0 <= j < n ==> slots[j] == init[j];
        FirstIs(slots, id, if Matches(slots[n], id) then n else |slots|);
      }
    }
  }

  // ---------- writing one entry ----------

  /** The log after a complete `write`: the new slot at the end, the first live slot for the same id killed. */
  function AfterWrite(slots: seq<Slot>, x: Slot): seq<Slot> {
    var i := First(slots, x.id, 0);
    if i == |slots| then slots + [x] else slots[i := slots[i].(state := 0)] + [x]
  }

  /** A write leaves every other id alone, whatever the log looks like. */
  lemma WriteKeepsOtherIds(slots: seq<Slot>, x: Slot, id: nat)
    requires AllOk(slots) && SlotOk(x) && Live(x) && id != x.id
    ensures AllOk(AfterWrite(slots, x))
    ensures Lookup(AfterWrite(slots, x), id) == Lookup(slots, id)
    ensures LiveCount(AfterWrite(slots, x), id) == LiveCount(slots, id)
  {
    var i := First(slots, x.id, 0);
    var killed := if i == |slots| then slots else slots[i := slots[i].(state := 0)];
    var q := First(slots, id, 0);
    assert forall j :: 0 <= j < |slots| ==> (Matches(killed[j], id) <==> Matches(slots[j], id));
    FirstIs(killed, id, q);
    LookupAppend(killed, x, id);
    CountAppend(killed, x, id);
    if i < |slots| {
      CountReplace(slots, i, slots[i].(state := 0), id);
    }
  }

  /**
   * The new value is what the log says afterwards exactly when the id had at most one live slot;
   * otherwise an older duplicate, never killed, stays in front of it.
   */
  lemma ReadAfterWriteIff(slots: seq<Slot>, x: Slot)
    requires AllOk(slots) && SlotOk(x) && Live(x)
    ensures AllOk(AfterWrite(slots, x))
    ensures First(AfterWrite(slots, x), x.id, 0) == |slots| <==> LiveCount(slots, x.id) <= 1
    ensures LiveCount(slots, x.id) <= 1 ==> Lookup(AfterWrite(slots, x), x.id) == Some(Value(x))
    ensures LiveCount(AfterWrite(slots, x), x.id) == if LiveCount(slots, x.id) == 0 then 1 else LiveCount(slots, x.id)
  {
    var i := First(slots, x.id, 0);
    var killed := if i == |slots| then slots else slots[i := slots[i].(state := 0)];
    assert LiveCount(killed, x.id) == if i == |slots| then 0 else LiveCount(slots, x.id) - 1 by {
      NoneLiveIffZero(slots, x.id);
      if i < |slots| {
        CountReplace(slots, i, slots[i].(state := 0), x.id);
      }
    }
    assert AfterWrite(slots, x) == killed + [x] && AllOk(killed);
    NoneLiveIffZero(slots, x.id);
    LastLiveIsFoundIff(killed, x);
  }

  lemma LastLiveIsFoundIff(slots: seq<Slot>, x: Slot)
    requires AllOk(slots) && SlotOk(x) && Live(x)
    ensures AllOk(slots + [x])
    ensures First(slots + [x], x.id, 0) == |slots| <==> LiveCount(slots, x.id) == 0
    ensures LiveCount(slots, x.id) == 0 ==> Lookup(slots + [x], x.id) == Some(Value(x))
    ensures LiveCount(slots + [x], x.id) == LiveCount(slots, x.id) + 1
  {
    var q := First(slots, x.id, 0);
    NoneLiveIffZero(slots, x.id);
    CountAppend(slots, x, x.id);
    LookupAppend(slots, x, x.id);
    FirstIs(slots + [x], x.id, q);
  }

  lemma ContentsUpdate(a: seq<Slot>, b: seq<Slot>, id: nat, v: seq<byte>)
    requires AllOk(a) && AllOk(b)
    requires forall other: nat :: other != id ==> Lookup(b, other) == Lookup(a, other)
    requires Lookup(b, id) == Some(v)
    ensures Contents(b) == Contents(a)[id := v]
  {
    hide Lookup, Contents;
    forall other: nat
      ensures other in Contents(b) <==> other in Contents(a) || other == id
      ensures other in Contents(b) ==> Contents(b)[other] == if other == id then v else Contents(a)[other]
    {
      ContentsIsLookup(a, other);
      ContentsIsLookup(b, other);
    }
  }

  /** `after` is what a complete write of `x` makes of a log that stands for the map and the live counts of `before`. */
  ghost predicate Written(before: seq<Slot>, after: seq<Slot>, x: Slot) {
    && AllOk(before) && AllOk(after) && SlotOk(x)
    && (forall id: nat :: id != x.id ==> Lookup(after, id) == Lookup(before, id))
    && (LiveCount(before, x.id) <= 1 ==> Contents(after) == Contents(before)[x.id as nat := Value(x)])
    && (First(after, x.id, 0) == |after| - 1 <==> LiveCount(before, x.id) <= 1)
    && (Unique(before) ==> Unique(after))
  }

  /**
   * A write keeps every other id, is a map update exactly when the id had at most one live slot,
   * and keeps a duplicate-free log duplicate-free.
   */
  lemma WriteIsWritten(slots: seq<Slot>, x: Slot)
    requires AllOk(slots) && SlotOk(x) && Live(x)
    ensures Written(slots, AfterWrite(slots, x), x)
  {
    var after := AfterWrite(slots, x);
    ReadAfterWriteIff(slots, x);
    assert |after| == |slots| + 1;
    hide AfterWrite, First, Lookup, LiveCount, Contents;
    forall id: nat | id != x.id
      ensures Lookup(after, id) == Lookup(slots, id) && LiveCount(after, id) == LiveCount(slots, id)
    {
      WriteKeepsOtherIds(slots, x, id);
    }
    if LiveCount(slots, x.id) <= 1 {
      ContentsUpdate(slots, after, x.id, Value(x));
    }
  }

  /** A slot that is not (or not yet) live changes nothing. */
  lemma DeadSlotIsInvisible(slots: seq<Slot>, x: Slot)
    requires AllOk(slots) && SlotOk(x) && !Live(x)
    ensures AllOk(slots + [x])
    ensures Contents(slots + [x]) == Contents(slots)
  {
    forall id: nat ensures Lookup(slots + [x], id) == Lookup(slots, id) {
      LookupAppend(slots, x, id);
    }
    SameLookupSameContents(slots + [x], slots);
  }

  /** Between validating the new slot and killing the old one the old value is still what the log says. */
  lemma ValidatedBesideOld(slots: seq<Slot>, x: Slot)
    requires AllOk(slots) && SlotOk(x) && Live(x) && First(slots, x.id, 0) < |slots|
    ensures AllOk(slots + [x])
    ensures Contents(slots + [x]) == Contents(slots)
    ensures LiveCount(slots + [x], x.id) == LiveCount(slots, x.id) + 1
  {
    forall id: nat ensures Lookup(slots + [x], id) == Lookup(slots, id) {
      LookupAppend(slots, x, id);
    }
    SameLookupSameContents(slots + [x], slots);
    CountAppend(slots, x, x.id);
  }

  // ---------- garbage collection ----------

  /** The live slots, in order: what garbage collection copies. */
  function LiveSlots(slots: seq<Slot>): (r: seq<Slot>)
    ensures |r| <= |slots|
  {
    if slots == [] then []
    else
      var rest := LiveSlots(slots[..|slots| - 1]);
      if Live(slots[|slots| - 1]) then rest + [slots[|slots| - 1]] else rest
  }

  lemma {:induction false} LiveSlotsKeepLookup(slots: seq<Slot>, id: nat)
    requires AllOk(slots)
    ensures AllOk(LiveSlots(slots))
    ensures Lookup(LiveSlots(slots), id) == Lookup(slots, id)
    ensures LiveCount(LiveSlots(slots), id) == LiveCount(slots, id)
  {
    if slots != [] {
      var init, last := slots[..|slots| - 1], slots[|slots| - 1];
      assert slots == init + [last];
      LiveSlotsKeepLookup(init, id);
      LookupAppend(init, last, id);
      if Live(last) {
        LookupAppend(LiveSlots(init), last, id);
        CountAppend(LiveSlots(init), last, id);
      }
    }
  }

  /** Equal but for the padding byte of odd-sized payloads, which garbage collection does not copy. */
  ghost predicate SameRecord(a: Slot, b: Slot) {
    && SlotOk(a) && SlotOk(b)
    && a.id == b.id && a.size == b.size && a.state == b.state && a.validated == b.validated
    && Value(a) == Value(b)
  }

  ghost predicate SameRecords(a: seq<Slot>, b: seq<Slot>) {
    |a| == |b| && forall i :: 0 <= i < |a| ==> SameRecord(a[i], b[i])
  }

  lemma SameRecordsSameLookup(a: seq<Slot>, b: seq<Slot>, id: nat)
    requires SameRecords(a, b)
    ensures AllOk(a) && AllOk(b)
    ensures Lookup(a, id) == Lookup(b, id)
  {
    var i := First(b, id, 0);
    assert forall j :: 0 <= j < |a| ==> (Matches(a[j], id) <==> Matches(b[j], id)) by {
      forall j | 0 <= j < |a| ensures Matches(a[j], id) <==> Matches(b[j], id) {
        assert SameRecord(a[j], b[j]);
      }
    }
    FirstIs(a, id, i);
    if i < |a| {
      assert SameRecord(a[i], b[i]);
    }
  }

  lemma {:induction false} SameRecordsSameCount(a: seq<Slot>, b: seq<Slot>, id: nat)
    requires SameRecords(a, b)
    ensures LiveCount(a, id) == LiveCount(b, id)
  {
    if a != [] {
      var n := |a| - 1;
      assert SameRecord(a[n], b[n]);
      SameRecordsSameCount(a[..n], b[..n], id);
    }
  }

  /** Garbage collection keeps the map, and how many live slots each id has. */
  lemma CollectedKeepsContents(copied: seq<Slot>, slots: seq<Slot>)
    requires AllOk(slots) && SameRecords(copied, LiveSlots(slots))
    ensures AllOk(copied)
    ensures Contents(copied) == Contents(slots)
    ensures forall id :: LiveCount(copied, id) == LiveCount(slots, id)
  {
    forall id: nat ensures Lookup(copied, id) == Lookup(slots, id) && LiveCount(copied, id) == LiveCount(slots, id) {
      LiveSlotsKeepLookup(slots, id);
      SameRecordsSameLookup(copied, LiveSlots(slots), id);
      SameRecordsSameCount(copied, LiveSlots(slots), id);
    }
    SameLookupSameContents(copied, slots);
  }

  /** Collecting first and writing then is as good as writing. */
  lemma CollectThenWrite(slots: seq<Slot>, copied: seq<Slot>, x: Slot)
    requires AllOk(slots) && SlotOk(x) && Live(x)
    requires SameRecords(copied, LiveSlots(slots))
    ensures AllOk(copied) && Written(slots, AfterWrite(copied, x), x)
  {
    CollectedKeepsContents(copied, slots);
    WriteIsWritten(copied, x);
    forall id: nat ensures Lookup(copied, id) == Lookup(slots, id) {
      ContentsIsLookup(copied, id);
      ContentsIsLookup(slots, id);
    }
  }

  // ---------- what a log keeps, without the dead entries and the layout ----------

  /** A live entry, as a client knows it. */
  datatype Record = Record(id: nat, value: seq<byte>)

  function RecordOf(x: Slot): Record
    requires SlotOk(x)
  {
    Record(x.id, Value(x))
  }

  /** The live entries of a log, oldest first. */
  ghost function Records(slots: seq<Slot>): (r: seq<Record>)
    requires AllOk(slots)
  {
    if slots == [] then []
    else
      var rest := Records(slots[..|slots| - 1]);
      if Live(slots[|slots| - 1]) then rest + [RecordOf(slots[|slots| - 1])] else rest
  }

  /** The oldest record of an id. */
  function Find(l: seq<Record>, id: nat): Option<seq<byte>> {
    if l == [] then None
    else
      var before := Find(l[..|l| - 1], id);
      if before.Some? then before else if l[|l| - 1].id == id then Some(l[|l| - 1].value) else None
  }

  /** How many records carry the id. */
  function Count(l: seq<Record>, id: nat): nat {
    if l == [] then 0 else Count(l[..|l| - 1], id) + if l[|l| - 1].id == id then 1 else 0
  }

  /** Without the oldest record of the id. */
  function Without(l: seq<Record>, id: nat): seq<Record> {
    if l == [] then []
    else
      var init, last := l[..|l| - 1], l[|l| - 1];
      if Find(init, id).Some? then Without(init, id) + [last] else if last.id == id then init else l
  }

  /** What a complete write makes of the records. */
  function AfterPut(l: seq<Record>, r: Record): seq<Record> {
    Without(l, r.id) + [r]
  }

  /** What a power loss during that write, or none, can leave: the records before, both values, the records after. */
  ghost function Outcomes(l: seq<Record>, r: Record): set<seq<Record>> {
    {l, l + [r], AfterPut(l, r)}
  }

  /** The bytes the records take in a sector. */
  function Space(l: seq<Record>): nat {
    if l == [] then 0 else Space(l[..|l| - 1]) + 8 + Roundup(|l[|l| - 1].value|)
  }

  lemma RecordsAppend(slots: seq<Slot>, x: Slot)
    requires AllOk(slots) && SlotOk(x)
    ensures AllOk(slots + [x])
    ensures Records(slots + [x]) == if Live(x) then Records(slots) + [RecordOf(x)] else Records(slots)
  {
    assert (slots + [x])[..|slots|] == slots;
  }

  lemma ListAppend(l: seq<Record>, r: Record, id: nat)
    ensures Find(l + [r], id) == if Find(l, id).Some? || r.id != id then Find(l, id) else Some(r.value)
    ensures Count(l + [r], id) == Count(l, id) + if r.id == id then 1 else 0
    ensures Without(l + [r], id) ==
            if Find(l, id).Some? then Without(l, id) + [r] else if r.id == id then l else l + [r]
    ensures Space(l + [r]) == Space(l) + 8 + Roundup(|r.value|)
  {
    assert (l + [r])[..|l|] == l;
  }

  /** The records say all that reading and counting say. */
  lemma {:induction false} RecordsSayAll(slots: seq<Slot>, id: nat)
    requires AllOk(slots)
    ensures Find(Records(slots), id) == Lookup(slots, id)
    ensures Count(Records(slots), id) == LiveCount(slots, id)
    ensures Space(Records(slots)) + 4 == End(LiveSlots(slots))
  {
    if slots != [] {
      var init, last := slots[..|slots| - 1], slots[|slots| - 1];
      assert slots == init + [last];
      RecordsSayAll(init, id);
      LookupAppend(init, last, id);
      if Live(last) {
        ListAppend(Records(init), RecordOf(last), id);
        OffBySizes(LiveSlots(init) + [last], LiveSlots(init), |LiveSlots(init)|);
      }
    }
  }

  /** Garbage collection keeps every record, and their order. */
  lemma {:induction false} CollectedRecords(copied: seq<Slot>, slots: seq<Slot>)
    requires AllOk(slots) && SameRecords(copied, LiveSlots(slots))
    ensures AllOk(copied) && Records(copied) == Records(slots)
  {
    if slots != [] {
      var init, last := slots[..|slots| - 1], slots[|slots| - 1];
      if Live(last) {
        var n := |copied| - 1;
        assert SameRecord(copied[n], last) && copied == copied[..n] + [copied[n]];
        assert SameRecords(copied[..n], LiveSlots(init)) by {
          forall i | 0 <= i < n ensures SameRecord(copied[..n][i], LiveSlots(init)[i]) {
            assert SameRecord(copied[i], LiveSlots(slots)[i]);
          }
        }
        CollectedRecords(copied[..n], init);
        RecordsAppend(copied[..n], copied[n]);
        assert Value(copied[n]) == Value(last);
      } else {
        CollectedRecords(copied, init);
      }
    }
  }

  /** Killing the first live entry of an id takes out the oldest record of it. */
  lemma {:induction false} KilledRecords(slots: seq<Slot>, id: nat, i: nat)
    requires AllOk(slots) && i == First(slots, id, 0) < |slots|
    ensures AllOk(slots[i := slots[i].(state := 0)])
    ensures Records(slots[i := slots[i].(state := 0)]) == Without(Records(slots), id)
  {
    hide Records, Without, First, Lookup, SlotOk;
    var n := |slots| - 1;
    var init, last := slots[..n], slots[n];
    FirstInFront(slots, id, i);
    if i == n {
      KilledLast(init, last, id);
      assert slots == init + [last] && slots[i := slots[i].(state := 0)] == init + [last.(state := 0)];
    } else {
      KilledRecords(init, id, i);
      var rest := init[i := init[i].(state := 0)];
      KilledInFront(init, rest, last, id);
      assert slots == init + [last] && slots[i := slots[i].(state := 0)] == rest + [last];
    }
  }

  lemma KilledLast(init: seq<Slot>, last: Slot, id: nat)
    requires AllOk(init) && SlotOk(last) && Matches(last, id) && Lookup(init, id).None?
    ensures AllOk(init + [last]) && AllOk(init + [last.(state := 0)])
    ensures Records(init + [last.(state := 0)]) == Without(Records(init + [last]), id)
  {
    RecordsAppend(init, last);
    RecordsAppend(init, last.(state := 0));
    RecordsSayAll(init, id);
    ListAppend(Records(init), RecordOf(last), id);
  }

  lemma KilledInFront(init: seq<Slot>, rest: seq<Slot>, last: Slot, id: nat)
    requires AllOk(init) && AllOk(rest) && SlotOk(last) && Lookup(init, id).Some?
    requires Records(rest) == Without(Records(init), id)
    ensures AllOk(init + [last]) && AllOk(rest + [last])
    ensures Records(rest + [last]) == Without(Records(init + [last]), id)
  {
    RecordsAppend(init, last);
    RecordsAppend(rest, last);
    RecordsSayAll(init, id);
    if Live(last) {
      ListAppend(Records(init), RecordOf(last), id);
    }
  }

  /** The first match is the last slot, or the first match without the last slot. */
  lemma FirstInFront(slots: seq<Slot>, id: nat, i: nat)
    requires AllOk(slots) && i == First(slots, id, 0) < |slots|
    ensures First(slots[..|slots| - 1], id, 0) == i && Matches(slots[i], id)
    ensures Lookup(slots[..|slots| - 1], id).Some? <==> i < |slots| - 1
  {
    var init := slots[..|slots| - 1];
    assert forall j :: 0 <= j < |init| ==> init[j] == slots[j];
    FirstIs(init, id, i);
  }

  lemma {:induction false} NothingWithout(l: seq<Record>, id: nat)
    requires Find(l, id).None?
    ensures Without(l, id) == l
  {
  }

  /** Taking out a record changes nothing for other ids, and leaves one record less of its own. */
  lemma {:induction false} WithoutOne(l: seq<Record>, id: nat, other: nat)
    ensures other != id ==>
              Find(Without(l, id), other) == Find(l, other) && Count(Without(l, id), other) == Count(l, other)
    ensures Count(Without(l, id), id) == if Count(l, id) > 0 then Count(l, id) - 1 else 0
    ensures Find(l, id).Some? <==> Count(l, id) > 0
    ensures Space(Without(l, id)) <= Space(l)
  {
    if l != [] {
      var init, last := l[..|l| - 1], l[|l| - 1];
      WithoutOne(init, id, other);
      assert l == init + [last];
      hide Find, Count, Without, Space;
      ListAppend(init, last, other);
      ListAppend(init, last, id);
      if Find(init, id).Some? {
        ListAppend(Without(init, id), last, other);
        ListAppend(Without(init, id), last, id);
      }
    }
  }

  lemma PutCounts(l: seq<Record>, r: Record, id: nat)
    ensures id != r.id ==> Find(AfterPut(l, r), id) == Find(l, id) && Count(AfterPut(l, r), id) == Count(l, id)
    ensures Count(AfterPut(l, r), r.id) == if Count(l, r.id) == 0 then 1 else Count(l, r.id)
    ensures Count(l, r.id) <= 1 ==> Find(AfterPut(l, r), r.id) == Some(r.value)
  {
    WithoutOne(l, r.id, id);
    WithoutOne(Without(l, r.id), r.id, id);
    hide Find, Count, Without;
    ListAppend(Without(l, r.id), r, id);
    ListAppend(Without(l, r.id), r, r.id);
  }

  /** A complete write, in terms of the records. */
  lemma WrittenRecords(slots: seq<Slot>, x: Slot)
    requires AllOk(slots) && SlotOk(x) && Live(x)
    ensures AllOk(AfterWrite(slots, x))
    ensures Records(AfterWrite(slots, x)) == AfterPut(Records(slots), RecordOf(x))
  {
    var i := First(slots, x.id, 0);
    if i < |slots| {
      KilledRecords(slots, x.id, i);
      RecordsAppend(slots[i := slots[i].(state := 0)], x);
    } else {
      RecordsSayAll(slots, x.id);
      NothingWithout(Records(slots), x.id);
      RecordsAppend(slots, x);
    }
  }

  // ---------- the log in the flash bytes ----------

  function Foot(x: Slot): nat {
    8 + Roundup(x.size)
  }

  /** The byte offset of slot `i`. */
  function Off(slots: seq<Slot>, i: nat): (o: nat)
    requires i <= |slots|
    ensures o >= 4 && o % 2 == 0
  {
    if i == 0 then 4 else Off(slots, i - 1) + Foot(slots[i - 1])
  }

  function End(slots: seq<Slot>): (o: nat)
    ensures o >= 4 && o % 2 == 0
  {
    Off(slots, |slots|)
  }

  lemma {:induction false} OffMonotone(slots: seq<Slot>, i: nat, j: nat)
    requires i < j <= |slots|
    ensures Off(slots, i) + Foot(slots[i]) <= Off(slots, j)
  {
    if i + 1 < j {
      OffMonotone(slots, i, j - 1);
    }
  }

  /** Offsets depend on the sizes of the slots in front only. */
  lemma {:induction false} OffBySizes(a: seq<Slot>, b: seq<Slot>, i: nat)
    requires i <= |a| && i <= |b|
    requires forall j :: 0 <= j < i ==> a[j].size == b[j].size
    ensures Off(a, i) == Off(b, i)
  {
    if i > 0 {
      OffBySizes(a, b, i - 1);
    }
  }

  lemma SameRecordsSameEnd(a: seq<Slot>, b: seq<Slot>)
    requires SameRecords(a, b)
    ensures End(a) == End(b)
  {
    forall j | 0 <= j < |a| ensures a[j].size == b[j].size {
      assert SameRecord(a[j], b[j]);
    }
    OffBySizes(a, b, |a|);
  }

  ghost predicate SlotAt(s: Sector, x: Slot, off: nat) {
    && off + 8 + |x.payload| <= SECTOR_SIZE
    && EntryAt(s, off) == Entry(x.id, x.size, x.state, x.validated)
    && s[off + 8..off + 8 + |x.payload|] == x.payload
  }

  ghost predicate LogIs(s: Sector, slots: seq<Slot>) {
    && End(slots) <= SECTOR_SIZE
    && AllOk(slots)
    && forall i {:trigger SlotAt(s, slots[i], Off(slots, i))} :: 0 <= i < |slots| ==> SlotAt(s, slots[i], Off(slots, i))
  }

  ghost predicate BlankFrom(s: Sector, from: nat) {
    forall b :: from <= b < SECTOR_SIZE ==> s[b] == 255
  }

  /**
   * What follows the log: nothing but erased bytes or, after a power loss in the middle of a header,
   * the id of an entry whose size was never programmed.
   */
  ghost predicate TailIs(s: Sector, end: nat, torn: Option<half>) {
    && end + 2 <= SECTOR_SIZE
    && match torn
       case None => BlankFrom(s, end)
       case Some(id) => 0 < id < ALL_ONES && U16(s, end) == id && BlankFrom(s, end + 2)
  }

  lemma ScanStep(s: Sector, x: Slot, off: nat)
    requires SlotOk(x) && SlotAt(s, x, off) && off < SCAN_LIMIT
    ensures Scan(s, off) == Scan(s, off + Foot(x))
  {
  }

  lemma FindStep(s: Sector, x: Slot, off: nat, id: nat)
    requires SlotOk(x) && SlotAt(s, x, off) && off < SCAN_LIMIT
    ensures FindFrom(s, off, id) == if Matches(x, id) then Some(off) else FindFrom(s, off + Foot(x), id)
  {
  }

  lemma BlankTail(s: Sector, end: nat)
    requires end < SCAN_LIMIT && BlankFrom(s, end)
    ensures Scan(s, end) == Some(end)
    ensures forall id: nat :: FindFrom(s, end, id) == None
  {
    assert EntryAt(s, end) == Entry(ALL_ONES, ALL_ONES, ALL_ONES, ALL_ONES);
  }

  /** A torn header stops the scan of `sanityCheck` and is stepped over by that of `findEntry`. */
  lemma TornTail(s: Sector, end: nat, torn: half, id: nat)
    requires end < SCAN_LIMIT && TailIs(s, end, Some(torn))
    ensures Scan(s, end) == None
    ensures FindFrom(s, end, id) == None
  {
    assert EntryAt(s, end) == Entry(torn, ALL_ONES, ALL_ONES, ALL_ONES);
    if end + 8 < SCAN_LIMIT {
      BlankTail(s, end + 8);
    }
  }

  /**
   * The scan of `sanityCheck` reaches the end of the log exactly when no
   * torn header follows and there is room behind it.
   */
  lemma {:induction false} ScanFindsEnd(s: Sector, slots: seq<Slot>, torn: Option<half>, i: nat)
    requires LogIs(s, slots) && (End(slots) < SCAN_LIMIT ==> TailIs(s, End(slots), torn))
    requires i <= |slots|
    ensures Scan(s, Off(slots, i)) == if torn.None? && End(slots) < SCAN_LIMIT then Some(End(slots)) else None
    decreases |slots| - i
  {
    if i < |slots| {
      OffMonotone(slots, i, |slots|);
      ScanFindsEnd(s, slots, torn, i + 1);
      assert SlotAt(s, slots[i], Off(slots, i));
      if Off(slots, i) < SCAN_LIMIT {
        ScanStep(s, slots[i], Off(slots, i));
      }
    } else if End(slots) < SCAN_LIMIT {
      match torn {
        case None => BlankTail(s, End(slots));
        case Some(id) => TornTail(s, End(slots), id, 0);
      }
    }
  }

  lemma SlotOfLog(s: Sector, slots: seq<Slot>, i: nat)
    requires LogIs(s, slots) && i < |slots|
    ensures SlotOk(slots[i]) && SlotAt(s, slots[i], Off(slots, i))
    ensures Off(slots, i + 1) == Off(slots, i) + Foot(slots[i]) <= End(slots)
  {
    OffMonotone(slots, i, |slots|);
  }

  /** Whatever follows the log: `findEntry` finds the first live slot of the id or goes on behind the log. */
  lemma {:induction false} FindPassesLog(s: Sector, slots: seq<Slot>, id: nat, i: nat)
    requires LogIs(s, slots) && End(slots) < SCAN_LIMIT && i <= |slots|
    ensures FindFrom(s, Off(slots, i), id) ==
            if First(slots, id, i) < |slots| then Some(Off(slots, First(slots, id, i))) else FindFrom(s, End(slots), id)
    decreases |slots| - i
  {
    hide FindFrom, SlotAt, LogIs, Off;
    if i < |slots| {
      SlotOfLog(s, slots, i);
      FindStep(s, slots[i], Off(slots, i), id);
      FindPassesLog(s, slots, id, i + 1);
    }
  }

  /** The scan of `findEntry` finds the first live slot of the id, and nothing when there is none. */
  lemma FindFindsFirst(s: Sector, slots: seq<Slot>, torn: Option<half>, id: nat)
    requires LogIs(s, slots) && End(slots) < SCAN_LIMIT && TailIs(s, End(slots), torn)
    ensures FindFrom(s, 4, id) ==
            if First(slots, id, 0) < |slots| then Some(Off(slots, First(slots, id, 0))) else None
  {
    hide FindFrom, LogIs;
    FindPassesLog(s, slots, id, 0);
    match torn {
      case None => BlankTail(s, End(slots));
      case Some(t) => TornTail(s, End(slots), t, id);
    }
  }

  lemma {:induction false} ScanSkipsLog(s: Sector, slots: seq<Slot>, i: nat)
    requires LogIs(s, slots) && End(slots) < SCAN_LIMIT && i <= |slots|
    ensures Scan(s, Off(slots, i)) == Scan(s, End(slots))
    decreases |slots| - i
  {
    hide Scan, SlotAt;
    if i < |slots| {
      OffMonotone(slots, i, |slots|);
      assert SlotAt(s, slots[i], Off(slots, i));
      ScanStep(s, slots[i], Off(slots, i));
      ScanSkipsLog(s, slots, i + 1);
    }
  }

  /**
   * `write` takes any id and size of 32 bits and stores their low halves. A complete and validated entry for a new id
   * is found again exactly when the id is below 65535 and the size, as it is stored, rounds to at most 64.
   */
  lemma NewIdIsFoundIff(s: Sector, slots: seq<Slot>, id: word, size: word)
    requires LogIs(s, slots) && End(slots) < SCAN_LIMIT && 0 < id
    requires First(slots, id, 0) == |slots|
    requires EntryAt(s, End(slots)) == Entry(id % 0x1_0000, size % 0x1_0000, ALL_ONES, 0)
    ensures FindFrom(s, 4, id) == Some(End(slots)) <==> id < ALL_ONES && Roundup(size % 0x1_0000) <= MAX_PAYLOAD
  {
    FindPassesLog(s, slots, id, 0);
    FoundAtEnd(s, End(slots), id, size);
    hide FindFrom, LogIs;
  }

  lemma FoundAtEnd(s: Sector, end: nat, id: word, size: word)
    requires end < SCAN_LIMIT && 0 < id
    requires EntryAt(s, end) == Entry(id % 0x1_0000, size % 0x1_0000, ALL_ONES, 0)
    ensures FindFrom(s, end, id) == Some(end) <==> id < ALL_ONES && Roundup(size % 0x1_0000) <= MAX_PAYLOAD
  {
  }

  /**
   * An entry with id 65535, which the documentation allows, hides itself and whatever is written behind it: a reader
   * finds what the log before it says, and a restarted store takes it for the end and would write on top of it.
   */
  lemma LastIdHidesTheRest(s: Sector, slots: seq<Slot>, id: nat)
    requires LogIs(s, slots) && End(slots) < SCAN_LIMIT
    requires U16(s, End(slots)) == ALL_ONES
    ensures FindFrom(s, 4, id) ==
            if First(slots, id, 0) < |slots| then Some(Off(slots, First(slots, id, 0))) else None
    ensures Scan(s, 4) == Some(End(slots))
  {
    FindPassesLog(s, slots, id, 0);
    ScanSkipsLog(s, slots, 0);
  }

  lemma {:induction false} SamePrefix(s: Sector, a: seq<Slot>, b: seq<Slot>, i: nat)
    requires LogIs(s, a) && LogIs(s, b) && i <= |a| && i <= |b|
    ensures a[..i] == b[..i] && Off(a, i) == Off(b, i)
  {
    if i > 0 {
      SamePrefix(s, a, b, i - 1);
      assert SlotAt(s, a[i - 1], Off(a, i - 1)) && SlotAt(s, b[i - 1], Off(b, i - 1));
      SameSlot(s, a[i - 1], b[i - 1], Off(a, i - 1));
      OneMoreAlike(a, b, i);
    }
  }

  lemma OneMoreAlike(a: seq<Slot>, b: seq<Slot>, i: nat)
    requires 0 < i <= |a| && i <= |b| && a[..i - 1] == b[..i - 1] && a[i - 1] == b[i - 1]
    ensures a[..i] == b[..i] && Off(a, i) == Off(b, i)
  {
    assert a[..i] == a[..i - 1] + [a[i - 1]] && b[..i] == b[..i - 1] + [b[i - 1]];
    forall j | 0 <= j < i ensures a[j].size == b[j].size {
      assert a[..i][j] == b[..i][j];
    }
    OffBySizes(a, b, i);
  }

  lemma SameSlot(s: Sector, x: Slot, y: Slot, off: nat)
    requires SlotOk(x) && SlotOk(y) && SlotAt(s, x, off) && SlotAt(s, y, off)
    ensures x == y
  {
  }

  lemma NotLonger(s: Sector, a: seq<Slot>, ta: Option<half>, b: seq<Slot>)
    requires LogIs(s, a) && LogIs(s, b) && End(a) < SCAN_LIMIT && TailIs(s, End(a), ta)
    ensures |b| <= |a|
  {
    if |a| < |b| {
      hide SlotAt, TailIs;
      SamePrefix(s, a, b, |a|);
      assert SlotAt(s, b[|a|], Off(b, |a|));
      SlotIsNoTail(s, b[|a|], Off(b, |a|), ta);
      assert false;
    }
  }

  lemma SlotIsNoTail(s: Sector, x: Slot, off: nat, torn: Option<half>)
    requires SlotOk(x) && SlotAt(s, x, off)
    ensures !TailIs(s, off, torn)
  {
    assert EntryAt(s, off).id != ALL_ONES && EntryAt(s, off).size != ALL_ONES;
  }

  /** The bytes decide the log. */
  lemma OneLog(s: Sector, a: seq<Slot>, ta: Option<half>, b: seq<Slot>, tb: Option<half>)
    requires LogIs(s, a) && End(a) < SCAN_LIMIT && TailIs(s, End(a), ta)
    requires LogIs(s, b) && End(b) < SCAN_LIMIT && TailIs(s, End(b), tb)
    ensures a == b && ta == tb
  {
    NotLonger(s, a, ta, b);
    NotLonger(s, b, tb, a);
    SamePrefix(s, a, b, |a|);
    assert a[..|a|] == a && b[..|b|] == b;
  }

  // ---------- room ----------

  /** The bytes the entries of the ids below `n` need. */
  ghost function Footprint(m: map<nat, seq<byte>>, n: nat): nat {
    if n == 0 then 0
    else Footprint(m, n - 1) + if n - 1 in m then 8 + Roundup(|m[n - 1]|) else 0
  }

  lemma {:induction false} FootprintAdd(m: map<nat, seq<byte>>, id: nat, v: seq<byte>, n: nat)
    requires id !in m
    ensures Footprint(m[id := v], n) == Footprint(m, n) + if id < n then 8 + Roundup(|v|) else 0
  {
    if n > 0 {
      FootprintAdd(m, id, v, n - 1);
    }
  }

  lemma {:induction false} FootprintEmpty(n: nat)
    ensures Footprint(map[], n) == 0
  {
    if n > 0 {
      FootprintEmpty(n - 1);
    }
  }

  /** In a duplicate-free log what garbage collection keeps takes exactly the room the map needs. */
  lemma {:induction false} LiveFootprint(slots: seq<Slot>)
    requires AllOk(slots) && Unique(slots)
    ensures End(LiveSlots(slots)) == 4 + Footprint(Contents(slots), ALL_ONES)
  {
    if slots == [] {
      assert Contents(slots) == map[];
      FootprintEmpty(ALL_ONES);
    } else {
      var init, last := slots[..|slots| - 1], slots[|slots| - 1];
      assert slots == init + [last];
      forall id ensures LiveCount(init, id) <= 1 {
        CountAppend(init, last, id);
        assert LiveCount(slots, id) <= 1;
      }
      LiveFootprint(init);
      if Live(last) {
        CountAppend(init, last, last.id);
        assert LiveCount(slots, last.id) <= 1;
        NewLiveSlot(init, last);
        FootprintAdd(Contents(init), last.id, Value(last), ALL_ONES);
        OffBySizes(LiveSlots(init) + [last], LiveSlots(init), |LiveSlots(init)|);
      } else {
        DeadSlotIsInvisible(init, last);
      }
    }
  }

  lemma NewLiveSlot(slots: seq<Slot>, x: Slot)
    requires AllOk(slots) && SlotOk(x) && Live(x) && LiveCount(slots, x.id) == 0
    ensures x.id as nat !in Contents(slots)
    ensures AllOk(slots + [x]) && Contents(slots + [x]) == Contents(slots)[x.id as nat := Value(x)]
  {
    NoneLiveIffZero(slots, x.id);
    ContentsIsLookup(slots, x.id);
    forall id: nat ensures Lookup(slots + [x], id) == if id == x.id then Some(Value(x)) else Lookup(slots, id) {
      LookupAppend(slots, x, id);
    }
    ContentsUpdate(slots, slots + [x], x.id, Value(x));
  }

  /** An entry of `size` bytes fits behind the log in such a way that a restarted store finds the end. */
  predicate HasRoom(slots: seq<Slot>, size: nat) {
    End(slots) + 8 + Roundup(size) < SCAN_LIMIT
  }

  /** There is room for an entry of `size` bytes once the dead entries are collected. */
  predicate Fits(slots: seq<Slot>, size: nat) {
    HasRoom(LiveSlots(slots), size)
  }

  lemma {:induction false} LiveSlotsTakeLess(slots: seq<Slot>)
    ensures End(LiveSlots(slots)) <= End(slots)
  {
    if slots != [] {
      var init, last := slots[..|slots| - 1], slots[|slots| - 1];
      LiveSlotsTakeLess(init);
      OffBySizes(slots, init, |init|);
      OffBySizes(LiveSlots(init) + [last], LiveSlots(init), |LiveSlots(init)|);
    }
  }

  function Fourteen(): seq<Slot> {
    seq(14, i requires 0 <= i < 14 => Slot(i + 1, MAX_PAYLOAD, ALL_ONES, 0, seq(MAX_PAYLOAD, _ => 0)))
  }

  /**
   * Fourteen values of the largest size fill a sector: the last of them still fits, then no write does, however small,
   * and one more of that size would go on past the end of the sector.
   */
  lemma FourteenFill()
    ensures AllOk(Fourteen()) && Fits(Fourteen()[..13], MAX_PAYLOAD)
    ensures End(Fourteen()) == 1012 < SCAN_LIMIT
    ensures forall size: nat :: !Fits(Fourteen(), size)
    ensures End(Fourteen()) + 8 + Roundup(MAX_PAYLOAD) > SECTOR_SIZE
  {
    var slots := Fourteen();
    FourteenLive();
    hide Fourteen, Live, LiveSlots, Off;
    AllLive(slots);
    AllLive(slots[..13]);
    AllOfOneSize(slots, 14);
    AllOfOneSize(slots[..13], 13);
  }

  lemma FourteenLive()
    ensures AllOk(Fourteen()) && |Fourteen()| == 14
    ensures forall i :: 0 <= i < 14 ==> Live(Fourteen()[i]) && Fourteen()[i].size == MAX_PAYLOAD
  {
  }

  lemma {:induction false} AllLive(slots: seq<Slot>)
    requires forall i :: 0 <= i < |slots| ==> Live(slots[i])
    ensures LiveSlots(slots) == slots
  {
    if slots != [] {
      AllLive(slots[..|slots| - 1]);
    }
  }

  lemma {:induction false} AllOfOneSize(slots: seq<Slot>, n: nat)
    requires n <= |slots| && forall i :: 0 <= i < |slots| ==> slots[i].size == MAX_PAYLOAD
    ensures Off(slots, n) == 4 + 72 * n
  {
    if n > 0 {
      AllOfOneSize(slots, n - 1);
    }
  }

  /** Storing bytes behind the log, as long as they make a whole slot, appends that slot. */
  lemma AppendedLog(s: Sector, t: Sector, slots: seq<Slot>, x: Slot)
    requires LogIs(s, slots) && SlotOk(x)
    requires forall b :: 0 <= b < End(slots) ==> t[b] == s[b]
    requires SlotAt(t, x, End(slots))
    ensures LogIs(t, slots + [x]) && End(slots + [x]) == End(slots) + Foot(x)
  {
    var all := slots + [x];
    OffBySizes(all, slots, |slots|);
    assert Off(all, |all|) == End(slots) + Foot(x);
    assert all[|slots|] == x;
    forall i {:trigger SlotAt(t, all[i], Off(all, i))} | 0 <= i < |slots| ensures SlotAt(t, all[i], Off(all, i)) {
      SlotSurvives(s, t, slots, x, i);
    }
  }

  lemma SlotSurvives(s: Sector, t: Sector, slots: seq<Slot>, x: Slot, i: nat)
    requires LogIs(s, slots) && i < |slots|
    requires forall b :: 0 <= b < End(slots) ==> t[b] == s[b]
    ensures SlotAt(t, (slots + [x])[i], Off(slots + [x], i))
  {
    OffBySizes(slots + [x], slots, i);
    OffMonotone(slots, i, |slots|);
    assert SlotAt(s, slots[i], Off(slots, i));
    SameSlotAt(s, t, slots[i], Off(slots, i));
  }

  lemma SameSlotAt(s: Sector, t: Sector, x: Slot, off: nat)
    requires SlotAt(s, x, off)
    requires forall b :: off <= b < off + 8 + |x.payload| ==> t[b] == s[b]
    ensures SlotAt(t, x, off)
  {
    assert t[off + 8..off + 8 + |x.payload|] == s[off + 8..off + 8 + |x.payload|];
  }

  lemma KilledSlot(s: Sector, t: Sector, x: Slot, off: nat)
    requires SlotOk(x) && SlotAt(s, x, off)
    requires t == Overlay(s, off + 4, [0, 0])
    ensures SlotAt(t, x.(state := 0), off)
  {
    assert t[off + 8..off + 8 + |x.payload|] == s[off + 8..off + 8 + |x.payload|];
  }

  /** Zeroing the state half-word of slot `i` kills that slot and touches nothing else. */
  lemma KilledLog(s: Sector, slots: seq<Slot>, i: nat)
    requires LogIs(s, slots) && i < |slots|
    ensures Off(slots, i) + Foot(slots[i]) <= End(slots)
    ensures var killed := slots[i := slots[i].(state := 0)];
      LogIs(Overlay(s, Off(slots, i) + 4, [0, 0]), killed) && End(killed) == End(slots)
  {
    var o := Off(slots, i);
    OffMonotone(slots, i, |slots|);
    assert SlotAt(s, slots[i], o);
    hide SlotAt, Off, Overlay;
    var t := Overlay(s, o + 4, [0, 0]);
    var killed := slots[i := slots[i].(state := 0)];
    OffBySizes(killed, slots, |slots|);
    forall j {:trigger SlotAt(t, killed[j], Off(killed, j))} | 0 <= j < |slots|
      ensures SlotAt(t, killed[j], Off(killed, j))
    {
      KilledLogSlot(s, t, slots, i, j);
    }
  }

  lemma KilledLogSlot(s: Sector, t: Sector, slots: seq<Slot>, i: nat, j: nat)
    requires LogIs(s, slots) && i < |slots| && j < |slots|
    requires Off(slots, i) + 6 <= SECTOR_SIZE && t == Overlay(s, Off(slots, i) + 4, [0, 0])
    ensures SlotAt(t, slots[i := slots[i].(state := 0)][j], Off(slots[i := slots[i].(state := 0)], j))
  {
    OffBySizes(slots[i := slots[i].(state := 0)], slots, j);
    assert SlotAt(s, slots[j], Off(slots, j));
    if j == i {
      KilledSlot(s, t, slots[i], Off(slots, i));
    } else {
      if j < i {
        OffMonotone(slots, j, i);
      } else {
        OffMonotone(slots, i, j);
      }
      SameSlotAt(s, t, slots[j], Off(slots, j));
    }
  }
}
