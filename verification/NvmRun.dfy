/** Whole runs of the store, from any flash content on, answer like a plain finite map. */
module NvmRun {
  import opened Common
  import opened NvmLayout
  import opened NvmLog
  import opened NvmRecovery
  import opened NvmBytes
  import opened NvmStore

  datatype Command =
    | Put(id: nat, data: seq<byte>)
    | Get(id: nat, size: nat)
    | Restart
    | Remount
    | Reformat

  datatype Answer = Accepted(ok: bool) | Found(data: Option<seq<byte>>)

  /** What a plain map becomes. */
  ghost function MapAfter(m: map<nat, seq<byte>>, c: Command): map<nat, seq<byte>> {
    match c
    case Put(id, data) => if id == 0 then m else m[id := data]
    case Get(_, _) => m
    case Restart => m
    case Remount => m
    case Reformat => map[]
  }

  /** What a plain map answers. */
  ghost function MapAnswer(m: map<nat, seq<byte>>, c: Command): Answer {
    match c
    case Put(id, _) => Accepted(id != 0)
    case Get(id, size) => Found(if id in m && |m[id]| == size then Some(m[id]) else None)
    case Restart => Accepted(true)
    case Remount => Accepted(true)
    case Reformat => Accepted(true)
  }

  ghost function MapRun(m: map<nat, seq<byte>>, commands: seq<Command>): seq<Answer>
    decreases commands
  {
    if commands == [] then []
    else [MapAnswer(m, commands[0])] + MapRun(MapAfter(m, commands[0]), commands[1..])
  }

  /** The plain map after the first `i` commands. */
  ghost function MapAt(m: map<nat, seq<byte>>, commands: seq<Command>, i: nat): map<nat, seq<byte>>
    requires i <= |commands|
  {
    if i == 0 then m else MapAfter(MapAt(m, commands, i - 1), commands[i - 1])
  }

  lemma {:induction false} MapAtTail(m: map<nat, seq<byte>>, commands: seq<Command>, i: nat)
    requires i < |commands|
    ensures MapAt(MapAfter(m, commands[0]), commands[1..], i) == MapAt(m, commands, i + 1)
  {
    hide MapAfter;
    if i > 0 {
      MapAtTail(m, commands, i - 1);
      assert commands[1..][i - 1] == commands[i];
    }
  }

  lemma {:induction false} AnswerAt(m: map<nat, seq<byte>>, commands: seq<Command>, i: nat)
    requires i < |commands|
    ensures |MapRun(m, commands)| == |commands|
    ensures MapRun(m, commands)[i] == MapAnswer(MapAt(m, commands, i), commands[i])
    decreases commands
  {
    hide MapAfter, MapAnswer;
    var next := MapAfter(m, commands[0]);
    if |commands| > 1 {
      var k := if i == 0 then 0 else i - 1;
      AnswerAt(next, commands[1..], k);
      assert i > 0 ==> commands[1..][k] == commands[i];
      MapAtTail(m, commands, k);
    }
  }

  /** Before command `i`, `v` is the last value put for `id`; `Put` with id 0 puts nothing. */
  ghost predicate LastPut(commands: seq<Command>, i: nat, id: nat, v: seq<byte>)
    requires i <= |commands|
  {
    exists j :: && 0 <= j < i && commands[j] == Put(id, v) && id != 0
                && forall k :: j < k < i ==> !(commands[k].Put? && commands[k].id == id) && !commands[k].Reformat?
  }

  lemma {:induction false} MapAtMeans(commands: seq<Command>, i: nat, id: nat)
    requires i <= |commands|
    ensures forall v :: id in MapAt(map[], commands, i) && MapAt(map[], commands, i)[id] == v <==>
                        LastPut(commands, i, id, v)
  {
    if i > 0 {
      MapAtMeans(commands, i - 1, id);
      forall v ensures id in MapAt(map[], commands, i) && MapAt(map[], commands, i)[id] == v <==>
                       LastPut(commands, i, id, v) {
        LastPutStep(commands, i, id, v);
        assert LastPut(commands, i - 1, id, v) ==> id != 0;
      }
    }
  }

  lemma LastPutStep(commands: seq<Command>, i: nat, id: nat, v: seq<byte>)
    requires 0 < i <= |commands|
    ensures LastPut(commands, i, id, v) <==>
            if commands[i - 1].Reformat? then false
            else if commands[i - 1].Put? && commands[i - 1].id == id then id != 0 && commands[i - 1].data == v
            else LastPut(commands, i - 1, id, v)
  {
    if LastPut(commands, i - 1, id, v) {
      var j :| && 0 <= j < i - 1 && commands[j] == Put(id, v) && id != 0
               && forall k :: j < k < i - 1 ==> !(commands[k].Put? && commands[k].id == id) && !commands[k].Reformat?;
      assert commands[j] == Put(id, v);
    }
  }

  /**
   * What it means to answer like a map: a read delivers the last value put for its id since the last reformat, if it
   * has the size asked for, across any restarts in between; only a write of id 0 is refused.
   */
  lemma MapRunMeans(commands: seq<Command>, i: nat)
    requires i < |commands|
    ensures |MapRun(map[], commands)| == |commands|
    ensures match commands[i]
            case Get(id, size) =>
              && MapRun(map[], commands)[i].Found?
              && forall v :: MapRun(map[], commands)[i].data == Some(v) <==>
                             LastPut(commands, i, id, v) && |v| == size
            case Put(id, _) => MapRun(map[], commands)[i] == Accepted(id != 0)
            case _ => MapRun(map[], commands)[i] == Accepted(true)
  {
    AnswerAt(map[], commands, i);
    if commands[i].Get? {
      MapAtMeans(commands, i, commands[i].id);
    }
  }

  /**
   * Ids below 65535, values of at most 64 bytes, and room for the map with one more copy of the value being written.
   */
  ghost predicate Allowed(m: map<nat, seq<byte>>, c: Command) {
    c.Put? && c.id != 0 ==>
      && c.id < ALL_ONES
      && |c.data| <= MAX_PAYLOAD
      && 4 + Footprint(m, ALL_ONES) + 8 + Roundup(|c.data|) < SCAN_LIMIT
  }

  ghost predicate AllAllowed(m: map<nat, seq<byte>>, commands: seq<Command>)
    decreases commands
  {
    commands != [] ==> Allowed(m, commands[0]) && AllAllowed(MapAfter(m, commands[0]), commands[1..])
  }

  /** The store is mounted, can be written, and holds a duplicate-free log for `m`. */
  ghost predicate Serves(store: Nvm, m: map<nat, seq<byte>>)
    reads store
  {
    && store.Valid() && store.currentSector != INVALID_SECTOR && store.torn.None?
    && Unique(store.slots) && store.Map() == m
  }

  method Serve(store: Nvm, c: Command, ghost m: map<nat, seq<byte>>) returns (next: Nvm, answer: Answer)
    requires Serves(store, m) && Allowed(m, c)
    modifies store
    ensures Serves(next, MapAfter(m, c)) && if c.Restart? then fresh(next) else next == store
    ensures answer == MapAnswer(m, c)
  {
    next := store;
    match c {
      case Put(id, data) =>
        var ok := ServePut(store, id, data, m);
        answer := Accepted(ok);
      case Get(id, size) =>
        var buffer := new byte[size];
        var ok := store.Read(id, size, buffer);
        answer := Found(if ok then Some(buffer[..size]) else None);
      case Restart =>
        hide SlotAt, TailIs, StateOf, Lookup, First;
        assert Holds(store.flash, store.currentSector, store.slots, None);
        next := new Nvm(store.nbSectors, store.flash);
        var ok := next.Begin();
        answer := Accepted(ok);
      case Remount =>
        hide SlotAt, TailIs, StateOf, Lookup, First;
        assert Holds(store.flash, store.currentSector, store.slots, None);
        var ok := store.Begin();
        answer := Accepted(ok);
      case Reformat =>
        hide SlotAt, TailIs, StateOf, Lookup, First;
        var ok := store.Format();
        answer := Accepted(ok);
    }
  }

  method ServePut(store: Nvm, id: nat, data: seq<byte>, ghost m: map<nat, seq<byte>>) returns (ok: bool)
    requires Serves(store, m) && Allowed(m, Put(id, data))
    modifies store
    ensures Serves(store, MapAfter(m, Put(id, data)))
    ensures ok <==> id != 0
  {
    hide SlotAt, TailIs, StateOf, GoodImage, GoodFrom, Lookup, First, Records, Written, Nvm.WroteWell;
    ghost var tear;
    if id == 0 {
      ok, tear := store.Write(0, 0, []);
    } else {
      LiveFootprint(store.slots);
      assert Fits(store.slots, |data|);
      assert LiveCount(store.slots, id) <= 1;
      var padded := Padded(data);
      ghost var log, h0 := store.slots, store.history;
      ok, tear := store.Write(id, |data|, padded);
      PutMeans(store, log, h0, Slot(id, |data|, ALL_ONES, 0, padded[..Roundup(|data|)]), tear, m, data);
    }
  }

  /** An even number of bytes, as `write` reads them. */
  function Padded(data: seq<byte>): (r: seq<byte>)
    requires |data| <= MAX_PAYLOAD
    ensures |r| == Roundup(|data|) && r[..|data|] == data
  {
    if |data| % 2 == 0 then data else data + [0]
  }

  lemma PutMeans(store: Nvm, log: seq<Slot>, h0: seq<Flash>, x: Slot, tear: nat, m: map<nat, seq<byte>>,
                 data: seq<byte>)
    requires store.WroteWell(log, h0, x, tear) && AllOk(log) && Unique(log) && Contents(log) == m
    requires SlotOk(x) && Value(x) == data
    ensures Serves(store, m[x.id as nat := data])
  {
    assert LiveCount(log, x.id) <= 1;
  }

  lemma EmptyServes(store: Nvm)
    requires store.Valid() && store.currentSector == 0 && store.torn.None? && Unique(store.slots)
             && store.Map() == map[]
    ensures Serves(store, map[])
  {
  }

  /** Any run of writes, reads, restarts and reformats within capacity, over any initial flash, answers like a map. */
  method Run(n: nat, image: Flash, commands: seq<Command>) returns (answers: seq<Answer>)
    requires 2 <= n <= INVALID_SECTOR && |image| == n
    requires AllAllowed(map[], commands)
    ensures answers == MapRun(map[], commands)
  {
    hide Serves, Allowed, MapAnswer, MapAfter;
    var store := new Nvm(n, image);
    var formatted := store.Format();
    EmptyServes(store);
    answers := [];
    ghost var m: map<nat, seq<byte>> := map[];
    var i := 0;
    while i < |commands|
      invariant 0 <= i <= |commands|
      invariant fresh(store) && Serves(store, m)
      invariant AllAllowed(m, commands[i..])
      invariant answers + MapRun(m, commands[i..]) == MapRun(map[], commands)
    {
      assert commands[i..][1..] == commands[i + 1..];
      var answer;
      store, answer := Serve(store, commands[i], m);
      m := MapAfter(m, commands[i]);
      answers := answers + [answer];
      i := i + 1;
    }
  }

  /** Power-up over any image, and one read: `BootFrom`, `BootWriteIndex` and `ReadBack` are what the methods do. */
  method ReadAfresh(n: nat, image: Flash, id: nat, size: nat)
    returns (ok: bool, writeIndex: int, value: Option<seq<byte>>)
    requires 2 <= n <= INVALID_SECTOR && |image| == n
    requires forall c, o :: 0 <= c < n && FindFrom(image[c], 4, id) == Some(o) ==> o + 8 + size <= SECTOR_SIZE
    ensures ok <==> BootFrom(image, 0) < n
    ensures writeIndex == BootWriteIndex(image)
    ensures value.Some? <==> id != 0 && ReadBack(image, id).Some? && |ReadBack(image, id).value| == size
    ensures value.Some? ==> value == ReadBack(image, id)
  {
    hide Scan, StateOf, Sane, Holds, FindFrom, BootFrom, BootWriteIndex, Nvm.Traced, Nvm.Valid;
    var store := new Nvm(n, image);
    ok := store.Begin();
    writeIndex := store.writeIndex;
    var buffer := new byte[size];
    var found := store.Read(id, size, buffer);
    value := if found then Some(buffer[..size]) else None;
  }

  /** The commands of a run: any but writes beyond the documented limits or the room there is. */
  lemma AllowedIff(m: map<nat, seq<byte>>, c: Command)
    ensures Allowed(m, c) <==>
            match c
            case Put(id, data) =>
              id == 0 || (id < 65535 && |data| <= 64 && Footprint(m, 65535) + 12 + |data| + |data| % 2 < 1014)
            case _ => true
  {
    if c.Put? {
      RoundupMeans(|c.data|);
    }
  }

  // ---------- runs with power losses ----------

  /** A write, and after how many of its flash steps power is lost, if it is; steps are counted round and round. */
  datatype Attempt = Attempt(id: nat, data: seq<byte>, cut: Option<nat>)

  /** What a store keeps: the live records, and whether a power loss has left it read-only. */
  datatype Kept = Kept(live: seq<Record>, readOnly: bool)

  predicate Admissible(p: Attempt) {
    0 < p.id < ALL_ONES && |p.data| <= MAX_PAYLOAD
  }

  /**
   * What a write attempt makes of it. Nothing, once the store is read-only. Cut short, a write leaves the records as
   * they were, perhaps read-only, or the new value beside the old one, or the new value in place of the old one.
   */
  ghost predicate StepTo(a: Kept, p: Attempt, b: Kept) {
    if a.readOnly then b == a
    else if p.cut.None? then b == Kept(AfterPut(a.live, Record(p.id, p.data)), false)
    else b == Kept(a.live, true) || (!b.readOnly && b.live in Outcomes(a.live, Record(p.id, p.data)))
  }

  /** There is room for the value beside the live records. */
  predicate RoomFor(l: seq<Record>, v: seq<byte>) {
    4 + Space(l) + 8 + Roundup(|v|) < SCAN_LIMIT
  }

  lemma RoomForIff(l: seq<Record>, v: seq<byte>)
    requires |v| <= 64
    ensures RoomFor(l, v) <==> Space(l) + 12 + |v| + |v| % 2 < 1014
    ensures l != [] && |l[|l| - 1].value| <= 64 ==>
              Space(l) == Space(l[..|l| - 1]) + 8 + |l[|l| - 1].value| + |l[|l| - 1].value| % 2
  {
    RoundupMeans(|v|);
    if l != [] {
      RoundupMeans(|l[|l| - 1].value|);
    }
  }

  /** However the attempts go, there is room for each when it comes. */
  ghost predicate AlwaysRoom(a: Kept, ps: seq<Attempt>)
    decreases |ps|
  {
    ps != [] ==>
      && (!a.readOnly ==> RoomFor(a.live, ps[0].data))
      && forall b :: StepTo(a, ps[0], b) ==> AlwaysRoom(b, ps[1..])
  }

  ghost predicate IsTrace(trace: seq<Kept>, ps: seq<Attempt>) {
    && |trace| == |ps| + 1 && trace[0] == Kept([], false)
    && forall i {:trigger ps[i]} :: 0 <= i < |ps| ==> StepTo(trace[i], ps[i], trace[i + 1])
  }

  /** The store is mounted and holds just this. */
  ghost predicate Represents(store: Nvm, a: Kept)
    reads store
  {
    && store.Valid() && store.currentSector != INVALID_SECTOR
    && Records(store.slots) == a.live && (store.torn.Some? <==> a.readOnly)
  }

  /** Represented means: every id reads as in the records, and has as many live entries as there are records of it. */
  lemma RepresentsMeans(store: Nvm, a: Kept, id: nat)
    requires Represents(store, a)
    ensures id in store.Map() <==> Find(a.live, id).Some?
    ensures id in store.Map() ==> Some(store.Map()[id]) == Find(a.live, id)
    ensures LiveCount(store.slots, id) == Count(a.live, id)
  {
    RecordsSayAll(store.slots, id);
    ContentsIsLookup(store.slots, id);
  }

  lemma FormattedIsEmpty(store: Nvm)
    requires store.Valid() && store.currentSector == 0 && store.torn.None? && Records(store.slots) == []
    ensures Represents(store, Kept([], false))
  {
  }

  /** Power comes back on an image that is good for the records `l`. */
  method PowerUp(n: nat, image: Flash, ghost l: seq<Record>, ghost writable: bool) returns (next: Nvm)
    requires 2 <= n <= INVALID_SECTOR && |image| == n && GoodImage(image, l, writable)
    ensures fresh(next) && Represents(next, Kept(l, !writable)) && next.nbSectors == n && next.powerUp == image
  {
    ghost var c, log, tail :| Holds(image, c, log, tail) && Records(log) == l && (tail.None? <==> writable);
    hide Holds, Records;
    next := new Nvm(n, image);
    var mounted := next.Begin();
  }

  /** The write itself, with power on: the records after it, and what each image on the way is good for. */
  method CompleteWrite(store: Nvm, p: Attempt, ghost a: Kept) returns (ghost tear: nat)
    requires Represents(store, a) && Admissible(p) && (!a.readOnly ==> RoomFor(a.live, p.data))
    modifies store
    ensures Represents(store, if a.readOnly then a else Kept(AfterPut(a.live, Record(p.id, p.data)), false))
    ensures store.Traced() && |store.flash| == store.nbSectors && old(store.history) <= store.history
    ensures a.readOnly ==> store.history == old(store.history)
    ensures !a.readOnly ==>
      && |old(store.history)| <= tear < |store.history| && old(store.history) <= store.history
      && AllSized(store.history, |old(store.history)|, store.nbSectors)
      && GoodFrom(store.history, |old(store.history)|, Outcomes(a.live, Record(p.id, p.data)), tear)
      && GoodImage(store.history[tear], a.live, false)
  {
    hide GoodImage, GoodFrom, Holds, Written, Nvm.WroteWell, Outcomes, AfterPut, Lookup, Fits, RoomFor, Nvm.Jams;
    hide Nvm.Traced;
    RoomIsFits(store, a, p.data);
    var padded := Padded(p.data);
    ghost var log, h0 := store.slots, store.history;
    ghost var x := Slot(p.id, |p.data|, ALL_ONES, 0, padded[..Roundup(|p.data|)]);
    var ok;
    ok, tear := store.Write(p.id, |p.data|, padded);
    if !a.readOnly {
      assert Value(x) == p.data;
      WroteMeans(store, log, h0, x, tear, a.live, Record(p.id, p.data));
    }
  }

  /**
   * A write in which power may be lost after any of its flash steps, none of them included. A fresh object starts on
   * what is there then: it mounts, its records are those before, with both values, or after, and it can write again
   * unless the step was the one that programs the id of the header; and then the records are those before.
   */
  method WriteAndLosePower(store: Nvm, p: Attempt, ghost a: Kept) returns (next: Nvm, ghost b: Kept)
    requires Represents(store, a) && Admissible(p) && (!a.readOnly ==> RoomFor(a.live, p.data))
    modifies store
    ensures StepTo(a, p, b) && Represents(next, b)
    ensures store.Traced() && |old(store.history)| <= |store.history| && old(store.history) <= store.history
    ensures match p.cut
            case None => next == store
            case Some(n) =>
              var k := n % (|store.history| - |old(store.history)| + 1);
              && fresh(next)
              && next.powerUp == if k == 0 then old(store.flash) else store.history[|old(store.history)| + k - 1]
  {
    hide GoodImage, GoodFrom, Holds, Outcomes, AfterPut, Represents, RoomFor, Nvm.Traced;
    HeldBefore(store, a);
    OneOutcome(a.live, Record(p.id, p.data));
    var before, from := store.flash, |store.history|;
    ghost var tear := CompleteWrite(store, p, a);
    if p.cut.None? {
      next := store;
      b := if a.readOnly then a else Kept(AfterPut(a.live, Record(p.id, p.data)), false);
      return;
    }
    var k := from + p.cut.value % (|store.history| - from + 1);
    if k == from {
      next := PowerUp(store.nbSectors, before, a.live, !a.readOnly);
      b := a;
    } else {
      ghost var l := Which(store.history, from, tear, a.live, Record(p.id, p.data), k - 1);
      next := PowerUp(store.nbSectors, store.history[k - 1], l, k - 1 != tear);
      b := Kept(l, k - 1 == tear);
    }
  }

  lemma HeldBefore(store: Nvm, a: Kept)
    requires Represents(store, a)
    ensures 2 <= store.nbSectors <= INVALID_SECTOR
    ensures |store.flash| == store.nbSectors && GoodImage(store.flash, a.live, !a.readOnly)
  {
    HeldIsGood(store.flash, store.currentSector, store.slots, store.torn);
  }

  lemma RoomIsFits(store: Nvm, a: Kept, v: seq<byte>)
    requires Represents(store, a)
    ensures RoomFor(a.live, v) <==> Fits(store.slots, |v|)
  {
    RecordsSayAll(store.slots, 0);
  }

  lemma WroteMeans(store: Nvm, log: seq<Slot>, h0: seq<Flash>, x: Slot, tear: nat, l: seq<Record>, r: Record)
    requires store.WroteWell(log, h0, x, tear) && AllOk(log) && Records(log) == l
    requires SlotOk(x) && r == RecordOf(x)
    ensures Represents(store, Kept(AfterPut(l, r), false)) && GoodFrom(store.history, |h0|, Outcomes(l, r), tear)
  {
  }

  lemma OneOutcome(l: seq<Record>, r: Record)
    ensures l in Outcomes(l, r)
  {
  }

  /** The records an image of a write is good for. */
  lemma Which(h: seq<Flash>, from: nat, tear: nat, l: seq<Record>, r: Record, k: nat) returns (good: seq<Record>)
    requires from <= k < |h| && from <= tear < |h|
    requires GoodFrom(h, from, Outcomes(l, r), tear) && GoodImage(h[tear], l, false)
    ensures GoodImage(h[k], good, k != tear) && good in Outcomes(l, r) && (k == tear ==> good == l)
  {
    hide GoodImage, Outcomes;
    OneOutcome(l, r);
    assert GoodFor(h[k], Outcomes(l, r), k != tear);
    if k == tear {
      good := l;
    } else {
      good :| good in Outcomes(l, r) && GoodImage(h[k], good, true);
    }
  }

  /** Any run of writes with a power loss in any of them, at any step, over any initial flash. */
  method RunWithLosses(n: nat, image: Flash, ps: seq<Attempt>) returns (store: Nvm, ghost trace: seq<Kept>)
    requires 2 <= n <= INVALID_SECTOR && |image| == n
    requires (forall i :: 0 <= i < |ps| ==> Admissible(ps[i])) && AlwaysRoom(Kept([], false), ps)
    ensures IsTrace(trace, ps) && Represents(store, trace[|ps|])
  {
    hide StepTo, Outcomes, AfterPut, Holds, Represents, RoomFor, Admissible, Nvm.Valid, Records;
    store := new Nvm(n, image);
    var formatted := store.Format();
    FormattedIsEmpty(store);
    trace := [Kept([], false)];
    var i := 0;
    assert ps[0..] == ps;
    while i < |ps|
      invariant 0 <= i <= |ps| && |trace| == i + 1 && trace[0] == Kept([], false) && fresh(store)
      invariant forall j {:trigger ps[j]} :: 0 <= j < i ==> StepTo(trace[j], ps[j], trace[j + 1])
      invariant Represents(store, trace[i])
      invariant AlwaysRoom(trace[i], ps[i..])
    {
      assert ps[i..][0] == ps[i] && ps[i..][1..] == ps[i + 1..];
      ghost var b;
      store, b := WriteAndLosePower(store, ps[i], trace[i]);
      trace := trace + [b];
      i := i + 1;
    }
  }

  // ---------- what all such runs have in common ----------

  /** How many of the writes of an id are cut short. */
  function Losses(ps: seq<Attempt>, id: nat): nat {
    if ps == [] then 0
    else Losses(ps[..|ps| - 1], id) + if ps[|ps| - 1].id == id && ps[|ps| - 1].cut.Some? then 1 else 0
  }

  lemma StepIsOneOf(a: Kept, p: Attempt, b: Kept)
    requires StepTo(a, p, b)
    ensures || b.live == a.live || b.live == AfterPut(a.live, Record(p.id, p.data))
            || (b.live == a.live + [Record(p.id, p.data)] && p.cut.Some?)
  {
  }

  /** One attempt: other ids are as before, and its own id gets a record more at most when it is cut short. */
  lemma StepCounts(a: Kept, p: Attempt, b: Kept, id: nat)
    requires StepTo(a, p, b)
    ensures id != p.id ==> Find(b.live, id) == Find(a.live, id) && Count(b.live, id) == Count(a.live, id)
    ensures Count(b.live, p.id) <= if Count(a.live, p.id) == 0 then 1
                                   else Count(a.live, p.id) + if p.cut.Some? then 1 else 0
  {
    var r := Record(p.id, p.data);
    PutCounts(a.live, r, id);
    ListAppend(a.live, r, id);
    ListAppend(a.live, r, p.id);
    StepIsOneOf(a, p, b);
    hide *;
  }

  /**
   * An id with at most one record reads the old value afterwards or the new one, and the new one if nothing went wrong.
   */
  lemma OldOrNew(a: Kept, p: Attempt, b: Kept)
    requires StepTo(a, p, b) && Count(a.live, p.id) <= 1
    ensures Find(b.live, p.id) == Find(a.live, p.id) || Find(b.live, p.id) == Some(p.data)
    ensures !a.readOnly && p.cut.None? ==> Find(b.live, p.id) == Some(p.data)
  {
    var r := Record(p.id, p.data);
    PutCounts(a.live, r, p.id);
    ListAppend(a.live, r, p.id);
    StepIsOneOf(a, p, b);
    assert !a.readOnly && p.cut.None? ==> b.live == AfterPut(a.live, r);
    hide *;
  }

  lemma ShorterTrace(trace: seq<Kept>, ps: seq<Attempt>)
    requires IsTrace(trace, ps) && ps != []
    ensures IsTrace(trace[..|ps|], ps[..|ps| - 1])
    ensures trace[..|ps|][|ps| - 1] == trace[|ps| - 1]
    ensures StepTo(trace[|ps| - 1], ps[|ps| - 1], trace[|ps|])
  {
    hide StepTo;
    var shorter, qs := trace[..|ps|], ps[..|ps| - 1];
    assert ps[|ps| - 1] == ps[|ps| - 1];
    forall i {:trigger qs[i]} | 0 <= i < |qs| ensures StepTo(shorter[i], qs[i], shorter[i + 1]) {
      assert qs[i] == ps[i];
    }
  }

  /** Live entries of an id pile up by at most one for each write of it that is cut short. */
  lemma {:induction false} CountGrowsByLosses(trace: seq<Kept>, ps: seq<Attempt>, id: nat)
    requires IsTrace(trace, ps)
    ensures Count(trace[|ps|].live, id) <= 1 + Losses(ps, id)
    decreases |ps|
  {
    if ps != [] {
      hide StepTo;
      var n := |ps| - 1;
      ShorterTrace(trace, ps);
      CountGrowsByLosses(trace[..|ps|], ps[..n], id);
      StepCounts(trace[n], ps[n], trace[|ps|], id);
    }
  }

  /** The record is one that some attempt was to write. */
  ghost predicate WasAttempted(r: Record, ps: seq<Attempt>) {
    exists i {:trigger ps[i]} :: 0 <= i < |ps| && ps[i].id == r.id && ps[i].data == r.value
  }

  lemma {:induction false} WithoutFrom(l: seq<Record>, id: nat, r: Record)
    requires r in Without(l, id)
    ensures r in l
  {
    var init := l[..|l| - 1];
    if Find(init, id).Some? && r in Without(init, id) {
      WithoutFrom(init, id, r);
    }
  }

  lemma {:induction false} RecordsWereWritten(trace: seq<Kept>, ps: seq<Attempt>, r: Record)
    requires IsTrace(trace, ps) && r in trace[|ps|].live
    ensures WasAttempted(r, ps)
    decreases |ps|
  {
    var n := |ps| - 1;
    ShorterTrace(trace, ps);
    var a, p := trace[n], ps[n];
    if r == Record(p.id, p.data) {
      assert ps[n].id == r.id;
    } else {
      if r !in a.live {
        assert r in Without(a.live, p.id);
        WithoutFrom(a.live, p.id, r);
      }
      hide StepTo;
      RecordsWereWritten(trace[..|ps|], ps[..n], r);
      var i :| 0 <= i < n && ps[..n][i].id == r.id && ps[..n][i].data == r.value;
      assert ps[i] == ps[..n][i];
    }
  }

  lemma {:induction false} FoundIsIn(l: seq<Record>, id: nat)
    requires Find(l, id).Some?
    ensures Record(id, Find(l, id).value) in l
  {
    if Find(l[..|l| - 1], id).Some? {
      FoundIsIn(l[..|l| - 1], id);
    }
  }

  /** Whatever goes wrong, what an id reads is a whole value that was to be written for it. */
  lemma ValuesWereWritten(trace: seq<Kept>, ps: seq<Attempt>, id: nat)
    requires IsTrace(trace, ps) && Find(trace[|ps|].live, id).Some?
    ensures exists i {:trigger ps[i]} ::
              0 <= i < |ps| && ps[i].id == id && ps[i].data == Find(trace[|ps|].live, id).value
  {
    FoundIsIn(trace[|ps|].live, id);
    RecordsWereWritten(trace, ps, Record(id, Find(trace[|ps|].live, id).value));
  }

  /** The value of the last of the first `n` attempts that wrote the id. */
  function LastWritten(trace: seq<Kept>, ps: seq<Attempt>, n: nat, id: nat): Option<seq<byte>>
    requires n <= |ps| && |trace| == |ps| + 1
  {
    if n == 0 then None
    else if ps[n - 1].id == id && !trace[n - 1].readOnly then Some(ps[n - 1].data)
    else LastWritten(trace, ps, n - 1, id)
  }

  lemma {:induction false} SameLastWritten(trace: seq<Kept>, ps: seq<Attempt>, n: nat, id: nat)
    requires n < |ps| && |trace| == |ps| + 1
    ensures LastWritten(trace[..|ps|], ps[..|ps| - 1], n, id) == LastWritten(trace, ps, n, id)
  {
    if n > 0 {
      SameLastWritten(trace, ps, n - 1, id);
    }
  }

  /** An id none of whose own writes is cut short reads as in a map, whatever happens to the writes of others. */
  lemma {:induction false} UncutIdsAreAsInAMap(trace: seq<Kept>, ps: seq<Attempt>, id: nat)
    requires IsTrace(trace, ps)
    requires forall i :: 0 <= i < |ps| && ps[i].id == id ==> ps[i].cut.None?
    ensures Find(trace[|ps|].live, id) == LastWritten(trace, ps, |ps|, id)
    ensures Count(trace[|ps|].live, id) <= 1
    decreases |ps|
  {
    if ps != [] {
      var n := |ps| - 1;
      ShorterTrace(trace, ps);
      assert trace[n].readOnly ==> trace[|ps|] == trace[n];
      hide StepTo;
      UncutIdsAreAsInAMap(trace[..|ps|], ps[..n], id);
      SameLastWritten(trace, ps, n, id);
      StepCounts(trace[n], ps[n], trace[|ps|], id);
      if ps[n].id == id {
        OldOrNew(trace[n], ps[n], trace[|ps|]);
      }
    }
  }
}
