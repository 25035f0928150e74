/**
 * The fast event group: critical sections over `_value` and `_mask`, and a notification given outside of them.
 * One task waits; any number of tasks and interrupt handlers set events.
 */
module EventGroup {
  /** A word of event flags, as the set of the bits that are one: `|` is union, `&` intersection, `& ~` difference. */
  type Flags = set<nat>

  /** The fields of the group. `owned` says that a task has taken ownership, so that there is someone to notify. */
  datatype Group = Group(value: Flags, mask: Flags, owned: bool)

  // ---------- the critical sections ----------

  function Raised(g: Group, events: Flags): Group {
    g.(value := g.value + events)
  }

  function Lowered(g: Group, bits: Flags): Group {
    g.(value := g.value - bits)
  }

  class FastEventGroup {
    var value: Flags
    var mask: Flags
    var owned: bool

    ghost function Fields(): Group
      reads this
    {
      Group(value, mask, owned)
    }

    constructor ()
      ensures Fields() == Group({}, {}, false)
    {
      value, mask, owned := {}, {}, false;
    }

    method TakeOwnership()
      modifies this
      ensures Fields() == old(Fields()).(owned := true)
    {
      owned := true;
    }

    /** The locked part of `setEvents` in a task: whether the owner is to be notified once the lock is released. */
    method SetEvents(events: Flags) returns (notify: bool)
      modifies this
      ensures Fields() == Raised(old(Fields()), events)
      ensures value == old(value) + events && mask == old(mask) && owned == old(owned)
      ensures notify <==> old(owned) && (old(value) + events) * old(mask) != {}
    {
      value := value + events;
      var w := value * mask != {};
      if !w || !owned {
        return false;
      }
      return true;
    }

    /** The locked part of `setEvents` in an interrupt handler, which looks at the owner after unlocking. */
    method SetEventsFromIsr(events: Flags) returns (w: bool)
      modifies this
      ensures Fields() == Raised(old(Fields()), events)
      ensures value == old(value) + events && mask == old(mask) && owned == old(owned)
      ensures w <==> (old(value) + events) * old(mask) != {}
    {
      value := value + events;
      w := value * mask != {};
    }

    /** The first locked part of `waitEvents`: takes what is there, or leaves its mask for the setters. */
    method WaitFirst(maskint: Flags) returns (set_: Flags)
      modifies this
      ensures set_ == maskint * old(value)
      ensures Fields() ==
              if set_ != {} then Lowered(old(Fields()), set_).(mask := {}) else old(Fields()).(mask := maskint)
      ensures value == old(value) - maskint && mask == (if set_ != {} then {} else maskint) && owned == old(owned)
    {
      set_ := maskint * value;
      assert value - set_ == value - maskint;
      if set_ != {} {
        value := value - set_;
        mask := {};
        return;
      }
      assert value - maskint == value;
      mask := maskint;
    }

    /** The second locked part of `waitEvents`, after a notification. */
    method WaitSecond(maskint: Flags) returns (set_: Flags)
      modifies this
      ensures set_ == maskint * old(value)
      ensures Fields() == Lowered(old(Fields()), set_).(mask := {})
      ensures value == old(value) - maskint && mask == {} && owned == old(owned)
    {
      set_ := maskint * value;
      assert value - set_ == value - maskint;
      value := value - set_;
      mask := {};
    }

    method ReadEvents(maskint: Flags) returns (v: Flags)
      modifies this
      ensures v == old(value) * maskint
      ensures Fields() == Lowered(old(Fields()), v)
      ensures value == old(value) - maskint && mask == old(mask) && owned == old(owned)
    {
      v := value * maskint;
      value := value - maskint;
    }
  }

  // ---------- the protocol ----------

  /** What the waiting task is doing between its atomic steps. */
  datatype Waiter = Running | Blocked(bits: Flags) | Notified(bits: Flags)

  /**
   * A setter between its atomic steps: an interrupt handler that has not
   * yet looked at the owner, or one about to notify.
   */
  datatype Setter = IsrUnlocked | Notifying

  /** What the callers see: events set, and events handed out by a wait or a read. */
  datatype Event = Set(bits: Flags) | Returned(bits: Flags)

  datatype System = System(group: Group, notifications: nat, waiter: Waiter, setters: map<nat, Setter>, log: seq<Event>)

  datatype Action =
    | TakeOwnership
    | SetFromTask(setter: nat, events: Flags)
    | SetFromIsr(setter: nat, events: Flags)
    | IsrLooksAtOwner(setter: nat)
    | Notify(setter: nat)
    | WaitFirst(bits: Flags)
    | TakeNotification
    | TimeOut
    | WaitSecond
    | Read(bits: Flags)

  const INIT := System(Group({}, {}, false), 0, Running, map[], [])

  /**
   * `waitEvents` insists on an owner; taking a notification needs one to
   * be there, and timing out needs none to be there.
   */
  predicate Enabled(s: System, a: Action) {
    match a
    case TakeOwnership => true
    case SetFromTask(i, _) => i !in s.setters
    case SetFromIsr(i, _) => i !in s.setters
    case IsrLooksAtOwner(i) => i in s.setters && s.setters[i] == IsrUnlocked
    case Notify(i) => i in s.setters && s.setters[i] == Notifying
    case WaitFirst(_) => s.waiter == Running && s.group.owned
    case TakeNotification => s.waiter.Blocked? && s.notifications > 0
    case TimeOut => s.waiter.Blocked? && s.notifications == 0
    case WaitSecond => s.waiter.Notified?
    case Read(_) => true
  }

  function Apply(s: System, a: Action): System
    requires Enabled(s, a)
  {
    match a
    case TakeOwnership => s.(group := s.group.(owned := true))
    case SetFromTask(i, e) =>
      var g := Raised(s.group, e);
      s.(group := g, log := s.log + [Set(e)],
         setters := if g.owned && g.value * g.mask != {} then s.setters[i := Notifying] else s.setters)
    case SetFromIsr(i, e) =>
      var g := Raised(s.group, e);
      s.(group := g, log := s.log + [Set(e)],
         setters := if g.value * g.mask != {} then s.setters[i := IsrUnlocked] else s.setters)
    case IsrLooksAtOwner(i) =>
      s.(setters := if s.group.owned then s.setters[i := Notifying] else s.setters - {i})
    case Notify(i) =>
      s.(notifications := s.notifications + 1, setters := s.setters - {i})
    case WaitFirst(m) =>
      var got := m * s.group.value;
      if got != {} then
        s.(group := Lowered(s.group, got).(mask := {}), log := s.log + [Returned(got)])
      else
        s.(group := s.group.(mask := m), waiter := Blocked(m))
    case TakeNotification => s.(notifications := 0, waiter := Notified(s.waiter.bits))
    case TimeOut => s.(waiter := Running)
    case WaitSecond =>
      var got := s.waiter.bits * s.group.value;
      s.(group := Lowered(s.group, got).(mask := {}), waiter := Running, log := s.log + [Returned(got)])
    case Read(m) =>
      var got := s.group.value * m;
      s.(group := Lowered(s.group, got), log := s.log + [Returned(got)])
  }

  /** What the steps of the setters and readers do to the three fields: what the methods do. */
  lemma SettersOnBits(s: System, a: Action)
    requires Enabled(s, a)
    ensures var g, t := s.group, Apply(s, a);
      match a
      case TakeOwnership => t.group == Group(g.value, g.mask, true) && t.setters == s.setters
      case SetFromTask(i, e) =>
        && t.group == Group(g.value + e, g.mask, g.owned)
        && t.setters == if g.owned && (g.value + e) * g.mask != {} then s.setters[i := Notifying] else s.setters
      case SetFromIsr(i, e) =>
        && t.group == Group(g.value + e, g.mask, g.owned)
        && t.setters == if (g.value + e) * g.mask != {} then s.setters[i := IsrUnlocked] else s.setters
      case IsrLooksAtOwner(i) =>
        t.group == g && t.setters == if g.owned then s.setters[i := Notifying] else s.setters - {i}
      case Notify(i) => t.group == g && t.setters == s.setters - {i} && t.notifications == s.notifications + 1
      case Read(m) =>
        t.group == Group(g.value - m, g.mask, g.owned) && t.log == s.log + [Returned(g.value * m)]
      case _ => t.setters == s.setters
    ensures !OfWaiter(a) ==> Apply(s, a).waiter == s.waiter
    ensures !OfWaiter(a) && !a.Notify? ==> Apply(s, a).notifications == s.notifications
  {
    if a.Read? {
      assert s.group.value - s.group.value * a.bits == s.group.value - a.bits;
    }
  }

  /** And those of the waiter. */
  lemma WaiterOnBits(s: System, a: Action)
    requires Enabled(s, a)
    ensures var g, t := s.group, Apply(s, a);
      match a
      case WaitFirst(m) =>
        && t.group == Group(g.value - m, if m * g.value != {} then {} else m, g.owned)
        && (if m * g.value != {} then t.waiter == s.waiter && t.log == s.log + [Returned(m * g.value)]
            else t.waiter == Blocked(m) && t.log == s.log)
      case TakeNotification => t == s.(notifications := 0, waiter := Notified(s.waiter.bits))
      case TimeOut => t == s.(waiter := Running)
      case WaitSecond =>
        && t.group == Group(g.value - s.waiter.bits, {}, g.owned) && t.waiter == Running
        && t.log == s.log + [Returned(s.waiter.bits * g.value)]
      case _ => true
  {
    match a {
      case WaitFirst(m) =>
        assert s.group.value - m * s.group.value == s.group.value - m;
      case WaitSecond =>
        assert s.group.value - s.waiter.bits * s.group.value == s.group.value - s.waiter.bits;
      case _ =>
    }
  }

  /** When each step can be made. */
  lemma EnabledIff(s: System, i: nat, bits: Flags)
    ensures Enabled(s, TakeOwnership) && Enabled(s, Read(bits))
    ensures Enabled(s, SetFromTask(i, bits)) && Enabled(s, SetFromIsr(i, bits)) <==> i !in s.setters
    ensures Enabled(s, SetFromTask(i, bits)) <==> Enabled(s, SetFromIsr(i, bits))
    ensures Enabled(s, IsrLooksAtOwner(i)) <==> i in s.setters && s.setters[i].IsrUnlocked?
    ensures Enabled(s, Notify(i)) <==> i in s.setters && s.setters[i].Notifying?
    ensures Enabled(s, WaitFirst(bits)) <==> s.waiter.Running? && s.group.owned
    ensures Enabled(s, TakeNotification) <==> s.waiter.Blocked? && s.notifications > 0
    ensures Enabled(s, TimeOut) <==> s.waiter.Blocked? && s.notifications == 0
    ensures Enabled(s, WaitSecond) <==> s.waiter.Notified?
  {
  }

  predicate Legal(s: System, run: seq<Action>)
    decreases run
  {
    run == [] || (Enabled(s, run[0]) && Legal(Apply(s, run[0]), run[1..]))
  }

  function After(s: System, run: seq<Action>): System
    requires Legal(s, run)
    decreases run
  {
    if run == [] then s else After(Apply(s, run[0]), run[1..])
  }

  /** Someone is about to wake the waiter: a notification is counted, or a setter is past its lock and will notify. */
  ghost predicate WakeupOnItsWay(s: System) {
    s.notifications > 0 || s.setters.Keys != {}
  }

  /** A blocked waiter has left its mask, and is not forgotten when one of its bits is set. */
  ghost predicate NothingLost(s: System) {
    s.waiter.Blocked? ==>
      && s.group.owned
      && s.group.mask == s.waiter.bits
      && (s.group.value * s.waiter.bits != {} ==> WakeupOnItsWay(s))
  }

  lemma StepLosesNothing(s: System, a: Action)
    requires NothingLost(s) && Enabled(s, a)
    ensures NothingLost(Apply(s, a))
  {
    var t := Apply(s, a);
    match a {
      case SetFromTask(i, _) =>
        assert t.setters != s.setters ==> i in t.setters.Keys;
      case SetFromIsr(i, _) =>
        assert t.setters != s.setters ==> i in t.setters.Keys;
      case IsrLooksAtOwner(i) =>
        assert s.group.owned ==> i in t.setters.Keys;
      case Read(m) =>
        assert t.group.value <= s.group.value;
      case _ =>
    }
  }

  lemma {:induction false} RunLosesNothing(s: System, run: seq<Action>)
    requires NothingLost(s) && Legal(s, run)
    ensures NothingLost(After(s, run))
    decreases run
  {
    if run != [] {
      StepLosesNothing(s, run[0]);
      RunLosesNothing(Apply(s, run[0]), run[1..]);
    }
  }

  /**
   * No lost wakeup: after any interleaving whatever, a waiter blocked on bits of which one is set has a notification
   * counted or a setter on its way to notify.
   */
  lemma NoLostWakeup(run: seq<Action>)
    requires Legal(INIT, run)
    ensures var s := After(INIT, run);
      s.waiter.Blocked? && s.group.value * s.waiter.bits != {} ==> s.notifications > 0 || s.setters != map[]
  {
    RunLosesNothing(INIT, run);
  }

  /** A step of the waiter itself; blocked, it can only take a notification or give up. */
  predicate OfWaiter(a: Action) {
    a.TakeNotification? || a.TimeOut? || a.WaitFirst? || a.WaitSecond?
  }

  lemma OthersIff(a: Action)
    ensures !OfWaiter(a) <==>
            a.TakeOwnership? || a.SetFromTask? || a.SetFromIsr? || a.IsrLooksAtOwner? || a.Notify? || a.Read?
  {
  }

  /** A step that brings the notification of setter `i` nearer. */
  predicate OwnStep(a: Action, i: nat) {
    a == IsrLooksAtOwner(i) || a == Notify(i)
  }

  function OwnSteps(run: seq<Action>, i: nat): nat {
    if run == [] then 0 else (if OwnStep(run[0], i) then 1 else 0) + OwnSteps(run[1..], i)
  }

  /** How many steps setter `i` still has to make until a notification is counted; 3 if it is not on its way. */
  function Rank(s: System, i: nat): nat {
    if s.notifications > 0 then 0
    else if i !in s.setters then 3
    else if s.setters[i] == Notifying then 1 else 2
  }

  lemma RankStep(s: System, a: Action, i: nat)
    requires s.waiter.Blocked? && s.group.owned && Rank(s, i) <= 2 && Enabled(s, a) && !OfWaiter(a)
    ensures var t := Apply(s, a);
      && t.waiter == s.waiter && t.group.owned
      && Rank(t, i) <= if OwnStep(a, i) && Rank(s, i) > 0 then Rank(s, i) - 1 else Rank(s, i)
  {
  }

  /**
   * The wakeup stays due. While the waiter is blocked nothing that setters, interrupts and readers do, in any order,
   * takes back a counted notification or stops a setter on its way: each step of that setter brings it nearer, it can
   * always make one, and after two at the latest a notification is counted, which the waiter can take and which
   * keeps it from timing out.
   */
  lemma {:induction false} WakeupStaysDue(s: System, run: seq<Action>, i: nat)
    requires NothingLost(s) && s.waiter.Blocked? && Rank(s, i) <= 2
    requires Legal(s, run) && forall k :: 0 <= k < |run| ==> !OfWaiter(run[k])
    ensures var t := After(s, run);
      && t.waiter == s.waiter && NothingLost(t)
      && Rank(t, i) <= (if OwnSteps(run, i) < Rank(s, i) then Rank(s, i) - OwnSteps(run, i) else 0)
      && (Rank(t, i) == 0 ==> Enabled(t, TakeNotification) && !Enabled(t, TimeOut))
      && (Rank(t, i) == 1 ==> Enabled(t, Notify(i)))
      && (Rank(t, i) == 2 ==> Enabled(t, IsrLooksAtOwner(i)))
    decreases run
  {
    if run != [] {
      RankStep(s, run[0], i);
      StepLosesNothing(s, run[0]);
      WakeupStaysDue(Apply(s, run[0]), run[1..], i);
    }
  }

  /** A blocked waiter with one of its bits set always has such a setter, or a notification counted already. */
  lemma SomebodyIsOnTheWay(run: seq<Action>) returns (i: nat)
    requires Legal(INIT, run)
    requires var s := After(INIT, run); s.waiter.Blocked? && s.group.value * s.waiter.bits != {}
    ensures NothingLost(After(INIT, run)) && Rank(After(INIT, run), i) <= 2
  {
    RunLosesNothing(INIT, run);
    var s := After(INIT, run);
    if s.notifications > 0 {
      i := 0;
    } else {
      i :| i in s.setters.Keys;
    }
  }

  /**
   * A notification taken stays taken: the waiter's last step can be made whatever comes before it, and ends the wait.
   */
  lemma {:induction false} NotifiedStaysNotified(s: System, run: seq<Action>)
    requires s.waiter.Notified? && Legal(s, run) && forall k :: 0 <= k < |run| ==> run[k] != WaitSecond
    ensures var t := After(s, run);
      && t.waiter == s.waiter && Enabled(t, WaitSecond)
      && Apply(t, WaitSecond).waiter == Running
      && Apply(t, WaitSecond).log == t.log + [Returned(s.waiter.bits * t.group.value)]
    decreases run
  {
    if run != [] {
      NotifiedStaysNotified(Apply(s, run[0]), run[1..]);
    }
  }

  /** And the wakeup arrives: two more steps of that setter, the waiter's two steps, and the waiter has all its bits. */
  lemma WakeupArrives(s: System) returns (rest: seq<Action>)
    requires NothingLost(s) && s.waiter.Blocked? && s.group.value * s.waiter.bits != {}
    ensures Legal(s, rest) && |rest| <= 4
    ensures var t := After(s, rest);
      && t.waiter == Running
      && t.log == s.log + [Returned(s.waiter.bits * s.group.value)]
      && t.group.value * s.waiter.bits == {}
  {
    var got := s.waiter.bits * s.group.value;
    assert (s.group.value - got) * s.waiter.bits == {};
    if s.notifications > 0 {
      rest := [TakeNotification, WaitSecond];
      Unfold2(s, TakeNotification, WaitSecond);
    } else {
      var i :| i in s.setters.Keys;
      if s.setters[i] == Notifying {
        var t := Apply(s, Notify(i));
        Unfold2(t, TakeNotification, WaitSecond);
        rest := [Notify(i)] + [TakeNotification, WaitSecond];
      } else {
        var t := Apply(s, IsrLooksAtOwner(i));
        var u := Apply(t, Notify(i));
        Unfold2(u, TakeNotification, WaitSecond);
        var tail := [Notify(i)] + [TakeNotification, WaitSecond];
        assert tail[1..] == [TakeNotification, WaitSecond];
        rest := [IsrLooksAtOwner(i)] + tail;
        assert rest[1..] == tail;
      }
    }
  }

  lemma Unfold2(s: System, a: Action, b: Action)
    requires Enabled(s, a) && Enabled(Apply(s, a), b)
    ensures Legal(s, [a, b]) && After(s, [a, b]) == Apply(Apply(s, a), b)
  {
    var t := Apply(s, a);
    assert [a, b][1..] == [b] && [b][1..] == [];
    assert After(t, [b]) == After(Apply(t, b), []);
  }

  // ---------- conservation of events ----------

  /** What the log says about one bit: pending exactly if the last event that mentions it sets it. */
  function Pending(log: seq<Event>, bit: nat): bool {
    if log == [] then false
    else
      var last := log[|log| - 1];
      if bit !in last.bits then Pending(log[..|log| - 1], bit) else last.Set?
  }

  /** Pending means: some event sets the bit, and none behind it hands it out. */
  lemma {:induction false} PendingMeansIff(log: seq<Event>, bit: nat)
    ensures Pending(log, bit) <==>
            exists k :: && 0 <= k < |log| && log[k].Set? && bit in log[k].bits
                        && forall j :: k < j < |log| ==> !(log[j].Returned? && bit in log[j].bits)
  {
    if log != [] {
      var n := |log| - 1;
      PendingMeansIff(log[..n], bit);
      assert forall k :: 0 <= k < n ==> log[..n][k] == log[k];
      if bit !in log[n].bits && Pending(log, bit) {
        var k :| && 0 <= k < n && log[..n][k].Set? && bit in log[..n][k].bits
                 && forall j :: k < j < n ==> !(log[..n][j].Returned? && bit in log[..n][j].bits);
        assert log[k].Set? && bit in log[k].bits;
        assert forall j :: k < j < |log| ==> j == n || log[j] == log[..n][j];
      }
    }
  }

  /** Every event handed out was pending when it was: it had been set since it was last handed out. */
  ghost predicate HandedOutOnce(log: seq<Event>, bit: nat) {
    forall k {:trigger log[k]} :: 0 <= k < |log| && log[k].Returned? && bit in log[k].bits ==> Pending(log[..k], bit)
  }

  ghost predicate Conserved(s: System, bit: nat) {
    (bit in s.group.value <==> Pending(s.log, bit)) && HandedOutOnce(s.log, bit)
  }

  lemma LogGrows(log: seq<Event>, e: Event, bit: nat)
    requires HandedOutOnce(log, bit)
    requires e.Returned? && bit in e.bits ==> Pending(log, bit)
    ensures HandedOutOnce(log + [e], bit)
    ensures Pending(log + [e], bit) <==> if bit !in e.bits then Pending(log, bit) else e.Set?
  {
    var more := log + [e];
    assert more[..|log|] == log;
    forall k {:trigger more[k]} | 0 <= k < |more| && more[k].Returned? && bit in more[k].bits
      ensures Pending(more[..k], bit)
    {
      if k < |log| {
        assert more[..k] == log[..k] && more[k] == log[k];
      }
    }
  }

  lemma StepConserves(s: System, a: Action, bit: nat)
    requires Conserved(s, bit) && Enabled(s, a)
    ensures Conserved(Apply(s, a), bit)
  {
    hide HandedOutOnce, Pending;
    LogOnce(s, a);
    var t := Apply(s, a);
    if t.log != s.log {
      LogGrows(s.log, t.log[|s.log|], bit);
    }
  }

  /** A step logs one event at most. */
  lemma LogOnce(s: System, a: Action)
    requires Enabled(s, a)
    ensures var t := Apply(s, a);
      t.log == s.log || (|t.log| == |s.log| + 1 && t.log == s.log + [t.log[|s.log|]])
  {
  }

  lemma {:induction false} RunConserves(s: System, run: seq<Action>, bit: nat)
    requires Conserved(s, bit) && Legal(s, run)
    ensures Conserved(After(s, run), bit)
    decreases run
  {
    if run != [] {
      StepConserves(s, run[0], bit);
      RunConserves(Apply(s, run[0]), run[1..], bit);
    }
  }

  /**
   * Conservation: after any interleaving a bit is in `_value` exactly if it has been set and not handed out since,
   * and it was never handed out without having been set since it was last handed out.
   */
  lemma EventsAreConserved(run: seq<Action>, bit: nat)
    requires Legal(INIT, run)
    ensures var s := After(INIT, run);
      && (bit in s.group.value <==> Pending(s.log, bit))
      && forall k {:trigger s.log[k]} :: 0 <= k < |s.log| && s.log[k].Returned? && bit in s.log[k].bits ==>
           Pending(s.log[..k], bit)
  {
    RunConserves(INIT, run, bit);
  }

  /** A wait that times out after any run hands out nothing and leaves every event pending. */
  lemma TimeOutClearsNothing(run: seq<Action>, bit: nat)
    requires Legal(INIT, run) && Enabled(After(INIT, run), TimeOut)
    ensures var s, t := After(INIT, run), Apply(After(INIT, run), TimeOut);
      && t.log == s.log
      && (bit in t.group.value <==> Pending(s.log, bit))
      && (bit in s.waiter.bits && Pending(s.log, bit) ==> s.setters != map[])
  {
    RunConserves(INIT, run, bit);
    NoLostWakeup(run);
  }
}
