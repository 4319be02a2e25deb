/**
 * The Asyncify call gate: many callers of one module, serialized through a promise chain
 * (webtilp/app.js:1305-1328, 1336-1366, 1452-1557).
 */
module CallGate {

  /** Where the owner of a slot stands. `Done` means that the slot's promise is resolved. */
  datatype Phase =
    | Waiting      // parked on the race of the previous slot and the death signal
    | Pausing      // past the race, inside the minimum-gap sleep
    | InFlight     // ccall returned a promise that has not settled
    | Settled      // it settled; its release reaction has not run
    | Forwarding   // left without entering; releases when the previous slot does
    | Done

  /** What the caller's promise still expects. */
  datatype Caller = Awaiting | SawValue | SawFatal | Gone

  datatype Slot = Slot(phase: Phase, epoch: nat, caller: Caller, watched: bool)

  /** A call into the module: whose, the gate's state at that moment, and whether it returned a promise or threw. */
  datatype Entry = Entry(slot: nat, callerEpoch: nat, epoch: nat, dead: bool, promise: bool)

  /** `entries` and `settled` are the history: calls made into the module, and slots whose call has settled. */
  datatype State = State(slots: seq<Slot>, dead: bool, epoch: nat, entries: seq<Entry>, settled: set<nat>)

  datatype Result = Promise | Threw(fatal: bool)

  datatype Event =
    | Call                                   // a new ccallAsync, up to its first await
    | Wake(i: nat, pause: bool, r: Result)   // the race resolved
    | Unpause(i: nat, r: Result)             // the gap sleep ended
    | Settle(i: nat, fatal: bool)            // the underlying call settled
    | Answer(i: nat)                         // the caller's await resumed with the outcome
    | Timeout(i: nat)                        // the JavaScript side gave up
    | Watchdog(i: nat)                       // the grace period of an abandoned call ended
    | Release(i: nat)                        // the release reaction of a settled call
    | Forward(i: nat)                        // the forwarding reaction of a slot that never entered
    | Cancel                                 // the operation epoch moved on
    | Retire                                 // the module was retired from outside

  const INIT := State([], false, 0, [], {})

  predicate Is(s: State, i: nat, p: Phase)
  {
    i < |s.slots| && s.slots[i].phase == p
  }

  /** `prev` of slot `i` is resolved. */
  predicate PrevReleased(s: State, i: nat)
  {
    i == 0 || Is(s, i - 1, Done)
  }

  predicate Enabled(s: State, e: Event)
  {
    match e
    case Call => true
    case Wake(i, _, _) => Is(s, i, Waiting) && (PrevReleased(s, i) || s.dead)
    case Unpause(i, _) => Is(s, i, Pausing)
    case Settle(i, _) => Is(s, i, InFlight)
    case Answer(i) => i < |s.slots| && (s.slots[i].caller.SawValue? || s.slots[i].caller.SawFatal?)
    case Timeout(i) => i < |s.slots| && s.slots[i].phase !in {Waiting, Pausing, Forwarding} && !s.slots[i].caller.Gone?
    case Watchdog(i) => i < |s.slots| && s.slots[i].watched
    case Release(i) => Is(s, i, Settled)
    case Forward(i) => Is(s, i, Forwarding) && PrevReleased(s, i)
    case Cancel => true
    case Retire => true
  }

  function Put(s: State, i: nat, slot: Slot): State
    requires i < |s.slots|
  {
    s.(slots := s.slots[i := slot])
  }

  /** Leaving before the call: the caller is answered with an error, the slot will forward its predecessor's release. */
  function Leave(s: State, i: nat): State
    requires i < |s.slots|
  {
    Put(s, i, s.slots[i].(phase := Forwarding, caller := Gone))
  }

  predicate Refused(s: State, i: nat)
    requires i < |s.slots|
  {
    s.slots[i].epoch != s.epoch || s.dead
  }

  /** The synchronous segment that calls into the module. */
  function Enter(s: State, i: nat, r: Result): State
    requires i < |s.slots|
  {
    var entered := s.(entries := s.entries + [Entry(i, s.slots[i].epoch, s.epoch, s.dead, r.Promise?)]);
    match r
    case Promise => Put(entered, i, s.slots[i].(phase := InFlight))
    case Threw(fatal) => Leave(entered.(dead := entered.dead || fatal), i)
  }

  function Next(s: State, e: Event): State
    requires Enabled(s, e)
  {
    match e
    case Call => if s.dead then s else s.(slots := s.slots + [Slot(Waiting, s.epoch, Awaiting, false)])
    case Wake(i, pause, r) =>
      if Refused(s, i) then Leave(s, i)
      else if pause then Put(s, i, s.slots[i].(phase := Pausing))
      else Enter(s, i, r)
    case Unpause(i, r) => if Refused(s, i) then Leave(s, i) else Enter(s, i, r)
    case Settle(i, fatal) =>
      var slot := s.slots[i];
      var caller := if slot.caller.Gone? then Gone else if fatal then SawFatal else SawValue;
      Put(s, i, slot.(phase := Settled, caller := caller)).(settled := s.settled + {i})
    case Answer(i) =>
      var slot := s.slots[i];
      Put(s, i, slot.(caller := Gone)).(dead := s.dead || (slot.caller.SawFatal? && slot.epoch == s.epoch))
    case Timeout(i) =>
      var slot := s.slots[i];
      Put(s, i, slot.(caller := Gone, watched := slot.phase.InFlight?))
    case Watchdog(i) =>
      var slot := s.slots[i];
      Put(s, i, slot.(watched := false)).(dead := s.dead || slot.phase.InFlight?)
    case Release(i) => Put(s, i, s.slots[i].(phase := Done))
    case Forward(i) => Put(s, i, s.slots[i].(phase := Done))
    case Cancel => s.(epoch := s.epoch + 1)
    case Retire => s.(dead := true)
  }

  // ----- the invariant -----

  /** Every slot before `i` is released. */
  predicate EarlierDone(slots: seq<Slot>, i: nat)
    requires i <= |slots|
  {
    forall j :: 0 <= j < i ==> slots[j].phase.Done?
  }

  predicate Past(p: Phase)
  {
    p.Pausing? || p.InFlight? || p.Settled? || p.Done?
  }

  /** A slot that is past the race while alive, entered or released has every earlier slot released. */
  predicate Ordered(slots: seq<Slot>)
  {
    forall i :: 0 <= i < |slots| && Past(slots[i].phase) ==> EarlierDone(slots, i)
  }

  /** What a caller may still expect in each phase. */
  predicate CallerOk(slot: Slot)
  {
    match slot.phase
    case Waiting => slot.caller.Awaiting? && !slot.watched
    case Pausing => slot.caller.Awaiting? && !slot.watched
    case InFlight => slot.caller.Awaiting? || slot.caller.Gone?
    case Settled => !slot.caller.Awaiting?
    case Forwarding => slot.caller.Gone?
    case Done => !slot.caller.Awaiting?
  }

  predicate CallersOk(slots: seq<Slot>)
  {
    forall i :: 0 <= i < |slots| ==> CallerOk(slots[i])
  }

  predicate NotYet(p: Phase)
  {
    p.Waiting? || p.Pausing?
  }

  /** An entry was made alive, in its own epoch, by a slot whose predecessors had all been released. */
  predicate EntryOk(slots: seq<Slot>, e: Entry)
  {
    && e.slot < |slots| && !e.dead && e.callerEpoch == e.epoch
    && (if e.promise then Called(slots[e.slot].phase) else slots[e.slot].phase.Forwarding? || slots[e.slot].phase.Done?)
    && EarlierDone(slots, e.slot)
  }

  predicate Called(p: Phase)
  {
    p.InFlight? || p.Settled? || p.Done?
  }

  predicate EntriesOk(s: State)
  {
    && (forall k :: 0 <= k < |s.entries| ==> EntryOk(s.slots, s.entries[k]))
    && (forall a, b :: 0 <= a < b < |s.entries| ==> s.entries[a].slot < s.entries[b].slot)
  }

  predicate Recorded(s: State, i: nat)
  {
    exists k :: 0 <= k < |s.entries| && s.entries[k].slot == i
  }

  /** A call in flight is on record and unsettled; a settled slot is on record as such. */
  predicate HistoryOk(s: State)
  {
    forall i :: 0 <= i < |s.slots| ==>
      && (s.slots[i].phase.InFlight? ==> Recorded(s, i) && i !in s.settled)
      && (s.slots[i].phase.Settled? ==> i in s.settled)
      && (NotYet(s.slots[i].phase) ==> i !in s.settled)
  }

  /** A slot whose call returned a promise is released only after that promise settled. */
  predicate ReleasedAfterSettling(s: State)
  {
    forall k :: 0 <= k < |s.entries| ==>
      s.entries[k].promise && Is(s, s.entries[k].slot, Done) ==> s.entries[k].slot in s.settled
  }

  predicate SettledInRange(s: State)
  {
    forall i :: i in s.settled ==> 0 <= i < |s.slots|
  }

  ghost predicate Inv(s: State)
  {
    Ordered(s.slots) && CallersOk(s.slots) && EntriesOk(s) && HistoryOk(s) && SettledInRange(s)
      && ReleasedAfterSettling(s)
  }

  lemma {:induction false} PrevReleasedChain(s: State, i: nat)
    requires Ordered(s.slots) && i < |s.slots| && PrevReleased(s, i)
    ensures EarlierDone(s.slots, i)
  {
    if i > 0 {
      assert Past(s.slots[i - 1].phase) && EarlierDone(s.slots, i - 1);
    }
  }

  /** One slot moves on: forward in its life, and only past released predecessors. */
  predicate Advances(slots: seq<Slot>, i: nat, slot: Slot)
  {
    && i < |slots| && CallerOk(slot)
    && Moves(slots[i].phase, slot.phase)
    && (slot.phase != slots[i].phase && Past(slot.phase) ==> EarlierDone(slots, i))
  }

  /** The life of a slot. */
  predicate Moves(p: Phase, q: Phase)
  {
    || q == p
    || (p.Waiting? && q.Pausing?)
    || (NotYet(p) && (q.InFlight? || q.Forwarding?))
    || (p.InFlight? && q.Settled?)
    || (p.Settled? && q.Done?)
    || (p.Forwarding? && q.Done?)
  }

  lemma AdvanceKeepsOrder(slots: seq<Slot>, i: nat, slot: Slot)
    requires Ordered(slots) && CallersOk(slots) && Advances(slots, i, slot)
    ensures Ordered(slots[i := slot]) && CallersOk(slots[i := slot])
    ensures forall j :: 0 <= j <= |slots| && EarlierDone(slots, j) ==> EarlierDone(slots[i := slot], j)
  {
    hide CallerOk;
    var after := slots[i := slot];
    forall j | 0 <= j < |slots| && Past(after[j].phase) ensures EarlierDone(after, j) {
      assert j != i ==> EarlierDone(slots, j);
      assert j == i && Past(slots[i].phase) ==> EarlierDone(slots, i);
    }
  }

  lemma AdvanceKeepsEntries(s: State, i: nat, slot: Slot)
    requires EntriesOk(s) && Ordered(s.slots) && CallersOk(s.slots) && Advances(s.slots, i, slot)
    ensures EntriesOk(Put(s, i, slot))
  {
    hide CallerOk, EarlierDone;
    AdvanceKeepsOrder(s.slots, i, slot);
    var after := Put(s, i, slot);
    forall k | 0 <= k < |s.entries| ensures EntryOk(after.slots, s.entries[k]) {
      assert EntryOk(s.slots, s.entries[k]);
    }
  }

  /** The history side of one slot moving on; `n` is the state with its log already extended. */
  ghost predicate HistoryAdvances(s: State, n: State, i: nat, slot: Slot)
  {
    && i < |s.slots| && n.slots == s.slots && s.settled <= n.settled <= s.settled + {i}
    && (n.entries == s.entries || (exists e :: n.entries == s.entries + [e] && e.slot == i))
    && (slot.phase.InFlight? ==> Recorded(n, i) && i !in n.settled)
    && (slot.phase.Settled? ==> i in n.settled)
    && (NotYet(slot.phase) ==> i !in n.settled)
  }

  lemma AdvanceKeepsHistory(s: State, n: State, i: nat, slot: Slot)
    requires HistoryOk(s) && SettledInRange(s) && HistoryAdvances(s, n, i, slot)
    ensures HistoryOk(Put(n, i, slot)) && SettledInRange(Put(n, i, slot))
  {
    var after := Put(n, i, slot);
    assert forall k :: 0 <= k < |s.entries| ==> n.entries[k] == s.entries[k];
    forall j | 0 <= j < |s.slots|
      ensures (after.slots[j].phase.InFlight? ==> Recorded(after, j) && j !in after.settled)
           && (after.slots[j].phase.Settled? ==> j in after.settled)
           && (NotYet(after.slots[j].phase) ==> j !in after.settled)
    {
      if j == i {
        if Recorded(n, i) {
          var k :| 0 <= k < |n.entries| && n.entries[k].slot == i;
          assert after.entries[k].slot == i;
        }
      } else if s.slots[j].phase.InFlight? {
        var k :| 0 <= k < |s.entries| && s.entries[k].slot == j;
        assert after.entries[k].slot == j;
      }
    }
  }

  lemma Advance(s: State, n: State, i: nat, slot: Slot)
    requires Inv(s) && Advances(s.slots, i, slot) && HistoryAdvances(s, n, i, slot) && n.entries == s.entries
    ensures Inv(Put(n, i, slot))
  {
    hide Ordered, CallersOk, HistoryOk, SettledInRange, Advances, HistoryAdvances, ReleasedAfterSettling, EntryOk;
    Range(s, n, i, slot);
    SettlingKept(s, n, i, slot);
    AdvanceKeepsOrder(s.slots, i, slot);
    AdvanceKeepsEntries(n, i, slot);
    AdvanceKeepsHistory(s, n, i, slot);
  }

  lemma SettlingKept(s: State, n: State, i: nat, slot: Slot)
    requires Inv(s) && Advances(s.slots, i, slot) && n.slots == s.slots && s.settled <= n.settled
      && n.entries == s.entries
    ensures ReleasedAfterSettling(Put(n, i, slot))
  {
    hide Ordered, CallersOk, CallerOk, EarlierDone;
    forall k | 0 <= k < |s.entries| && s.entries[k].promise && Is(Put(n, i, slot), s.entries[k].slot, Done)
      ensures s.entries[k].slot in n.settled
    {
      assert EntryOk(s.slots, s.entries[k]);
      if s.entries[k].slot == i {
        assert Moves(s.slots[i].phase, slot.phase);
      } else {
        assert Is(s, s.entries[k].slot, Done);
      }
    }
  }

  lemma Range(s: State, n: State, i: nat, slot: Slot)
    requires HistoryAdvances(s, n, i, slot)
    ensures i < |s.slots| && n.slots == s.slots && s.settled <= n.settled
  {
  }

  /** A slot that has neither entered nor left comes after every entry. */
  lemma EntryIsNewest(s: State, i: nat)
    requires Inv(s) && i < |s.slots| && NotYet(s.slots[i].phase)
    ensures forall k :: 0 <= k < |s.entries| ==> s.entries[k].slot < i
  {
    hide Ordered, CallersOk, HistoryOk, SettledInRange;
    forall k | 0 <= k < |s.entries| ensures s.entries[k].slot < i {
      assert EntryOk(s.slots, s.entries[k]);
    }
  }

  lemma EnterKeepsInv(s: State, i: nat, r: Result)
    requires Inv(s) && i < |s.slots| && NotYet(s.slots[i].phase) && !Refused(s, i) && EarlierDone(s.slots, i)
    ensures Inv(Enter(s, i, r))
  {
    hide Ordered, HistoryOk, SettledInRange, EarlierDone, Inv, Recorded, ReleasedAfterSettling;
    assert CallerOk(s.slots[i]) && Ordered(s.slots) && EntriesOk(s) && CallersOk(s.slots)
      && ReleasedAfterSettling(s) && i !in s.settled by {
      InvParts(s, i);
    }
    EntryIsNewest(s, i);
    var n := s.(entries := s.entries + [Entry(i, s.slots[i].epoch, s.epoch, s.dead, r.Promise?)],
                dead := s.dead || (r.Threw? && r.fatal));
    var slot := if r.Promise? then s.slots[i].(phase := InFlight) else s.slots[i].(phase := Forwarding, caller := Gone);
    assert Put(n, i, slot) == Enter(s, i, r);
    // The log grows first; the slot then stops being one that has not entered.
    var after := n.(slots := s.slots[i := slot]);
    AdvanceKeepsOrder(s.slots, i, slot);
    forall k | 0 <= k < |n.entries| ensures EntryOk(after.slots, n.entries[k]) {
      assert k < |s.entries| ==> EntryOk(s.slots, s.entries[k]);
    }
    EnterHistory(s, n, i, slot);
    assert ReleasedAfterSettling(after) by {
      EnterSettling(s, n, i, slot);
    }
    InvOfParts(after);
  }

  lemma InvParts(s: State, i: nat)
    requires Inv(s) && i < |s.slots|
    ensures CallerOk(s.slots[i]) && Ordered(s.slots) && CallersOk(s.slots) && EntriesOk(s) && HistoryOk(s)
      && SettledInRange(s)
    ensures ReleasedAfterSettling(s)
    ensures NotYet(s.slots[i].phase) ==> i !in s.settled
  {
  }

  lemma InvOfParts(s: State)
    requires Ordered(s.slots) && CallersOk(s.slots) && EntriesOk(s) && HistoryOk(s) && SettledInRange(s)
      && ReleasedAfterSettling(s)
    ensures Inv(s)
  {
  }

  lemma EnterSettling(s: State, n: State, i: nat, slot: Slot)
    requires ReleasedAfterSettling(s) && i < |s.slots| && n.settled == s.settled && n.slots == s.slots
    requires |n.entries| == |s.entries| + 1 && n.entries[..|s.entries|] == s.entries && n.entries[|s.entries|].slot == i
    requires slot.phase.InFlight? || slot.phase.Forwarding?
    ensures ReleasedAfterSettling(Put(n, i, slot))
  {
    forall k | 0 <= k < |n.entries| && n.entries[k].promise && Is(Put(n, i, slot), n.entries[k].slot, Done)
      ensures n.entries[k].slot in n.settled
    {
      assert k < |s.entries| && n.entries[k] == n.entries[..|s.entries|][k] == s.entries[k];
      assert Is(s, s.entries[k].slot, Done);
    }
  }

  lemma EnterHistory(s: State, n: State, i: nat, slot: Slot)
    requires Inv(s) && i < |s.slots| && i !in s.settled && n.settled == s.settled && n.slots == s.slots
    requires exists e :: n.entries == s.entries + [e] && e.slot == i
    requires slot.phase.InFlight? || slot.phase.Forwarding?
    ensures HistoryOk(Put(n, i, slot)) && SettledInRange(Put(n, i, slot))
  {
    var e :| n.entries == s.entries + [e] && e.slot == i;
    assert n.entries[|s.entries|].slot == i;
    AdvanceKeepsHistory(s, n, i, slot);
  }

  /** Every event keeps the invariant. */
  lemma NextKeepsInv(s: State, e: Event)
    requires Inv(s) && Enabled(s, e)
    ensures Inv(Next(s, e))
  {
    hide Ordered, CallersOk, EntriesOk, HistoryOk, SettledInRange, EarlierDone, Inv, Recorded, Enter, Leave,
         ReleasedAfterSettling;
    match e {
      case Call =>
        if !s.dead {
          CallKeepsInv(s);
        }
      case Wake(i, pause, r) =>
        InvParts(s, i);
        if Refused(s, i) {
          LeaveKeepsInv(s, i);
        } else {
          PrevReleasedChain(s, i);
          if pause {
            SlotEvent(s, s, i, s.slots[i].(phase := Pausing));
          } else {
            EnterKeepsInv(s, i, r);
          }
        }
      case Unpause(i, r) =>
        InvParts(s, i);
        if Refused(s, i) {
          LeaveKeepsInv(s, i);
        } else {
          PastChain(s, i);
          EnterKeepsInv(s, i, r);
        }
      case Settle(i, fatal) =>
        InvParts(s, i);
        PastChain(s, i);
        var caller := if s.slots[i].caller.Gone? then Gone else if fatal then SawFatal else SawValue;
        SlotEvent(s, s.(settled := s.settled + {i}), i, s.slots[i].(phase := Settled, caller := caller));
      case Answer(i) =>
        InvParts(s, i);
        var slot := s.slots[i];
        SlotEvent(s, s.(dead := s.dead || (slot.caller.SawFatal? && slot.epoch == s.epoch)), i, slot.(caller := Gone));
      case Timeout(i) =>
        InvParts(s, i);
        SlotEvent(s, s, i, s.slots[i].(caller := Gone, watched := s.slots[i].phase.InFlight?));
      case Watchdog(i) =>
        InvParts(s, i);
        SlotEvent(s, s.(dead := s.dead || s.slots[i].phase.InFlight?), i, s.slots[i].(watched := false));
      case Release(i) =>
        InvParts(s, i);
        PastChain(s, i);
        SlotEvent(s, s, i, s.slots[i].(phase := Done));
      case Forward(i) =>
        InvParts(s, i);
        PrevReleasedChain(s, i);
        SlotEvent(s, s, i, s.slots[i].(phase := Done));
      case Cancel => SameParts(s, s.(epoch := s.epoch + 1));
      case Retire => SameParts(s, s.(dead := true));
    }
  }

  lemma SameParts(s: State, n: State)
    requires Inv(s) && n.slots == s.slots && n.entries == s.entries && n.settled == s.settled
    ensures Inv(n)
  {
    hide Ordered, CallersOk, EntryOk;
    assert forall i :: Recorded(s, i) ==> Recorded(n, i);
  }

  lemma PastChain(s: State, i: nat)
    requires Ordered(s.slots) && i < |s.slots| && Past(s.slots[i].phase)
    ensures EarlierDone(s.slots, i)
  {
  }

  /** A slot event that adds no entry. */
  lemma SlotEvent(s: State, n: State, i: nat, slot: Slot)
    requires Inv(s) && Advances(s.slots, i, slot)
    requires n.slots == s.slots && n.entries == s.entries && s.settled <= n.settled <= s.settled + {i}
    requires (slot.phase == s.slots[i].phase && n.settled == s.settled)
      || (slot.phase.Settled? && s.slots[i].phase.InFlight? && i in n.settled)
      || (slot.phase.Pausing? && s.slots[i].phase.Waiting? && n.settled == s.settled)
      || ((slot.phase.Done? || slot.phase.Forwarding?) && n.settled == s.settled)
    ensures Inv(Put(n, i, slot))
  {
    hide Ordered, CallersOk, EntryOk, Advances, ReleasedAfterSettling;
    assert i < |s.slots| by { AdvancesRange(s.slots, i, slot); }
    assert HistoryAdvances(s, n, i, slot) by {
      if slot.phase.InFlight? {
        assert Recorded(s, i);
        var k :| 0 <= k < |s.entries| && s.entries[k].slot == i;
        assert n.entries[k].slot == i;
      }
    }
    Advance(s, n, i, slot);
  }

  lemma AdvancesRange(slots: seq<Slot>, i: nat, slot: Slot)
    requires Advances(slots, i, slot)
    ensures i < |slots|
  {
  }

  lemma LeaveKeepsInv(s: State, i: nat)
    requires Inv(s) && i < |s.slots| && NotYet(s.slots[i].phase)
    ensures Inv(Leave(s, i))
  {
    hide Inv, EarlierDone;
    SlotEvent(s, s, i, s.slots[i].(phase := Forwarding, caller := Gone));
  }

  lemma CallKeepsInv(s: State)
    requires Inv(s)
    ensures Inv(s.(slots := s.slots + [Slot(Waiting, s.epoch, Awaiting, false)]))
  {
    var n := s.(slots := s.slots + [Slot(Waiting, s.epoch, Awaiting, false)]);
    forall i | 0 <= i < |s.slots| && Past(s.slots[i].phase) ensures EarlierDone(n.slots, i) {
      assert EarlierDone(s.slots, i);
    }
    forall k | 0 <= k < |n.entries| ensures EntryOk(n.slots, n.entries[k]) {
      assert EntryOk(s.slots, s.entries[k]);
    }
    forall i | 0 <= i < |n.slots| && n.slots[i].phase.InFlight? ensures Recorded(n, i) {
      assert Recorded(s, i);
    }
  }

  // ----- runs -----

  predicate Runs(s: State, es: seq<Event>)
    decreases |es|
  {
    es == [] || (Enabled(s, es[0]) && Runs(Next(s, es[0]), es[1..]))
  }

  function After(s: State, es: seq<Event>): State
    requires Runs(s, es)
    decreases |es|
  {
    if es == [] then s else After(Next(s, es[0]), es[1..])
  }

  lemma {:induction false} RunKeepsInv(s: State, es: seq<Event>)
    requires Inv(s) && Runs(s, es)
    ensures Inv(After(s, es))
    decreases |es|
  {
    hide Inv, Next, Enabled;
    if es != [] {
      NextKeepsInv(s, es[0]);
      RunKeepsInv(Next(s, es[0]), es[1..]);
    }
  }

  lemma InitInv()
    ensures Inv(INIT)
  {
  }

  // ----- safety -----

  /**
   * Mutual exclusion and order, in every reachable state: at most one call is in flight; calls entered in slot order,
   * each alive and in its caller's epoch; a slot whose call returned a promise is released only after it settled; and
   * the released slots are exactly a prefix of the chain up to slots past the race.
   */
  lemma GateIsSafe(es: seq<Event>)
    requires Runs(INIT, es)
    ensures var s := After(INIT, es);
      && (forall i, j | 0 <= i < |s.slots| && 0 <= j < |s.slots| ::
            s.slots[i].phase.InFlight? && s.slots[j].phase.InFlight? ==> i == j)
      && (forall a, b :: 0 <= a < b < |s.entries| ==> s.entries[a].slot < s.entries[b].slot)
      && (forall k :: 0 <= k < |s.entries| ==> !s.entries[k].dead && s.entries[k].callerEpoch == s.entries[k].epoch)
      && (forall k :: 0 <= k < |s.entries| ==>
            s.entries[k].promise && Is(s, s.entries[k].slot, Done) ==> s.entries[k].slot in s.settled)
      && (forall i, j :: 0 <= i < j < |s.slots| && s.slots[j].phase.Done? ==> s.slots[i].phase.Done?)
  {
    hide Runs, After, CallersOk, HistoryOk, SettledInRange;
    InitInv();
    RunKeepsInv(INIT, es);
    var s := After(INIT, es);
    forall i, j | 0 <= i < |s.slots| && 0 <= j < |s.slots| && s.slots[i].phase.InFlight? && s.slots[j].phase.InFlight?
      ensures i == j
    {
      assert EarlierDone(s.slots, i) && EarlierDone(s.slots, j);
    }
    forall k | 0 <= k < |s.entries| ensures !s.entries[k].dead && s.entries[k].callerEpoch == s.entries[k].epoch {
      assert EntryOk(s.slots, s.entries[k]);
    }
    forall i, j | 0 <= i < j < |s.slots| && s.slots[j].phase.Done? ensures s.slots[i].phase.Done? {
      assert EarlierDone(s.slots, j);
    }
  }

  /**
   * A call into the module, even one that throws at once, happens only while no earlier call is in flight, while the
   * gate is alive and the caller's epoch is current, and it is the newest slot to do so.
   */
  lemma EntryIsExclusive(es: seq<Event>, e: Event)
    requires Runs(INIT, es) && Enabled(After(INIT, es), e)
    ensures var s, n := After(INIT, es), Next(After(INIT, es), e);
      n.entries != s.entries ==>
        && |n.entries| == |s.entries| + 1 && n.entries[..|s.entries|] == s.entries
        && !s.dead && n.entries[|s.entries|].callerEpoch == s.epoch
        && (forall i :: 0 <= i < |s.slots| ==> !s.slots[i].phase.InFlight? && !s.slots[i].phase.Settled?)
        && (forall k :: 0 <= k < |s.entries| ==> s.entries[k].slot < n.entries[|s.entries|].slot)
  {
    hide Runs, After, CallersOk, HistoryOk, SettledInRange, EarlierDone, ReleasedAfterSettling;
    InitInv();
    RunKeepsInv(INIT, es);
    var s, n := After(INIT, es), Next(After(INIT, es), e);
    if n.entries != s.entries {
      var i := e.i;
      EntryIsNewest(s, i);
      assert EarlierDone(s.slots, i) by {
        if e.Wake? {
          PrevReleasedChain(s, i);
        } else {
          PastChain(s, i);
        }
      }
      NoneInFlight(s, i);
    }
  }

  lemma NoneInFlight(s: State, i: nat)
    requires Ordered(s.slots) && i < |s.slots| && NotYet(s.slots[i].phase) && EarlierDone(s.slots, i)
    ensures forall j :: 0 <= j < |s.slots| ==> !s.slots[j].phase.InFlight? && !s.slots[j].phase.Settled?
  {
    forall j | 0 <= j < |s.slots| ensures !s.slots[j].phase.InFlight? && !s.slots[j].phase.Settled? {
      assert Past(s.slots[j].phase) ==> EarlierDone(s.slots, j);
    }
  }

  /** Death is permanent, and after it nothing enters: the entry log is frozen. */
  lemma {:induction false} NothingEntersAfterDeath(s: State, es: seq<Event>)
    requires s.dead && Runs(s, es)
    ensures After(s, es).dead && After(s, es).entries == s.entries
    decreases |es|
  {
    if es != [] {
      DeadStep(s, es[0]);
      NothingEntersAfterDeath(Next(s, es[0]), es[1..]);
    }
  }

  lemma DeadStep(s: State, e: Event)
    requires s.dead && Enabled(s, e)
    ensures Next(s, e).dead && Next(s, e).entries == s.entries
  {
  }

  /** A slot is released only by its own settled call or, never having entered, by its predecessor's release. */
  lemma ReleaseHasACause(s: State, e: Event, i: nat)
    requires Inv(s) && Enabled(s, e) && i < |s.slots| && !Is(s, i, Done) && Is(Next(s, e), i, Done)
    ensures (e == Release(i) && i in s.settled) || (e == Forward(i) && Is(s, i, Forwarding) && PrevReleased(s, i))
  {
    hide Ordered, CallersOk, EntriesOk, SettledInRange, ReleasedAfterSettling;
  }

  /** The call of slot `i` is in flight, or it has settled. */
  predicate Busy(s: State, i: nat)
  {
    Is(s, i, InFlight) || i in s.settled
  }

  lemma BusyStep(s: State, e: Event, i: nat)
    requires Enabled(s, e) && Busy(s, i)
    ensures Busy(Next(s, e), i)
  {
  }

  lemma {:induction false} BusyRun(s: State, es: seq<Event>, i: nat)
    requires Runs(s, es) && Busy(s, i)
    ensures Busy(After(s, es), i)
    decreases |es|
  {
    hide Enabled, Next, Busy;
    if es != [] {
      BusyStep(s, es[0], i);
      BusyRun(Next(s, es[0]), es[1..], i);
    }
  }

  /**
   * A JavaScript-side timeout releases nothing, however the run goes on: a slot whose call was in flight when its
   * caller gave up stays in flight, and its chain closed, until that call settles.
   */
  lemma TimeoutReleasesNothing(s: State, i: nat, es: seq<Event>)
    requires Inv(s) && Is(s, i, InFlight) && Enabled(s, Timeout(i)) && Runs(Next(s, Timeout(i)), es)
    ensures var n := After(Next(s, Timeout(i)), es);
      i < |n.slots| && (i !in n.settled ==>
        && n.slots[i].phase.InFlight?
        && forall j :: i < j < |n.slots| ==> !n.slots[j].phase.Done? && !n.slots[j].phase.InFlight?)
  {
    hide Runs, After, CallersOk, EntriesOk, HistoryOk, ReleasedAfterSettling;
    var m := Next(s, Timeout(i));
    var n := After(m, es);
    NextKeepsInv(s, Timeout(i));
    RunKeepsInv(m, es);
    BusyRun(m, es, i);
    if i !in n.settled {
      ChainClosed(n.slots, i);
    }
  }

  lemma ChainClosed(slots: seq<Slot>, i: nat)
    requires Ordered(slots) && i < |slots| && slots[i].phase.InFlight?
    ensures forall j :: i < j < |slots| ==> !Past(slots[j].phase)
  {
  }

  // ----- liveness -----

  predicate Internal(e: Event)
  {
    !e.Call? && !e.Cancel? && !e.Retire?
  }

  function PhaseWeight(p: Phase): nat
  {
    match p
    case Waiting => 6
    case Pausing => 5
    case InFlight => 3
    case Settled => 2
    case Forwarding => 1
    case Done => 0
  }

  function CallerWeight(c: Caller): nat
  {
    match c
    case Awaiting => 2
    case SawValue => 1
    case SawFatal => 1
    case Gone => 0
  }

  function Weight(slot: Slot): nat
  {
    PhaseWeight(slot.phase) + CallerWeight(slot.caller) + if slot.watched then 1 else 0
  }

  /** How much work the callers already queued can still cause. */
  function Measure(slots: seq<Slot>): nat
  {
    if slots == [] then 0 else Weight(slots[0]) + Measure(slots[1..])
  }

  lemma {:induction false} MeasurePut(slots: seq<Slot>, i: nat, slot: Slot)
    requires i < |slots|
    ensures Measure(slots[i := slot]) == Measure(slots) - Weight(slots[i]) + Weight(slot)
    decreases |slots|
  {
    hide Weight;
    if i > 0 {
      MeasurePut(slots[1..], i - 1, slot);
      assert slots[i := slot][1..] == slots[1..][i - 1 := slot];
    } else {
      assert slots[i := slot][1..] == slots[1..];
    }
  }

  /** Every event that is not a new call, a cancellation or a retirement strictly decreases the measure. */
  lemma InternalStepsAreBounded(s: State, e: Event)
    requires Inv(s) && Enabled(s, e) && Internal(e)
    ensures Measure(Next(s, e).slots) < Measure(s.slots)
  {
    hide Measure, Ordered, EntriesOk, HistoryOk, SettledInRange, ReleasedAfterSettling;
    var i := e.i;
    assert CallerOk(s.slots[i]);
    var n := Next(s, e);
    assert n.slots == s.slots[i := n.slots[i]];
    MeasurePut(s.slots, i, n.slots[i]);
  }

  /** Hence a run of internal events is no longer than the measure at its start. */
  lemma {:induction false} CallersFinish(s: State, es: seq<Event>)
    requires Inv(s) && Runs(s, es) && forall k :: 0 <= k < |es| ==> Internal(es[k])
    ensures |es| <= Measure(s.slots) && Measure(After(s, es).slots) + |es| <= Measure(s.slots)
    decreases |es|
  {
    hide Inv, Next, Enabled, Measure;
    if es != [] {
      InternalStepsAreBounded(s, es[0]);
      NextKeepsInv(s, es[0]);
      CallersFinish(Next(s, es[0]), es[1..]);
    }
  }

  /** The owner of the lowest unreleased slot. */
  predicate IsHead(s: State, i: nat)
  {
    i < |s.slots| && !s.slots[i].phase.Done? && forall j :: 0 <= j < i ==> s.slots[j].phase.Done?
  }

  /**
   * No wake-up is lost: dead or alive, unless its own call is in flight, the owner of the lowest unreleased slot always
   * has an event of its own to take, and so it does once that call settles.
   */
  lemma NoLostWakeUp(s: State, i: nat) returns (e: Event)
    requires Inv(s) && IsHead(s, i)
    ensures Enabled(s, e) && Internal(e) && !e.Watchdog? && !e.Timeout? && e.i == i
    ensures e.Settle? <==> s.slots[i].phase.InFlight?
  {
    match s.slots[i].phase {
      case Waiting => e := Wake(i, false, Promise);
      case Pausing => e := Unpause(i, Promise);
      case InFlight => e := Settle(i, false);
      case Settled => e := Release(i);
      case Forwarding => e := Forward(i);
    }
  }

  lemma {:induction false} HeadExists(s: State, k: nat) returns (i: nat)
    requires k < |s.slots| && !s.slots[k].phase.Done?
    ensures IsHead(s, i) && i <= k
  {
    if j :| 0 <= j < k && !s.slots[j].phase.Done? {
      i := HeadExists(s, j);
    } else {
      i := k;
    }
  }

  /** When nothing internal can happen any more, every slot is released and every caller has been answered. */
  lemma QuiescenceIsCompletion(s: State)
    requires Inv(s) && forall e :: Internal(e) ==> !Enabled(s, e)
    ensures forall i :: 0 <= i < |s.slots| ==> s.slots[i].phase.Done? && s.slots[i].caller.Gone?
  {
    hide Ordered, EntriesOk, HistoryOk, SettledInRange, ReleasedAfterSettling, Inv;
    forall i | 0 <= i < |s.slots| ensures s.slots[i].phase.Done? && s.slots[i].caller.Gone? {
      if !s.slots[i].phase.Done? {
        var h := HeadExists(s, i);
        var e := NoLostWakeUp(s, h);
      } else {
        InvParts(s, i);
        assert Internal(Answer(i));
      }
    }
  }

  /**
   * After death no caller stays parked: at any later point of any run, each one still waiting can leave at once with an
   * error, whatever is in flight, and none of them has entered meanwhile.
   */
  lemma DeathWakesEveryone(s: State, es: seq<Event>, i: nat)
    requires Inv(s) && s.dead && Runs(s, es) && i < |After(s, es).slots| && NotYet(After(s, es).slots[i].phase)
    ensures var n := After(s, es);
      var e := if n.slots[i].phase.Waiting? then Wake(i, false, Promise) else Unpause(i, Promise);
      && Enabled(n, e) && Next(n, e).slots[i].caller == Gone && Is(Next(n, e), i, Forwarding)
      && Next(n, e).entries == s.entries
  {
    hide Runs, After;
    NothingEntersAfterDeath(s, es);
  }

  // ----- the bookkeeping object -----

  /** `module.__ccallState` with its slots; each method is one synchronous segment of the code. */
  class CallState {
    var slots: seq<Slot>
    var dead: bool
    var operationEpoch: nat
    ghost var entries: seq<Entry>
    ghost var settled: set<nat>

    ghost function View(): State
      reads this
    {
      State(slots, dead, operationEpoch, entries, settled)
    }

    constructor ()
      ensures View() == INIT
    {
      slots, dead, operationEpoch, entries, settled := [], false, 0, [], {};
    }

    /** `markDead` */
    method MarkDead()
      modifies this`dead
      ensures dead
    {
      if !dead {
        dead := true;
      }
    }

    /** From the call to the first await: take the slot behind `tail`. */
    method Begin() returns (slot: nat, refused: bool)
      modifies this
      ensures View() == Next(old(View()), Call) && refused == old(dead)
      ensures !refused ==> slot == |old(slots)|
    {
      slot, refused := |slots|, dead;
      if dead {
        return;
      }
      slots := slots + [Slot(Waiting, operationEpoch, Awaiting, false)];
    }

    /** `throwIfCancelled` and `throwIfDead`, with the finally block when one of them throws. */
    method CheckOrLeave(i: nat) returns (left: bool)
      requires i < |slots|
      modifies this`slots
      ensures left == Refused(old(View()), i)
      ensures View() == if left then Leave(old(View()), i) else old(View())
    {
      left := slots[i].epoch != operationEpoch || dead;
      if left {
        slots := slots[i := slots[i].(phase := Forwarding, caller := Gone)];
      }
    }

    /** The call into the module. */
    method CallModule(i: nat, r: Result)
      requires i < |slots|
      modifies this
      ensures View() == Enter(old(View()), i, r)
    {
      entries := entries + [Entry(i, slots[i].epoch, operationEpoch, dead, r.Promise?)];
      match r {
        case Promise => slots := slots[i := slots[i].(phase := InFlight)];
        case Threw(fatal) =>
          if fatal {
            MarkDead();
          }
          slots := slots[i := slots[i].(phase := Forwarding, caller := Gone)];
      }
    }

    method ResumeFromRace(i: nat, pause: bool, r: Result)
      requires Enabled(View(), Wake(i, pause, r))
      modifies this
      ensures View() == Next(old(View()), Wake(i, pause, r))
    {
      var left := CheckOrLeave(i);
      if left {
        return;
      }
      if pause {
        slots := slots[i := slots[i].(phase := Pausing)];
      } else {
        CallModule(i, r);
      }
    }

    method ResumeFromPause(i: nat, r: Result)
      requires Enabled(View(), Unpause(i, r))
      modifies this
      ensures View() == Next(old(View()), Unpause(i, r))
    {
      var left := CheckOrLeave(i);
      if !left {
        CallModule(i, r);
      }
    }

    /** The reactions to a settled call: record it, then release the slot. */
    method OnSettled(i: nat, fatal: bool)
      requires Enabled(View(), Settle(i, fatal))
      modifies this
      ensures View() == Next(Next(old(View()), Settle(i, fatal)), Release(i))
    {
      var caller := if slots[i].caller.Gone? then Gone else if fatal then SawFatal else SawValue;
      slots := slots[i := slots[i].(phase := Settled, caller := caller)];
      settled := settled + {i};
      slots := slots[i := slots[i].(phase := Done)];
    }

    method OnTimeout(i: nat)
      requires Enabled(View(), Timeout(i))
      modifies this`slots
      ensures View() == Next(old(View()), Timeout(i))
    {
      slots := slots[i := slots[i].(caller := Gone, watched := slots[i].phase.InFlight?)];
    }

    /** The grace timer of `watchAbandonedCcall`. */
    method OnGraceExpired(i: nat)
      requires Enabled(View(), Watchdog(i))
      modifies this
      ensures View() == Next(old(View()), Watchdog(i))
    {
      var pending := slots[i].phase.InFlight?;
      slots := slots[i := slots[i].(watched := false)];
      if !pending || dead {
        return;
      }
      MarkDead();
    }

    /** The caller's await resuming with the outcome of its call. */
    method OnAnswer(i: nat)
      requires Enabled(View(), Answer(i))
      modifies this
      ensures View() == Next(old(View()), Answer(i))
    {
      var fatal, cancelled := slots[i].caller.SawFatal?, slots[i].epoch != operationEpoch;
      slots := slots[i := slots[i].(caller := Gone)];
      if fatal && !cancelled {
        MarkDead();
      }
    }

    method OnPredecessorReleased(i: nat)
      requires Enabled(View(), Forward(i))
      modifies this`slots
      ensures View() == Next(old(View()), Forward(i))
    {
      slots := slots[i := slots[i].(phase := Done)];
    }
  }
}
