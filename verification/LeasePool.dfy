/** The provider WebSocket pool (internal/router/client_websocket.go) as a
    transition system. Every region the source runs under the pool mutex, and
    every channel operation between two regions, is one step; any order of steps
    of receivers, lease owners, cancellation callbacks, idle timers, dials and
    pool close is a run. A connection keeps all leases it ever served, so a lease
    is named by its connection and its position there. */
module LeasePool {
  import opened Wrappers

  const LIMIT: nat := 32
  const LIFETIME_SECONDS: nat := 50 * 60

  // One text frame. An undecodable or empty frame is never terminal.
  datatype Message = Message(id: nat, terminal: bool, empty: bool)

  datatype Receiver =
    | Dialing(key: nat)                    // acquire is dialing with its headers; no goroutine yet
    | Abandoned                            // the dial failed or met a closed pool
    | Top                                  // about to load the current lease
    | Reading(held: Option<nat>)           // inside conn.Read with the loaded lease
    | Blocked(lease: nat, m: Message)      // the queue was full: waiting to deliver
    | Unblocked(lease: nat)                // delivered, about to clear `pending`
    | Delivered(lease: nat)                // about to test `terminal`
    | AwaitingRelease(lease: nat)
    | Stopped                              // receiverDone is closed

  // Confused would be an owner that read another lease than its own at line 425.
  datatype Owner = Starting | Using | AwaitingReceiver | MayFinish | Finished | Confused

  datatype Lease = Lease(
    key: nat,                 // history: the headers that acquire was asked to use
    granted: nat,             // history: when
    queue: seq<Message>,
    pending: bool,
    terminal: bool,
    released: bool,
    owner: Owner,
    admitted: seq<Message>,   // history: frames queued or reserved for this lease
    observed: seq<Message>,   // history: frames given to observation.Message
    consumed: seq<Message>)   // history: frames returned by next

  function NewLease(key: nat, now: nat): Lease {
    Lease(key, now, [], false, false, false, Starting, [], [], [])
  }

  datatype Conn = Conn(key: nat, born: nat, busy: bool, lease: Option<nat>, receiver: Receiver, leases: seq<Lease>)

  // ---- One connection --------------------------------------------------------

  datatype ConnStep =
    | DialFailed
    | DialAborted
    | DialDone
    | Load
    | Read(m: Message, textual: bool, failed: bool)
    | DeliverBlocked
    | AbandonBlocked
    | ClearPending
    | CheckTerminal
    | WakeReleased
    | WakeDone
    | Handle(i: nat)
    | Consume(i: nat)
    | Release(i: nat, reuse: bool)
    | Cancel(i: nat)
    | ReceiverGone(i: nat)
    | Finish(i: nat)
    | IdleTimer

  predicate IsReceiverStep(step: ConnStep) {
    step.Load? || step.Read? || step.DeliverBlocked? || step.AbandonBlocked? || step.ClearPending?
    || step.CheckTerminal? || step.WakeReleased? || step.WakeDone?
  }

  predicate ValidLease(c: Conn, i: nat) {
    i < |c.leases|
  }

  predicate ConnEnabled(c: Conn, live: bool, closed: bool, step: ConnStep) {
    match step
    case DialFailed => c.receiver.Dialing?
    case DialAborted => c.receiver.Dialing? && closed
    case DialDone => c.receiver.Dialing? && !closed
    case Load => c.receiver.Top?
    case Read(m, _, _) => c.receiver.Reading? && (m.empty ==> !m.terminal)
    case DeliverBlocked => c.receiver.Blocked? && ValidLease(c, c.receiver.lease)
        && c.leases[c.receiver.lease].queue == []
    case AbandonBlocked => c.receiver.Blocked? && !live
    case ClearPending => c.receiver.Unblocked? && ValidLease(c, c.receiver.lease)
    case CheckTerminal => c.receiver.Delivered? && ValidLease(c, c.receiver.lease)
    case WakeReleased => c.receiver.AwaitingRelease? && ValidLease(c, c.receiver.lease)
        && c.leases[c.receiver.lease].released
    case WakeDone => c.receiver.AwaitingRelease? && !live
    case Handle(i) => ValidLease(c, i) && c.leases[i].owner.Starting?
    case Consume(i) => ValidLease(c, i) && c.leases[i].owner.Using? && c.leases[i].queue != []
    case Release(i, _) => ValidLease(c, i) && c.leases[i].owner.Using?
    case Cancel(i) => ValidLease(c, i)
    case ReceiverGone(i) => ValidLease(c, i) && c.leases[i].owner.AwaitingReceiver? && c.receiver.Stopped?
    case Finish(i) => ValidLease(c, i) && c.leases[i].owner.MayFinish?
    case IdleTimer => !c.busy
  }

  // A connection and whether it is still in the pool's entry set.
  datatype Slot = Slot(c: Conn, live: bool)

  function SetLease(c: Conn, i: nat, lease: Lease): Conn
    requires ValidLease(c, i)
  {
    c.(leases := c.leases[i := lease])
  }

  // `release`: true in the second component when the connection became idle.
  function Released(c: Conn, live: bool, now: nat, i: nat, reuse: bool): (Slot, bool)
    requires ValidLease(c, i)
  {
    var lease := c.leases[i];
    if !live || c.lease != Some(i) then (Slot(c, live), false)
    else if !reuse || !lease.terminal || lease.pending || lease.queue != [] || now - c.born >= LIFETIME_SECONDS then
      (Slot(c, false), false)
    else
      (Slot(SetLease(c, i, lease.(released := true)).(busy := false, lease := None), live), true)
  }

  // The locked region after conn.Read (lines 211-256).
  function AfterRead(c: Conn, live: bool, held: Option<nat>, m: Message, textual: bool, failed: bool): Slot {
    var current := if held.None? then c.lease else held;
    if current.None? || !ValidLease(c, current.value) then Slot(c.(receiver := Stopped), false) else
    var i := current.value;
    var seen := c.leases[i].(observed := if m.empty then c.leases[i].observed else c.leases[i].observed + [m]);
    if failed || !textual || !c.busy || c.lease != current then
      Slot(SetLease(c, i, seen).(receiver := Stopped), false)
    else if !live then
      Slot(SetLease(c, i, seen).(receiver := Stopped), live)
    else
      var admitted := seen.(terminal := seen.terminal || m.terminal, admitted := seen.admitted + [m]);
      if admitted.queue == [] then
        Slot(SetLease(c, i, admitted.(queue := [m])).(receiver := Delivered(i)), live)
      else
        Slot(SetLease(c, i, admitted.(pending := true)).(receiver := Blocked(i, m)), live)
  }

  function ConnApply(c: Conn, live: bool, closed: bool, now: nat, step: ConnStep): Slot
    requires ConnEnabled(c, live, closed, step)
  {
    match step
    case DialFailed => Slot(c.(receiver := Abandoned), false)
    case DialAborted => Slot(c.(receiver := Abandoned), live)
    case DialDone =>
      var lease := NewLease(c.receiver.key, now);
      Slot(c.(receiver := Top, lease := Some(|c.leases|), leases := c.leases + [lease]), live)
    case Load => Slot(c.(receiver := Reading(c.lease)), live)
    case Read(m, textual, failed) => AfterRead(c, live, c.receiver.held, m, textual, failed)
    case DeliverBlocked =>
      var i := c.receiver.lease;
      Slot(SetLease(c, i, c.leases[i].(queue := [c.receiver.m])).(receiver := Unblocked(i)), live)
    case AbandonBlocked => Slot(c.(receiver := Stopped), live)
    case ClearPending =>
      var i := c.receiver.lease;
      Slot(SetLease(c, i, c.leases[i].(pending := false)).(receiver := Delivered(i)), live)
    case CheckTerminal =>
      var i := c.receiver.lease;
      Slot(c.(receiver := if c.leases[i].terminal then AwaitingRelease(i) else Top), live)
    case WakeReleased => Slot(c.(receiver := Top), live)
    case WakeDone => Slot(c.(receiver := Stopped), live)
    case Handle(i) =>
      Slot(SetLease(c, i, c.leases[i].(owner := if c.lease == Some(i) then Using else Confused)), live)
    case Consume(i) =>
      var lease := c.leases[i];
      Slot(SetLease(c, i, lease.(queue := lease.queue[1..], consumed := lease.consumed + [lease.queue[0]])), live)
    case Release(i, reuse) =>
      var (slot, reused) := Released(c, live, now, i, reuse);
      Slot(SetLease(slot.c, i, slot.c.leases[i].(owner := if reused then MayFinish else AwaitingReceiver)), slot.live)
    case Cancel(i) => Released(c, live, now, i, false).0
    case ReceiverGone(i) => Slot(SetLease(c, i, c.leases[i].(owner := MayFinish)), live)
    case Finish(i) => Slot(SetLease(c, i, c.leases[i].(owner := Finished)), live)
    case IdleTimer => Slot(c, false)
  }

  // acquire hands an idle connection to a new lease (lines 125-132).
  function Granted(c: Conn, key: nat, now: nat): Conn {
    c.(busy := true, lease := Some(|c.leases|), leases := c.leases + [NewLease(key, now)])
  }

  // ---- What holds of one connection at every step ------------------------------

  function Visible(messages: seq<Message>): seq<Message> {
    if messages == [] then [] else
    var last := messages[|messages| - 1];
    Visible(messages[..|messages| - 1]) + if last.empty then [] else [last]
  }

  function InFlight(c: Conn, i: nat): seq<Message> {
    if c.receiver.Blocked? && c.receiver.lease == i then [c.receiver.m] else []
  }

  predicate Settled(lease: Lease) {
    lease.owner.MayFinish? || lease.owner.Finished?
  }

  ghost predicate LogsOk(c: Conn, i: nat)
    requires ValidLease(c, i)
  {
    var lease := c.leases[i];
    && |lease.queue| <= 1
    && lease.consumed + lease.queue + InFlight(c, i) <= lease.admitted
    && Visible(lease.admitted) <= lease.observed
    && (!c.receiver.Stopped? || lease.released ==>
          && lease.consumed + lease.queue + InFlight(c, i) == lease.admitted
          && Visible(lease.admitted) == lease.observed)
  }

  // A lease is terminal exactly when its last frame is, and no earlier one is.
  ghost predicate EndsOnce(admitted: seq<Message>, terminal: bool) {
    && (terminal <==> admitted != [] && admitted[|admitted| - 1].terminal)
    && forall k: nat :: k + 1 < |admitted| ==> !admitted[k].terminal
  }

  lemma EndsOnceAppend(admitted: seq<Message>, m: Message)
    requires EndsOnce(admitted, false)
    ensures EndsOnce(admitted + [m], m.terminal)
  {
  }

  ghost predicate LeaseOk(c: Conn, live: bool, i: nat)
    requires ValidLease(c, i)
  {
    var lease := c.leases[i];
    && (lease.released <==> c.lease != Some(i))
    && !lease.owner.Confused?
    && (lease.owner.AwaitingReceiver? ==> !lease.released && !live)
    && (Settled(lease) ==> lease.released || c.receiver.Stopped?)
    && (lease.released ==> lease.terminal && !lease.pending && lease.queue == [] && Settled(lease))
    && EndsOnce(lease.admitted, lease.terminal)
    && LogsOk(c, i)
  }

  // The current lease, if any, has neither a terminal frame nor a reservation.
  ghost predicate CurrentIsOpen(c: Conn) {
    c.lease.Some? ==>
      ValidLease(c, c.lease.value) && !c.leases[c.lease.value].terminal && !c.leases[c.lease.value].pending
  }

  ghost predicate ReceiverOk(c: Conn) {
    match c.receiver
    case Top => CurrentIsOpen(c)
    case Reading(held) => CurrentIsOpen(c) && (held.Some? ==> c.lease == held)
    case Blocked(i, _) => c.lease == Some(i) && ValidLease(c, i) && c.leases[i].pending
    case Unblocked(i) => c.lease == Some(i) && ValidLease(c, i) && c.leases[i].pending
    case Delivered(i) =>
      ValidLease(c, i) && !c.leases[i].pending && (c.lease != Some(i) ==> CurrentIsOpen(c))
    case AwaitingRelease(i) =>
      ValidLease(c, i) && c.leases[i].terminal && !c.leases[i].pending && (c.lease != Some(i) ==> CurrentIsOpen(c))
    case _ => true
  }

  predicate Started(c: Conn) {
    !c.receiver.Dialing? && !c.receiver.Abandoned?
  }

  ghost predicate ConnOk(c: Conn, live: bool) {
    && (!Started(c) ==> c.busy && c.lease.None? && c.leases == [])
    && (c.receiver.Abandoned? || c.receiver.Stopped? ==> !live)
    && (Started(c) ==> (c.busy <==> c.lease.Some?))
    && (c.lease.Some? ==> c.lease.value + 1 == |c.leases|)
    && ReceiverOk(c)
    && forall i: nat :: i < |c.leases| ==> LeaseOk(c, live, i)
  }

  // Dropping a connection from the pool disturbs nothing it guarantees.
  lemma DiscardKeeps(c: Conn)
    requires ConnOk(c, true)
    ensures ConnOk(c, false)
  {
    forall i: nat | i < |c.leases| ensures LeaseOk(c, false, i) {
      assert LeaseOk(c, true, i);
    }
  }

  lemma GrantKeeps(c: Conn, key: nat, now: nat)
    requires ConnOk(c, true) && !c.busy
    ensures ConnOk(Granted(c, key, now), true)
  {
    var next := Granted(c, key, now);
    forall i: nat | i < |next.leases| ensures LeaseOk(next, true, i) {
      assert i < |c.leases| ==> LeaseOk(c, true, i);
    }
  }

  // Only lease `i` changed; the others keep their guarantees.
  lemma OthersKeep(c: Conn, live: bool, next: Conn, live': bool, i: nat)
    requires ConnOk(c, live) && ValidLease(c, i) && |next.leases| == |c.leases|
    requires forall j :: 0 <= j < |c.leases| && j != i ==> next.leases[j] == c.leases[j]
    requires forall j: nat :: j != i ==>
      (c.lease == Some(j) <==> next.lease == Some(j)) && InFlight(c, j) == InFlight(next, j)
    requires (live' ==> live) && (c.receiver.Stopped? ==> next.receiver.Stopped?)
    requires LeaseOk(next, live', i)
    ensures forall j: nat :: j < |next.leases| ==> LeaseOk(next, live', j)
  {
    forall j: nat | j < |next.leases| ensures LeaseOk(next, live', j) {
      assert LeaseOk(c, live, j);
    }
  }

  ghost predicate StepKeeps(c: Conn, live: bool, closed: bool, now: nat, step: ConnStep)
    requires ConnEnabled(c, live, closed, step)
  {
    var slot := ConnApply(c, live, closed, now, step);
    ConnOk(slot.c, slot.live) && (slot.live ==> live)
  }

  lemma DialKeeps(c: Conn, live: bool, closed: bool, now: nat, step: ConnStep)
    requires ConnOk(c, live) && ConnEnabled(c, live, closed, step)
    requires step.DialFailed? || step.DialDone? || (step.DialAborted? && !live)
    ensures StepKeeps(c, live, closed, now, step)
  {
    if step.DialDone? {
      var next := ConnApply(c, live, closed, now, step).c;
      assert next.leases == [NewLease(c.receiver.key, now)];
      assert LeaseOk(next, live, 0);
    }
  }

  // The receiver moves on without touching a lease.
  lemma MoveKeeps(c: Conn, live: bool, closed: bool, now: nat, step: ConnStep)
    requires ConnOk(c, live) && ConnEnabled(c, live, closed, step)
    requires step.Load? || step.AbandonBlocked? || step.CheckTerminal? || step.WakeReleased? || step.WakeDone?
    ensures StepKeeps(c, live, closed, now, step)
  {
    var next := ConnApply(c, live, closed, now, step).c;
    forall i: nat | i < |next.leases| ensures LeaseOk(next, live, i) {
      MoveKeepsLease(c, live, closed, now, step, i);
    }
    MoveKeepsReceiver(c, live, closed, now, step);
  }

  lemma MoveKeepsLease(c: Conn, live: bool, closed: bool, now: nat, step: ConnStep, i: nat)
    requires ConnOk(c, live) && ConnEnabled(c, live, closed, step) && i < |c.leases|
    requires step.Load? || step.AbandonBlocked? || step.CheckTerminal? || step.WakeReleased? || step.WakeDone?
    ensures i < |ConnApply(c, live, closed, now, step).c.leases|
    ensures LeaseOk(ConnApply(c, live, closed, now, step).c, live, i)
  {
    var next := ConnApply(c, live, closed, now, step).c;
    assert LeaseOk(c, live, i);
    if step.AbandonBlocked? {
      AbandonedIsOk(c, live, i);
    } else {
      SameLeaseIsOk(c, live, next, i);
    }
  }

  lemma SameLeaseIsOk(c: Conn, live: bool, next: Conn, i: nat)
    requires i < |c.leases| && LeaseOk(c, live, i)
    requires next.leases == c.leases && next.lease == c.lease && InFlight(next, i) == InFlight(c, i)
    requires c.receiver.Stopped? ==> next.receiver.Stopped?
    ensures LeaseOk(next, live, i)
  {
  }

  lemma AbandonedIsOk(c: Conn, live: bool, i: nat)
    requires ConnOk(c, live) && c.receiver.Blocked? && i < |c.leases|
    ensures LeaseOk(c.(receiver := Stopped), live, i)
  {
    var lease := c.leases[i];
    assert LeaseOk(c, live, i);
    assert InFlight(c.(receiver := Stopped), i) == [];
    ShorterPrefix(lease.consumed + lease.queue, InFlight(c, i), lease.admitted);
  }

  lemma ShorterPrefix(known: seq<Message>, inFlight: seq<Message>, admitted: seq<Message>)
    requires known + inFlight <= admitted
    ensures known + [] <= admitted && (inFlight == [] ==> known + [] == known + inFlight)
  {
  }

  lemma MoveKeepsReceiver(c: Conn, live: bool, closed: bool, now: nat, step: ConnStep)
    requires ConnOk(c, live) && ConnEnabled(c, live, closed, step)
    requires step.Load? || step.AbandonBlocked? || step.CheckTerminal? || step.WakeReleased? || step.WakeDone?
    ensures ReceiverOk(ConnApply(c, live, closed, now, step).c)
  {
    if step.CheckTerminal? || step.WakeReleased? {
      assert LeaseOk(c, live, c.receiver.lease);
    }
  }

  // The blocked frame joins the queue of its lease.
  lemma DeliveredIsOk(c: Conn, live: bool, closed: bool, now: nat)
    requires ConnOk(c, live) && ConnEnabled(c, live, closed, DeliverBlocked)
    ensures LeaseOk(ConnApply(c, live, closed, now, DeliverBlocked).c, live, c.receiver.lease)
  {
    var i := c.receiver.lease;
    assert LeaseOk(c, live, i);
    var next := ConnApply(c, live, closed, now, DeliverBlocked).c;
    assert c.leases[i].consumed + c.leases[i].queue + InFlight(c, i)
        == next.leases[i].consumed + next.leases[i].queue + InFlight(next, i);
  }

  lemma DeliverElsewhere(c: Conn, live: bool, closed: bool, now: nat)
    requires ConnOk(c, live) && ConnEnabled(c, live, closed, DeliverBlocked)
    ensures var next := ConnApply(c, live, closed, now, DeliverBlocked).c;
      && |next.leases| == |c.leases| && ReceiverOk(next)
      && (forall j :: 0 <= j < |c.leases| && j != c.receiver.lease ==> next.leases[j] == c.leases[j])
      && (forall j: nat :: j != c.receiver.lease ==> InFlight(c, j) == InFlight(next, j))
  {
    assert LeaseOk(c, live, c.receiver.lease);
  }

  lemma DeliverKeeps(c: Conn, live: bool, closed: bool, now: nat)
    requires ConnOk(c, live) && ConnEnabled(c, live, closed, DeliverBlocked)
    ensures StepKeeps(c, live, closed, now, DeliverBlocked)
  {
    DeliveredIsOk(c, live, closed, now);
    DeliverElsewhere(c, live, closed, now);
    OthersKeep(c, live, ConnApply(c, live, closed, now, DeliverBlocked).c, live, c.receiver.lease);
  }

  lemma ClearKeeps(c: Conn, live: bool, closed: bool, now: nat)
    requires ConnOk(c, live) && ConnEnabled(c, live, closed, ClearPending)
    ensures StepKeeps(c, live, closed, now, ClearPending)
  {
    var i := c.receiver.lease;
    assert LeaseOk(c, live, i);
    var next := ConnApply(c, live, closed, now, ClearPending).c;
    assert LeaseOk(next, live, i);
    OthersKeep(c, live, next, live, i);
  }

  lemma VisibleAppend(messages: seq<Message>, m: Message)
    ensures Visible(messages + [m]) == Visible(messages) + if m.empty then [] else [m]
  {
    assert (messages + [m])[..|messages|] == messages;
  }

  // The receiver stops: the frame is at most observed.
  lemma ReadLost(c: Conn, live: bool, m: Message, textual: bool, failed: bool)
    requires ConnOk(c, live) && c.receiver.Reading? && c.lease.Some?
    requires AfterRead(c, live, c.receiver.held, m, textual, failed).c.receiver.Stopped?
    ensures var slot := AfterRead(c, live, c.receiver.held, m, textual, failed);
      |slot.c.leases| == |c.leases| && LogsOk(slot.c, c.lease.value)
  {
    assert LeaseOk(c, live, c.lease.value);
    assert InFlight(c, c.lease.value) == [];
  }

  lemma Extend(consumed: seq<Message>, queue: seq<Message>, admitted: seq<Message>, m: Message)
    requires consumed + queue + [] == admitted
    ensures consumed + queue + [m] == admitted + [m]
    ensures queue == [] ==> consumed + [m] + [] == admitted + [m]
  {
    assert consumed + queue == admitted;
  }

  // The frame is admitted: it is queued, or in flight behind the queue.
  lemma ReadAdmitted(c: Conn, live: bool, m: Message, textual: bool, failed: bool)
    requires ConnOk(c, live) && c.receiver.Reading? && c.lease.Some?
    requires !AfterRead(c, live, c.receiver.held, m, textual, failed).c.receiver.Stopped?
    ensures var slot := AfterRead(c, live, c.receiver.held, m, textual, failed);
      |slot.c.leases| == |c.leases| && LogsOk(slot.c, c.lease.value)
  {
    var lease := c.leases[c.lease.value];
    assert LeaseOk(c, live, c.lease.value);
    VisibleAppend(lease.admitted, m);
    Extend(lease.consumed, lease.queue, lease.admitted, m);
  }

  lemma ReadKeepsCurrent(c: Conn, live: bool, m: Message, textual: bool, failed: bool)
    requires ConnOk(c, live) && c.receiver.Reading? && c.lease.Some?
    ensures var slot := AfterRead(c, live, c.receiver.held, m, textual, failed);
      && |slot.c.leases| == |c.leases| && LeaseOk(slot.c, slot.live, c.lease.value) && ReceiverOk(slot.c)
      && slot.c.lease == c.lease && (slot.live ==> live)
  {
    assert LeaseOk(c, live, c.lease.value);
    EndsOnceAppend(c.leases[c.lease.value].admitted, m);
    if AfterRead(c, live, c.receiver.held, m, textual, failed).c.receiver.Stopped? {
      ReadLost(c, live, m, textual, failed);
    } else {
      ReadAdmitted(c, live, m, textual, failed);
    }
  }

  lemma ReadKeeps(c: Conn, live: bool, m: Message, textual: bool, failed: bool)
    requires ConnOk(c, live) && c.receiver.Reading?
    ensures var slot := AfterRead(c, live, c.receiver.held, m, textual, failed);
      ConnOk(slot.c, slot.live) && (slot.live ==> live)
  {
    var slot := AfterRead(c, live, c.receiver.held, m, textual, failed);
    if c.lease.None? {
      forall i: nat | i < |c.leases| ensures LeaseOk(slot.c, slot.live, i) {
        assert LeaseOk(c, live, i);
      }
    } else {
      ReadKeepsCurrent(c, live, m, textual, failed);
      OthersKeep(c, live, slot.c, slot.live, c.lease.value);
    }
  }

  lemma ConsumeKeeps(c: Conn, live: bool, closed: bool, now: nat, i: nat)
    requires ConnOk(c, live) && ConnEnabled(c, live, closed, Consume(i))
    ensures StepKeeps(c, live, closed, now, Consume(i))
  {
    assert LeaseOk(c, live, i);
    var next := ConnApply(c, live, closed, now, Consume(i)).c;
    assert c.leases[i].consumed + c.leases[i].queue == next.leases[i].consumed + next.leases[i].queue;
    assert LeaseOk(next, live, i);
    OthersKeep(c, live, next, live, i);
  }

  lemma HandleIsOk(c: Conn, live: bool, closed: bool, now: nat, i: nat)
    requires ConnOk(c, live) && ConnEnabled(c, live, closed, Handle(i))
    ensures var next := ConnApply(c, live, closed, now, Handle(i)).c;
      ValidLease(next, i) && LeaseOk(next, live, i) && ReceiverOk(next)
  {
    assert LeaseOk(c, live, i);
  }

  lemma OwnerIsOk(c: Conn, live: bool, closed: bool, now: nat, step: ConnStep, i: nat)
    requires ConnOk(c, live) && ConnEnabled(c, live, closed, step)
    requires step == ReceiverGone(i) || step == Finish(i)
    ensures var next := ConnApply(c, live, closed, now, step).c;
      ValidLease(next, i) && LeaseOk(next, live, i) && ReceiverOk(next)
  {
    assert LeaseOk(c, live, i);
  }

  lemma OwnerKeeps(c: Conn, live: bool, closed: bool, now: nat, step: ConnStep, i: nat)
    requires ConnOk(c, live) && ConnEnabled(c, live, closed, step)
    requires step == Handle(i) || step == ReceiverGone(i) || step == Finish(i)
    ensures StepKeeps(c, live, closed, now, step)
  {
    if step.Handle? {
      HandleIsOk(c, live, closed, now, i);
    } else {
      OwnerIsOk(c, live, closed, now, step, i);
    }
    OthersKeep(c, live, ConnApply(c, live, closed, now, step).c, live, i);
  }

  /** A successful reuse finds the receiver past delivery for that lease, with
      nothing queued, reserved or still to be observed under it. */
  lemma ReuseFindsReceiverDetached(c: Conn, live: bool, now: nat, i: nat, reuse: bool)
    requires ConnOk(c, live) && ValidLease(c, i) && Released(c, live, now, i, reuse).1
    ensures c.receiver == Delivered(i) || c.receiver == AwaitingRelease(i)
    ensures c.leases[i].consumed == c.leases[i].admitted && Visible(c.leases[i].admitted) == c.leases[i].observed
  {
    assert LeaseOk(c, live, i);
    assert c.leases[i].consumed + c.leases[i].queue + InFlight(c, i) == c.leases[i].consumed;
  }

  /** A connection goes back to the pool exactly when its owner asks for it, the
      connection is still in the pool and within its lifetime, and the lease is the
      current one, ended with a terminal frame and delivered to the last frame. */
  lemma ReturnsIff(c: Conn, live: bool, now: nat, i: nat, reuse: bool)
    requires ConnOk(c, live) && ValidLease(c, i)
    ensures var lease := c.leases[i];
      Released(c, live, now, i, reuse).1 <==>
        && reuse && live && now - c.born < LIFETIME_SECONDS && c.lease == Some(i)
        && lease.admitted != [] && lease.admitted[|lease.admitted| - 1].terminal
        && lease.consumed == lease.admitted && c.receiver != Unblocked(i)
  {
    assert LeaseOk(c, live, i);
    if Released(c, live, now, i, reuse).1 {
      ReuseFindsReceiverDetached(c, live, now, i, reuse);
    } else if c.leases[i].consumed == c.leases[i].admitted {
      NothingBehind(c.leases[i].consumed, c.leases[i].queue, InFlight(c, i));
    }
  }

  lemma NothingBehind(consumed: seq<Message>, queue: seq<Message>, inFlight: seq<Message>)
    requires consumed + queue + inFlight <= consumed
    ensures queue == [] && inFlight == []
  {
    assert |consumed + queue + inFlight| == |consumed| + |queue| + |inFlight|;
  }

  // The lease that its owner released.
  lemma ReleasedIsOk(c: Conn, live: bool, closed: bool, now: nat, i: nat, reuse: bool)
    requires ConnOk(c, live) && ConnEnabled(c, live, closed, Release(i, reuse))
    ensures var slot := ConnApply(c, live, closed, now, Release(i, reuse));
      i < |slot.c.leases| && LeaseOk(slot.c, slot.live, i)
  {
    assert LeaseOk(c, live, i);
    if Released(c, live, now, i, reuse).1 {
      ReuseFindsReceiverDetached(c, live, now, i, reuse);
    }
  }

  lemma ReleasedElsewhere(c: Conn, live: bool, closed: bool, now: nat, i: nat, reuse: bool)
    requires ConnOk(c, live) && ConnEnabled(c, live, closed, Release(i, reuse))
    ensures var slot := ConnApply(c, live, closed, now, Release(i, reuse));
      && |slot.c.leases| == |c.leases| && (slot.live ==> live) && slot.c.receiver == c.receiver
      && (forall j :: 0 <= j < |c.leases| && j != i ==> slot.c.leases[j] == c.leases[j])
      && (forall j: nat :: j != i ==> (c.lease == Some(j) <==> slot.c.lease == Some(j)))
  {
  }

  lemma ReleasedReceiver(c: Conn, live: bool, closed: bool, now: nat, i: nat, reuse: bool)
    requires ConnOk(c, live) && ConnEnabled(c, live, closed, Release(i, reuse))
    ensures ReceiverOk(ConnApply(c, live, closed, now, Release(i, reuse)).c)
  {
    if Released(c, live, now, i, reuse).1 {
      ReuseFindsReceiverDetached(c, live, now, i, reuse);
    }
  }

  lemma ReleaseKeeps(c: Conn, live: bool, closed: bool, now: nat, i: nat, reuse: bool)
    requires ConnOk(c, live) && ConnEnabled(c, live, closed, Release(i, reuse))
    ensures StepKeeps(c, live, closed, now, Release(i, reuse))
  {
    var slot := ConnApply(c, live, closed, now, Release(i, reuse));
    ReleasedElsewhere(c, live, closed, now, i, reuse);
    ReleasedReceiver(c, live, closed, now, i, reuse);
    ReleasedIsOk(c, live, closed, now, i, reuse);
    OthersKeep(c, live, slot.c, slot.live, i);
  }

  lemma ConnStepKeeps(c: Conn, live: bool, closed: bool, now: nat, step: ConnStep)
    requires ConnOk(c, live) && ConnEnabled(c, live, closed, step) && (closed ==> !live)
    ensures StepKeeps(c, live, closed, now, step)
  {
    match step
    case DialFailed | DialAborted | DialDone => DialKeeps(c, live, closed, now, step);
    case Load | AbandonBlocked | CheckTerminal | WakeReleased | WakeDone => MoveKeeps(c, live, closed, now, step);
    case Read(m, textual, failed) => ReadKeeps(c, live, m, textual, failed);
    case DeliverBlocked => DeliverKeeps(c, live, closed, now);
    case ClearPending => ClearKeeps(c, live, closed, now);
    case Handle(i) => OwnerKeeps(c, live, closed, now, step, i);
    case Consume(i) => ConsumeKeeps(c, live, closed, now, i);
    case ReceiverGone(i) => OwnerKeeps(c, live, closed, now, step, i);
    case Finish(i) => OwnerKeeps(c, live, closed, now, step, i);
    case Release(i, reuse) => ReleaseKeeps(c, live, closed, now, i, reuse);
    case Cancel(_) | IdleTimer =>
      if live {
        DiscardKeeps(c);
      }
  }

  /** A settled lease (its owner holds a successful release or has seen the
      receiver stop) is never touched again, except that its owner finishes. */
  lemma SettledIsFrozen(c: Conn, live: bool, closed: bool, now: nat, step: ConnStep, i: nat)
    requires ConnOk(c, live) && ConnEnabled(c, live, closed, step)
    requires ValidLease(c, i) && Settled(c.leases[i])
    ensures var next := ConnApply(c, live, closed, now, step).c;
      ValidLease(next, i) && Settled(next.leases[i]) && next.leases[i] == c.leases[i].(owner := next.leases[i].owner)
  {
    assert LeaseOk(c, live, i);
  }

  /** A late cancellation of a released lease cannot reach its successor. */
  lemma LateCancelIsHarmless(c: Conn, live: bool, closed: bool, now: nat, i: nat)
    requires ConnOk(c, live) && ConnEnabled(c, live, closed, Cancel(i)) && Settled(c.leases[i])
    ensures ConnApply(c, live, closed, now, Cancel(i)) == Slot(c, live)
  {
    assert LeaseOk(c, live, i);
  }

  lemma LogsStay(c: Conn, live: bool, closed: bool, now: nat, step: ConnStep, i: nat)
    requires ConnOk(c, live) && ConnEnabled(c, live, closed, step) && ValidLease(c, i) && !step.Read?
    ensures var next := ConnApply(c, live, closed, now, step).c;
      && ValidLease(next, i)
      && next.leases[i].admitted == c.leases[i].admitted && next.leases[i].observed == c.leases[i].observed
  {
  }

  lemma LogsRead(c: Conn, live: bool, m: Message, textual: bool, failed: bool, i: nat)
    requires ConnOk(c, live) && c.receiver.Reading? && ValidLease(c, i)
    ensures var next := AfterRead(c, live, c.receiver.held, m, textual, failed).c;
      && ValidLease(next, i)
      && (next.leases[i].admitted == c.leases[i].admitted
          || (c.lease == Some(i) && next.leases[i].admitted == c.leases[i].admitted + [m]))
      && (next.leases[i].observed == c.leases[i].observed
          || (c.lease == Some(i) && next.leases[i].observed == c.leases[i].observed + [m]))
  {
  }

  /** What costs a pooled connection its place: a failed dial, its idle timer, the
      cancellation or a release without reuse of its current lease, and a read that
      fails, is not text, or arrives while no lease is current. Nothing else does. */
  lemma LeavesIff(c: Conn, closed: bool, now: nat, step: ConnStep)
    requires ConnOk(c, true) && ConnEnabled(c, true, closed, step) && (step.DialAborted? ==> !closed)
    ensures !ConnApply(c, true, closed, now, step).live <==>
      match step
      case DialFailed | IdleTimer => true
      case Cancel(i) => c.lease == Some(i)
      case Release(i, reuse) => !Released(c, true, now, i, reuse).1
      case Read(_, textual, failed) => failed || !textual || c.lease.None?
      case _ => false
  {
    if step.Release? {
      assert LeaseOk(c, true, step.i);
    }
  }

  // Which frames a step adds to which history.
  lemma LogsGrow(c: Conn, live: bool, closed: bool, now: nat, step: ConnStep, i: nat)
    requires ConnOk(c, live) && ConnEnabled(c, live, closed, step) && ValidLease(c, i)
    ensures var next := ConnApply(c, live, closed, now, step).c;
      && ValidLease(next, i)
      && (next.leases[i].admitted == c.leases[i].admitted
          || (step.Read? && c.lease == Some(i) && next.leases[i].admitted == c.leases[i].admitted + [step.m]))
      && (next.leases[i].observed == c.leases[i].observed
          || (step.Read? && c.lease == Some(i) && next.leases[i].observed == c.leases[i].observed + [step.m]))
  {
    if step.Read? {
      LogsRead(c, live, step.m, step.textual, step.failed, i);
    } else {
      LogsStay(c, live, closed, now, step, i);
    }
  }

  // ---- Headers and age -----------------------------------------------------------

  // A lease was asked for with the headers of the handshake, and a second or later
  // one was granted within the lifetime of the connection.
  ghost predicate AskedAt(c: Conn, i: nat)
    requires ValidLease(c, i)
  {
    && c.leases[i].key == c.key && c.born <= c.leases[i].granted
    && (i > 0 ==> c.leases[i].granted - c.born < LIFETIME_SECONDS)
  }

  ghost predicate Asked(c: Conn, now: nat) {
    && c.born <= now && (c.receiver.Dialing? ==> c.receiver.key == c.key)
    && forall i: nat :: i < |c.leases| ==> AskedAt(c, i)
  }

  // A step of one connection grants at most the lease of the dial.
  lemma AskedGrows(c: Conn, live: bool, closed: bool, now: nat, step: ConnStep, i: nat)
    requires ConnOk(c, live) && ConnEnabled(c, live, closed, step) && ValidLease(c, i)
    ensures var next := ConnApply(c, live, closed, now, step).c;
      && ValidLease(next, i)
      && next.leases[i].key == c.leases[i].key && next.leases[i].granted == c.leases[i].granted
  {
  }

  lemma IdentityKeeps(c: Conn, live: bool, closed: bool, now: nat, step: ConnStep)
    requires ConnOk(c, live) && ConnEnabled(c, live, closed, step)
    ensures var next := ConnApply(c, live, closed, now, step).c;
      && next.key == c.key && next.born == c.born && (next.receiver.Dialing? ==> next.receiver == c.receiver)
      && (step.DialDone? ==> c.leases == [] && next.leases == [NewLease(c.receiver.key, now)])
      && (!step.DialDone? ==> |next.leases| == |c.leases|)
  {
  }

  lemma AskedKeeps(c: Conn, live: bool, closed: bool, now: nat, step: ConnStep)
    requires ConnOk(c, live) && ConnEnabled(c, live, closed, step) && Asked(c, now)
    ensures Asked(ConnApply(c, live, closed, now, step).c, now)
  {
    var next := ConnApply(c, live, closed, now, step).c;
    IdentityKeeps(c, live, closed, now, step);
    forall i: nat | i < |next.leases| ensures AskedAt(next, i) {
      if i < |c.leases| {
        assert AskedAt(c, i);
        AskedGrows(c, live, closed, now, step, i);
      }
    }
  }

  lemma AskedByGrant(c: Conn, now: nat)
    requires Asked(c, now) && now - c.born < LIFETIME_SECONDS
    ensures Asked(Granted(c, c.key, now), now)
  {
    var next := Granted(c, c.key, now);
    forall i: nat | i < |next.leases| ensures AskedAt(next, i) {
      if i < |c.leases| {
        assert AskedAt(c, i);
      }
    }
  }

  lemma AskedLater(c: Conn, now: nat, later: nat)
    requires Asked(c, now) && now <= later
    ensures Asked(c, later)
  {
  }

  // ---- Waiting for a discarded receiver ----------------------------------------

  function Rank(receiver: Receiver): nat {
    match receiver
    case Blocked(_, _) => 6
    case Unblocked(_) => 5
    case Delivered(_) => 4
    case AwaitingRelease(_) => 3
    case Top => 2
    case Reading(_) => 1
    case _ => 0
  }

  /** An owner that must wait for receiverDone never waits forever: the discarded
      receiver can always move, and every move brings it closer to stopping. */
  lemma DiscardedReceiverStops(c: Conn, closed: bool, now: nat, step: ConnStep)
    requires ConnOk(c, false) && ConnEnabled(c, false, closed, step) && Started(c)
    ensures var next := ConnApply(c, false, closed, now, step).c;
      Started(next) && if IsReceiverStep(step) then Rank(next.receiver) < Rank(c.receiver)
        else next.receiver == c.receiver
  {
  }

  lemma DiscardedReceiverCanMove(c: Conn, closed: bool)
    requires ConnOk(c, false) && Started(c) && !c.receiver.Stopped?
    ensures exists step :: IsReceiverStep(step) && ConnEnabled(c, false, closed, step)
  {
    var step := match c.receiver
      case Top => Load
      case Reading(_) => Read(Message(0, false, true), false, true)
      case Blocked(_, _) => AbandonBlocked
      case Unblocked(_) => ClearPending
      case Delivered(_) => CheckTerminal
      case _ => WakeDone;
    assert IsReceiverStep(step) && ConnEnabled(c, false, closed, step);
  }

  // ---- The pool ------------------------------------------------------------------

  datatype Pool = Pool(
    conns: map<nat, Conn>,
    live: set<nat>,                        // the entry set
    closed: bool,
    now: nat,
    nextMessage: nat,
    capturedBy: map<nat, (nat, nat)>)      // history: the connection and lease that captured each frame

  const EMPTY_POOL := Pool(map[], {}, false, 0, 0, map[])

  datatype Step =
    | Tick
    | Reuse(e: nat, key: nat, expired: set<nat>)
    | Reserve(e: nat, key: nat, victim: Option<nat>)
    | On(e: nat, local: ConnStep)
    | ClosePool

  predicate Expired(p: Pool, e: nat)
    requires e in p.conns
  {
    !p.conns[e].busy && p.now - p.conns[e].born >= LIFETIME_SECONDS
  }

  // The scan of acquire has met no match, so it has dropped every expired idle connection.
  function Unexpired(p: Pool): set<nat> {
    set e | e in p.live && e in p.conns && !Expired(p, e)
  }

  predicate OldestIdle(p: Pool, e: nat) {
    && e in Unexpired(p) && !p.conns[e].busy
    && forall other :: other in Unexpired(p) && !p.conns[other].busy ==> p.conns[e].born <= p.conns[other].born
  }

  predicate Enabled(p: Pool, step: Step) {
    match step
    case Tick => true
    case Reuse(e, key, expired) =>
      && !p.closed && e in p.live && e in p.conns && e !in expired
      && !p.conns[e].busy && !Expired(p, e) && p.conns[e].key == key
      && (forall other :: other in expired ==> other in p.live && other in p.conns && Expired(p, other))
    case Reserve(e, key, victim) =>
      && !p.closed && e !in p.conns
      && (forall other :: other in Unexpired(p) && !p.conns[other].busy ==> p.conns[other].key != key)
      && (if |Unexpired(p)| >= LIMIT then victim.Some? && OldestIdle(p, victim.value) else victim.None?)
    case On(e, local) =>
      && e in p.conns && ConnEnabled(p.conns[e], e in p.live, p.closed, local)
      && (local.Read? ==> local.m.id == p.nextMessage)
    case ClosePool => true
  }

  function Capture(p: Pool, e: nat, local: ConnStep): Pool
    requires e in p.conns
  {
    if !local.Read? then p else
    p.(nextMessage := p.nextMessage + 1,
       capturedBy := if p.conns[e].lease.None? then p.capturedBy
         else p.capturedBy[local.m.id := (e, p.conns[e].lease.value)])
  }

  function Apply(p: Pool, step: Step): Pool
    requires Enabled(p, step)
  {
    match step
    case Tick => p.(now := p.now + 1)
    case Reuse(e, key, expired) =>
      p.(live := p.live - expired, conns := p.conns[e := Granted(p.conns[e], key, p.now)])
    case Reserve(e, key, victim) =>
      var kept := Unexpired(p) - if victim.Some? then {victim.value} else {};
      p.(live := kept + {e}, conns := p.conns[e := Conn(key, p.now, true, None, Dialing(key), [])])
    case On(e, local) =>
      var slot := ConnApply(p.conns[e], e in p.live, p.closed, p.now, local);
      Capture(p, e, local).(conns := p.conns[e := slot.c], live := if slot.live then p.live else p.live - {e})
    case ClosePool => p.(closed := true, live := {})
  }

  ghost predicate Captured(p: Pool, e: nat, i: nat, messages: seq<Message>) {
    forall m :: m in messages ==> m.id < p.nextMessage && m.id in p.capturedBy && p.capturedBy[m.id] == (e, i)
  }

  ghost predicate LogsCaptured(p: Pool, e: nat)
    requires e in p.conns
  {
    forall i: nat :: i < |p.conns[e].leases| ==>
      Captured(p, e, i, p.conns[e].leases[i].admitted) && Captured(p, e, i, p.conns[e].leases[i].observed)
  }

  ghost predicate ConnInv(p: Pool, e: nat)
    requires e in p.conns
  {
    ConnOk(p.conns[e], e in p.live) && LogsCaptured(p, e) && Asked(p.conns[e], p.now)
  }

  ghost predicate Inv(p: Pool) {
    && p.live <= p.conns.Keys && |p.live| <= LIMIT
    && (p.closed ==> p.live == {})
    && (forall id :: id in p.capturedBy ==> id < p.nextMessage)
    && forall e :: e in p.conns ==> ConnInv(p, e)
  }

  // A connection the step does not name keeps its guarantees, live or dropped.
  lemma BystanderKeeps(p: Pool, next: Pool, e: nat)
    requires Inv(p) && e in p.conns && e in next.conns && next.conns[e] == p.conns[e]
    requires (e in next.live ==> e in p.live) && p.nextMessage <= next.nextMessage && p.now <= next.now
    requires forall id :: id in p.capturedBy ==> id in next.capturedBy && next.capturedBy[id] == p.capturedBy[id]
    ensures ConnInv(next, e)
  {
    assert ConnInv(p, e);
    AskedLater(p.conns[e], p.now, next.now);
    if e in p.live && e !in next.live {
      DiscardKeeps(p.conns[e]);
    }
  }

  lemma SubsetSize(small: set<nat>, large: set<nat>)
    requires small <= large
    ensures |small| <= |large|
  {
    assert large == small + (large - small);
  }

  lemma FullSubset(small: set<nat>, large: set<nat>)
    requires small <= large && |large| <= |small|
    ensures small == large
  {
    assert large == small + (large - small);
  }

  lemma ReuseKeeps(p: Pool, step: Step)
    requires Inv(p) && Enabled(p, step) && step.Reuse?
    ensures Inv(Apply(p, step))
  {
    var next := Apply(p, step);
    SubsetSize(next.live, p.live);
    forall e | e in next.conns ensures ConnInv(next, e) {
      assert ConnInv(p, e);
      if e == step.e {
        GrantKeeps(p.conns[e], step.key, p.now);
        AskedByGrant(p.conns[e], p.now);
      } else {
        BystanderKeeps(p, next, e);
      }
    }
  }

  // The reserved connection dials; it holds no lease yet.
  lemma ReservedIsOk(p: Pool, step: Step)
    requires Inv(p) && Enabled(p, step) && step.Reserve?
    ensures step.e in Apply(p, step).conns && ConnInv(Apply(p, step), step.e)
  {
  }

  lemma ReserveFits(p: Pool, step: Step)
    requires Inv(p) && Enabled(p, step) && step.Reserve?
    ensures var next := Apply(p, step); next.live <= next.conns.Keys && |next.live| <= LIMIT
  {
    SubsetSize(Unexpired(p), p.live);
  }

  lemma ReserveKeeps(p: Pool, step: Step)
    requires Inv(p) && Enabled(p, step) && step.Reserve?
    ensures Inv(Apply(p, step))
  {
    var next := Apply(p, step);
    ReserveFits(p, step);
    forall e | e in next.conns ensures ConnInv(next, e) {
      if e == step.e {
        ReservedIsOk(p, step);
      } else {
        BystanderKeeps(p, next, e);
      }
    }
  }

  lemma CapturedGrows(p: Pool, e: nat, local: ConnStep, i: nat, log: seq<Message>, grown: seq<Message>)
    requires Inv(p) && Enabled(p, On(e, local)) && Captured(p, e, i, log)
    requires grown == log || (local.Read? && p.conns[e].lease == Some(i) && grown == log + [local.m])
    ensures Captured(Apply(p, On(e, local)), e, i, grown)
  {
  }

  lemma CaptureKeeps(p: Pool, e: nat, local: ConnStep)
    requires Inv(p) && Enabled(p, On(e, local))
    ensures LogsCaptured(Apply(p, On(e, local)), e)
  {
    var next := Apply(p, On(e, local));
    assert ConnInv(p, e);
    forall i: nat | i < |next.conns[e].leases|
      ensures Captured(next, e, i, next.conns[e].leases[i].admitted)
      ensures Captured(next, e, i, next.conns[e].leases[i].observed)
    {
      if i < |p.conns[e].leases| {
        LogsGrow(p.conns[e], e in p.live, p.closed, p.now, local, i);
        CapturedGrows(p, e, local, i, p.conns[e].leases[i].admitted, next.conns[e].leases[i].admitted);
        CapturedGrows(p, e, local, i, p.conns[e].leases[i].observed, next.conns[e].leases[i].observed);
      } else {
        assert next.conns[e].leases[i] == NewLease(p.conns[e].receiver.key, p.now);
      }
    }
  }

  lemma OnKeeps(p: Pool, e: nat, local: ConnStep)
    requires Inv(p) && Enabled(p, On(e, local))
    ensures Inv(Apply(p, On(e, local)))
  {
    var next := Apply(p, On(e, local));
    SubsetSize(next.live, p.live);
    assert ConnInv(p, e);
    ConnStepKeeps(p.conns[e], e in p.live, p.closed, p.now, local);
    CaptureKeeps(p, e, local);
    AskedKeeps(p.conns[e], e in p.live, p.closed, p.now, local);
    forall other | other in next.conns && other != e ensures ConnInv(next, other) {
      BystanderKeeps(p, next, other);
    }
  }

  lemma InvKeeps(p: Pool, step: Step)
    requires Inv(p) && Enabled(p, step)
    ensures Inv(Apply(p, step))
  {
    match step
    case Reuse(_, _, _) => ReuseKeeps(p, step);
    case Reserve(_, _, _) => ReserveKeeps(p, step);
    case On(e, local) => OnKeeps(p, e, local);
    case Tick | ClosePool =>
      forall e | e in p.conns ensures ConnInv(Apply(p, step), e) {
        BystanderKeeps(p, Apply(p, step), e);
      }
  }

  // ---- Whole runs -------------------------------------------------------------------

  ghost predicate Run(trace: seq<Pool>, steps: seq<Step>) {
    && |trace| == |steps| + 1 && trace[0] == EMPTY_POOL
    && forall i: nat :: i < |steps| ==> Follows(trace, steps, i)
  }

  ghost predicate Follows(trace: seq<Pool>, steps: seq<Step>, i: nat)
    requires i < |steps| && |trace| == |steps| + 1
  {
    Enabled(trace[i], steps[i]) && trace[i + 1] == Apply(trace[i], steps[i])
  }

  lemma {:induction false} RunInv(trace: seq<Pool>, steps: seq<Step>, i: nat)
    requires Run(trace, steps) && i < |trace|
    ensures Inv(trace[i])
  {
    if i > 0 {
      RunInv(trace, steps, i - 1);
      assert Follows(trace, steps, i - 1);
      InvKeeps(trace[i - 1], steps[i - 1]);
    }
  }

  /** In every run the pool stays within its limit, no connection has two
      unreleased leases, and no owner reads another lease than its own. */
  lemma PoolIsBoundedAndExclusive(trace: seq<Pool>, steps: seq<Step>, i: nat, e: nat, l: nat, l': nat)
    requires Run(trace, steps) && i < |trace|
    requires e in trace[i].conns && ValidLease(trace[i].conns[e], l) && ValidLease(trace[i].conns[e], l')
    requires !trace[i].conns[e].leases[l].released && !trace[i].conns[e].leases[l'].released
    ensures |trace[i].live| <= LIMIT && l == l'
    ensures trace[i].conns[e].lease == Some(l) && !trace[i].conns[e].leases[l].owner.Confused?
  {
    RunInv(trace, steps, i);
    var p := trace[i];
    assert ConnInv(p, e);
    assert LeaseOk(p.conns[e], e in p.live, l) && LeaseOk(p.conns[e], e in p.live, l');
  }

  /** In every run a frame belongs to the histories of at most one lease of one
      connection: what one lease captured is never queued to or observed by another. */
  lemma FramesStayWithTheirLease(trace: seq<Pool>, steps: seq<Step>, i: nat, e: nat, l: nat, e': nat, l': nat,
                                 m: Message, m': Message)
    requires Run(trace, steps) && i < |trace|
    requires e in trace[i].conns && ValidLease(trace[i].conns[e], l)
    requires e' in trace[i].conns && ValidLease(trace[i].conns[e'], l')
    requires m in trace[i].conns[e].leases[l].admitted || m in trace[i].conns[e].leases[l].observed
    requires m' in trace[i].conns[e'].leases[l'].admitted || m' in trace[i].conns[e'].leases[l'].observed
    requires m.id == m'.id
    ensures e == e' && l == l'
  {
    RunInv(trace, steps, i);
    assert ConnInv(trace[i], e) && ConnInv(trace[i], e');
  }

  /** In every run the owner has received a prefix of the frames admitted under
      its lease, in order and each once; after a successful release it has received
      all of them, and the observation saw exactly the nonempty ones. */
  lemma DeliveryIsInOrder(trace: seq<Pool>, steps: seq<Step>, i: nat, e: nat, l: nat)
    requires Run(trace, steps) && i < |trace|
    requires e in trace[i].conns && ValidLease(trace[i].conns[e], l)
    ensures var lease := trace[i].conns[e].leases[l];
      && lease.consumed <= lease.admitted && Visible(lease.admitted) <= lease.observed
      && (lease.released ==> lease.consumed == lease.admitted && Visible(lease.admitted) == lease.observed)
  {
    RunInv(trace, steps, i);
    var p := trace[i];
    assert ConnInv(p, e);
    assert LeaseOk(p.conns[e], e in p.live, l);
    var lease := p.conns[e].leases[l];
    if lease.released {
      assert lease.consumed + lease.queue + InFlight(p.conns[e], l) == lease.consumed by {
        assert ReceiverOk(p.conns[e]);
      }
    }
  }

  /** In every run the frames of a lease end with its first terminal frame: nothing
      is admitted behind one. */
  lemma TerminalFrameIsLast(trace: seq<Pool>, steps: seq<Step>, i: nat, e: nat, l: nat, k: nat)
    requires Run(trace, steps) && i < |trace|
    requires e in trace[i].conns && ValidLease(trace[i].conns[e], l)
    requires k < |trace[i].conns[e].leases[l].admitted| && trace[i].conns[e].leases[l].admitted[k].terminal
    ensures k + 1 == |trace[i].conns[e].leases[l].admitted|
  {
    RunInv(trace, steps, i);
    assert ConnInv(trace[i], e);
    assert LeaseOk(trace[i].conns[e], e in trace[i].live, l);
  }

  lemma FrozenStep(p: Pool, step: Step, e: nat, l: nat)
    requires Inv(p) && Enabled(p, step)
    requires e in p.conns && ValidLease(p.conns[e], l) && Settled(p.conns[e].leases[l])
    ensures e in Apply(p, step).conns && ValidLease(Apply(p, step).conns[e], l)
    ensures var next := Apply(p, step).conns[e].leases[l];
      Settled(next) && next == p.conns[e].leases[l].(owner := next.owner)
  {
    assert ConnInv(p, e);
    if step.On? && step.e == e {
      SettledIsFrozen(p.conns[e], e in p.live, p.closed, p.now, step.local, l);
    }
  }

  /** No frame is observed, queued or consumed under a lease once its owner is
      free to finish: `observation.Message` never follows `Finish`, however late
      the receiver, a cancellation or a timer runs. */
  lemma {:induction false} NothingFollowsFinish(trace: seq<Pool>, steps: seq<Step>, i: nat, j: nat, e: nat, l: nat)
    requires Run(trace, steps) && i <= j < |trace|
    requires e in trace[i].conns && ValidLease(trace[i].conns[e], l) && Settled(trace[i].conns[e].leases[l])
    ensures e in trace[j].conns && ValidLease(trace[j].conns[e], l) && Settled(trace[j].conns[e].leases[l])
    ensures trace[j].conns[e].leases[l] == trace[i].conns[e].leases[l].(owner := trace[j].conns[e].leases[l].owner)
    decreases j
  {
    if i < j {
      NothingFollowsFinish(trace, steps, i, j - 1, e, l);
      RunInv(trace, steps, j - 1);
      assert Follows(trace, steps, j - 1);
      FrozenStep(trace[j - 1], steps[j - 1], e, l);
    }
  }

  // ---- Acquire ------------------------------------------------------------------------

  lemma ConnKeepsIdentity(p: Pool, step: Step, e: nat)
    requires Inv(p) && Enabled(p, step) && e in p.conns
    ensures e in Apply(p, step).conns
    ensures Apply(p, step).conns[e].key == p.conns[e].key && Apply(p, step).conns[e].born == p.conns[e].born
  {
    assert ConnInv(p, e);
    if step.On? && step.e == e {
      IdentityKeeps(p.conns[e], e in p.live, p.closed, p.now, step.local);
    }
  }

  /** A connection was opened by one acquire, at the time it is measured from and
      with the headers it is filed under. */
  lemma {:induction false} ConnIsDialed(trace: seq<Pool>, steps: seq<Step>, i: nat, e: nat) returns (j: nat)
    requires Run(trace, steps) && i < |trace| && e in trace[i].conns
    ensures j < i && steps[j].Reserve? && steps[j].e == e && e !in trace[j].conns
    ensures steps[j].key == trace[i].conns[e].key && trace[j].now == trace[i].conns[e].born
  {
    RunInv(trace, steps, i - 1);
    assert Follows(trace, steps, i - 1);
    if e in trace[i - 1].conns {
      j := ConnIsDialed(trace, steps, i - 1, e);
      ConnKeepsIdentity(trace[i - 1], steps[i - 1], e);
    } else {
      j := i - 1;
    }
  }

  // A step keeps a lease, or creates it: the dial the first one, a reuse a later one.
  lemma LeaseAppears(p: Pool, step: Step, e: nat, l: nat)
    requires Inv(p) && Enabled(p, step)
    requires e in Apply(p, step).conns && ValidLease(Apply(p, step).conns[e], l)
    ensures var lease := Apply(p, step).conns[e].leases[l];
      || (e in p.conns && ValidLease(p.conns[e], l) && lease.key == p.conns[e].leases[l].key
          && lease.granted == p.conns[e].leases[l].granted)
      || (l == 0 && step.On? && step.e == e)
      || (step.Reuse? && step.e == e && step.key == lease.key && p.now == lease.granted
          && !p.conns[e].busy && e in p.live && |p.conns[e].leases| == l)
  {
    if e in p.conns {
      assert ConnInv(p, e);
      if step.On? && step.e == e {
        IdentityKeeps(p.conns[e], e in p.live, p.closed, p.now, step.local);
        if ValidLease(p.conns[e], l) {
          AskedGrows(p.conns[e], e in p.live, p.closed, p.now, step.local, l);
        }
      }
    }
  }

  lemma {:induction false} LaterLeaseIsReuse(trace: seq<Pool>, steps: seq<Step>, i: nat, e: nat, l: nat)
    returns (j: nat)
    requires Run(trace, steps) && i < |trace|
    requires e in trace[i].conns && ValidLease(trace[i].conns[e], l) && l > 0
    ensures j < i && steps[j].Reuse? && steps[j].e == e && e in trace[j].conns && e in trace[j].live
    ensures steps[j].key == trace[i].conns[e].leases[l].key && trace[j].now == trace[i].conns[e].leases[l].granted
    ensures !trace[j].conns[e].busy && |trace[j].conns[e].leases| == l
  {
    RunInv(trace, steps, i - 1);
    assert Follows(trace, steps, i - 1);
    LeaseAppears(trace[i - 1], steps[i - 1], e, l);
    if e in trace[i - 1].conns && ValidLease(trace[i - 1].conns[e], l) {
      j := LaterLeaseIsReuse(trace, steps, i - 1, e, l);
    } else {
      j := i - 1;
    }
  }

  /** In every run a request only uses a connection that was opened with its own
      handshake headers: the acquire that opened it (`dialed`) and the acquire that
      asked for the lease (`asked`, the same one for the first lease) had the same
      key. A reused connection was idle and within its lifetime. */
  lemma RequestUsesItsOwnHeaders(trace: seq<Pool>, steps: seq<Step>, i: nat, e: nat, l: nat)
    returns (dialed: nat, asked: nat)
    requires Run(trace, steps) && i < |trace| && e in trace[i].conns && ValidLease(trace[i].conns[e], l)
    ensures dialed < i && steps[dialed].Reserve? && steps[dialed].e == e
    ensures asked < i && (l == 0 ==> asked == dialed) && (l > 0 ==> steps[asked].Reuse? && steps[asked].e == e)
    ensures steps[asked].key == steps[dialed].key == trace[i].conns[e].leases[l].key
    ensures l > 0 ==>
      && e in trace[asked].conns && e in trace[asked].live && !trace[asked].conns[e].busy
      && trace[asked].now - trace[dialed].now < LIFETIME_SECONDS
  {
    dialed := ConnIsDialed(trace, steps, i, e);
    asked := dialed;
    if l > 0 {
      asked := LaterLeaseIsReuse(trace, steps, i, e, l);
    }
    RunInv(trace, steps, i);
    assert ConnInv(trace[i], e) && AskedAt(trace[i].conns[e], l);
  }

  // An idle connection with these headers, within its lifetime.
  predicate Suits(p: Pool, e: nat, key: nat)
    requires e in p.conns
  {
    !p.conns[e].busy && p.conns[e].key == key && p.now - p.conns[e].born < LIFETIME_SECONDS
  }

  lemma OldestExists(p: Pool, idle: set<nat>) returns (oldest: nat)
    requires idle <= p.conns.Keys && idle != {}
    ensures oldest in idle && forall e :: e in idle ==> p.conns[oldest].born <= p.conns[e].born
    decreases |idle|
  {
    var e :| e in idle;
    oldest := e;
    if idle != {e} {
      var rest := OldestExists(p, idle - {e});
      oldest := if p.conns[rest].born < p.conns[e].born then rest else e;
    }
  }

  /** Which acquires can go on, in terms of the entries alone: any idle connection
      with the asked headers within its lifetime can be reused, and only such a one. */
  lemma ReusesIffSuits(p: Pool, e: nat, key: nat)
    requires Inv(p)
    ensures (exists expired :: Enabled(p, Reuse(e, key, expired)))
      <==> !p.closed && e in p.live && Suits(p, e, key)
  {
    if !p.closed && e in p.live && Suits(p, e, key) {
      assert Enabled(p, Reuse(e, key, {}));
    }
  }

  ghost predicate NoneSuits(p: Pool, key: nat) {
    forall e :: e in p.live && e in p.conns ==> !Suits(p, e, key)
  }

  // The connections that are idle.
  function Idle(p: Pool): set<nat> {
    set e | e in p.live && e in p.conns && !p.conns[e].busy
  }

  lemma FullOrNot(p: Pool)
    requires Inv(p)
    ensures |Unexpired(p)| >= LIMIT ==> |p.live| == LIMIT && Unexpired(p) == p.live
    ensures |Unexpired(p)| < LIMIT ==> |p.live| == LIMIT ==> Idle(p) != {}
  {
    SubsetSize(Unexpired(p), p.live);
    if |Unexpired(p)| >= LIMIT {
      FullSubset(Unexpired(p), p.live);
    } else if |p.live| == LIMIT && p.live <= Unexpired(p) {
      SubsetSize(p.live, Unexpired(p));
    } else if |p.live| == LIMIT {
      var e :| e in p.live && e !in Unexpired(p);
      assert e in Idle(p);
    }
  }

  lemma OpenedImplies(p: Pool, e: nat, key: nat, victim: Option<nat>)
    requires Inv(p) && Enabled(p, Reserve(e, key, victim))
    ensures NoneSuits(p, key) && (|p.live| == LIMIT ==> Idle(p) != {})
  {
    FullOrNot(p);
    if |Unexpired(p)| >= LIMIT {
      assert victim.value in Idle(p);
    }
  }

  lemma CanOpen(p: Pool, e: nat, key: nat) returns (victim: Option<nat>)
    requires Inv(p) && !p.closed && e !in p.conns && NoneSuits(p, key)
    requires |p.live| == LIMIT ==> Idle(p) != {}
    ensures Enabled(p, Reserve(e, key, victim))
  {
    FullOrNot(p);
    victim := None;
    if |Unexpired(p)| >= LIMIT {
      var oldest := OldestExists(p, Idle(p));
      victim := Some(oldest);
    }
  }

  /** A connection can be opened exactly when none can be reused and the pool is not
      full of busy connections. */
  lemma OpensIffNoneSuits(p: Pool, e: nat, key: nat)
    requires Inv(p) && !p.closed && e !in p.conns
    ensures (exists victim :: Enabled(p, Reserve(e, key, victim)))
      <==> NoneSuits(p, key) && (|p.live| == LIMIT ==> Idle(p) != {})
  {
    if victim :| Enabled(p, Reserve(e, key, victim)) {
      OpenedImplies(p, e, key, victim);
    }
    if NoneSuits(p, key) && (|p.live| == LIMIT ==> Idle(p) != {}) {
      var victim := CanOpen(p, e, key);
    }
  }

  /** An acquire drops only idle connections: those past their lifetime, and, with
      the pool full, the one of the others that is idle and oldest. What it hands
      out stays in the pool, and no other connection changes. */
  lemma AcquireDropsOnlyIdle(p: Pool, step: Step, e: nat)
    requires Inv(p) && Enabled(p, step) && (step.Reuse? || step.Reserve?)
    ensures step.e in Apply(p, step).live
    ensures e in p.conns && e != step.e ==> e in Apply(p, step).conns && Apply(p, step).conns[e] == p.conns[e]
    ensures e in p.live && e !in Apply(p, step).live ==>
      && !p.conns[e].busy
      && (p.now - p.conns[e].born >= LIFETIME_SECONDS
          || (step.Reserve? && |p.live| == LIMIT && (forall other :: other in p.live && !p.conns[other].busy ==>
                p.conns[e].born <= p.conns[other].born)))
  {
    SubsetSize(Unexpired(p), p.live);
    if |Unexpired(p)| >= LIMIT {
      FullSubset(Unexpired(p), p.live);
    }
  }

  datatype Acquired = Refused | Waits | Proceeds(step: Step)

  // The idle connection to evict (lines 135-140).
  method OldestOf(p: Pool, kept: set<nat>) returns (idle: Option<nat>)
    requires kept <= p.conns.Keys
    ensures idle.None? <==> forall e :: e in kept ==> p.conns[e].busy
    ensures idle.Some? ==> idle.value in kept && !p.conns[idle.value].busy
    ensures idle.Some? ==> forall e :: e in kept && !p.conns[e].busy ==> p.conns[idle.value].born <= p.conns[e].born
  {
    idle := None;
    var todo := kept;
    while todo != {}
      invariant todo <= kept
      invariant idle.None? <==> forall e :: e in kept - todo ==> p.conns[e].busy
      invariant idle.Some? ==> idle.value in kept && !p.conns[idle.value].busy
      invariant idle.Some? ==>
        forall e :: e in kept - todo && !p.conns[e].busy ==> p.conns[idle.value].born <= p.conns[e].born
      decreases |todo|
    {
      var e :| e in todo;
      todo := todo - {e};
      if !p.conns[e].busy && (idle.None? || p.conns[e].born < p.conns[idle.value].born) {
        idle := Some(e);
      }
    }
  }

  /** One pass of acquire over the entries, in any order (lines 114-160). It is
      refused exactly when the pool is closed and waits exactly when the pool is
      full of busy connections; a connection is opened only when no idle one with
      these headers is within its lifetime, and else such a one is reused. */
  method Acquire(p: Pool, key: nat, newcomer: nat) returns (result: Acquired)
    requires p.live <= p.conns.Keys && |p.live| <= LIMIT && newcomer !in p.conns
    ensures result.Refused? <==> p.closed
    ensures result.Waits? <==> !p.closed && |p.live| == LIMIT && forall e :: e in p.live ==> p.conns[e].busy
    ensures result.Proceeds? ==>
      && Enabled(p, result.step) && (result.step.Reuse? || result.step.Reserve?)
      && result.step.key == key && (result.step.Reserve? ==> result.step.e == newcomer)
    ensures result.Proceeds? ==> (result.step.Reuse? <==> exists e :: e in p.live && Suits(p, e, key))
    ensures result.Proceeds? && result.step.Reuse? ==> result.step.e in p.live && Suits(p, result.step.e, key)
  {
    if p.closed {
      return Refused;
    }
    var todo: set<nat>, expired: set<nat> := p.live, {};
    while todo != {}
      invariant todo <= p.live && expired <= p.live - todo
      invariant forall e :: e in p.live - todo ==> (e in expired <==> Expired(p, e))
      invariant forall e :: e in p.live - todo && e !in expired && !p.conns[e].busy ==> p.conns[e].key != key
      decreases |todo|
    {
      var e :| e in todo;
      todo := todo - {e};
      if Expired(p, e) {
        expired := expired + {e};
      } else if !p.conns[e].busy && p.conns[e].key == key {
        return Proceeds(Reuse(e, key, expired));
      }
    }
    var kept := p.live - expired;
    assert kept == Unexpired(p);
    SubsetSize(kept, p.live);
    if |kept| < LIMIT {
      assert |p.live| == LIMIT ==> expired != {};
      return Proceeds(Reserve(newcomer, key, None));
    }
    assert expired == {} by {
      FullSubset(kept, p.live);
    }
    var victim := OldestOf(p, kept);
    result := if victim.None? then Waits else Proceeds(Reserve(newcomer, key, victim));
  }

  function ReceiverSteps(steps: seq<Step>, e: nat, i: nat, j: nat): nat
    requires i <= j <= |steps|
  {
    if i == j then 0 else
    ReceiverSteps(steps, e, i, j - 1) + ReceiverStep(steps[j - 1], e)
  }

  function ReceiverStep(step: Step, e: nat): nat {
    if step.On? && step.e == e && IsReceiverStep(step.local) then 1 else 0
  }

  ghost predicate Discarded(p: Pool, e: nat) {
    e in p.conns && e !in p.live && Started(p.conns[e])
  }

  lemma DiscardedStep(p: Pool, step: Step, e: nat)
    requires Inv(p) && Enabled(p, step) && Discarded(p, e)
    ensures Discarded(Apply(p, step), e)
    ensures ReceiverStep(step, e) + Rank(Apply(p, step).conns[e].receiver) <= Rank(p.conns[e].receiver)
  {
    assert ConnInv(p, e);
    if step.On? && step.e == e {
      DiscardedReceiverStops(p.conns[e], p.closed, p.now, step.local);
      ConnStepKeeps(p.conns[e], false, p.closed, p.now, step.local);
    }
  }

  lemma DiscardedRunStep(trace: seq<Pool>, steps: seq<Step>, j: nat, e: nat)
    requires Run(trace, steps) && j < |steps| && Discarded(trace[j], e)
    ensures Discarded(trace[j + 1], e)
    ensures ReceiverStep(steps[j], e) + Rank(trace[j + 1].conns[e].receiver) <= Rank(trace[j].conns[e].receiver)
  {
    RunInv(trace, steps, j);
    assert Follows(trace, steps, j);
    DiscardedStep(trace[j], steps[j], e);
  }

  /** Once a connection is discarded its receiver takes at most six more steps,
      whatever else runs in between, so an owner's wait for it is bounded. */
  lemma {:induction false} OwnerWaitIsBounded(trace: seq<Pool>, steps: seq<Step>, i: nat, j: nat, e: nat)
    requires Run(trace, steps) && i <= j < |trace| && Discarded(trace[i], e)
    ensures Discarded(trace[j], e)
    ensures ReceiverSteps(steps, e, i, j) + Rank(trace[j].conns[e].receiver) <= Rank(trace[i].conns[e].receiver) <= 6
    decreases j
  {
    if i < j {
      OwnerWaitIsBounded(trace, steps, i, j - 1, e);
      DiscardedRunStep(trace, steps, j - 1, e);
    }
  }

  /** An owner that waits for its receiver waits for a discarded one, which has
      stopped or can take a step. */
  lemma WaitingOwnerIsServed(trace: seq<Pool>, steps: seq<Step>, i: nat, e: nat, l: nat)
    requires Run(trace, steps) && i < |trace|
    requires e in trace[i].conns && ValidLease(trace[i].conns[e], l)
    requires trace[i].conns[e].leases[l].owner.AwaitingReceiver?
    ensures Discarded(trace[i], e)
    ensures trace[i].conns[e].receiver.Stopped? ||
      exists step :: IsReceiverStep(step) && ConnEnabled(trace[i].conns[e], false, trace[i].closed, step)
  {
    RunInv(trace, steps, i);
    assert ConnInv(trace[i], e);
    assert LeaseOk(trace[i].conns[e], e in trace[i].live, l);
    if !trace[i].conns[e].receiver.Stopped? {
      DiscardedReceiverCanMove(trace[i].conns[e], trace[i].closed);
    }
  }
}
