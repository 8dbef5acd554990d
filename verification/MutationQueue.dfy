/** The mutation queue of the coding tools (contrib/codingtools/mutation_queue.go): calls that
    change one file are chained by channels, each waiting for the one before it.

    Every point where goroutines can interleave is a step. A ticket is one call of
    withMutationQueue: it owns a channel, closed when the ticket is released, and waits for the
    channel of the ticket that was the key's tail when it arrived. Releasing has two parts, the
    close and, under the lock, the removal of the map entry.
 */
module MutationQueue {

  type Key = string

  datatype Phase =
    | Waiting    // blocked on the previous channel or on cancellation
    | Orphaned   // cancelled while waiting; a goroutine still waits for the previous channel
    | Entered    // the previous channel is closed; the context is checked once more
    | Running    // the body runs
    | Closing    // about to close its channel
    | Unlinking  // channel closed; about to look at the map
    | Gone

  /** `closes` counts the close operations on the ticket's channel; `cancelled` means that the call
      returned its context's error. */
  datatype Ticket = Ticket(key: Key, prev: int, phase: Phase, closes: nat, cancelled: bool)

  const NO_PREVIOUS := -1

  /** `ran` lists the tickets whose bodies were started, in that order. */
  datatype State = State(tails: map<Key, nat>, tickets: seq<Ticket>, ran: seq<nat>)

  const EMPTY := State(map[], [], [])

  datatype Step =
    | Arrive(key: Key)
    | Wake(id: nat)        // the previous channel is closed
    | Abandon(id: nat)     // cancelled before that
    | Inherit(id: nat)     // the goroutine of an abandoned ticket sees the previous channel closed
    | Cancel(id: nat)      // cancelled after waiting
    | Begin(id: nat)
    | Finish(id: nat)
    | CloseChannel(id: nat)
    | Unlink(id: nat)

  predicate Closed(s: State, id: nat) {
    id < |s.tickets| && s.tickets[id].closes > 0
  }

  /** The phase a step needs. */
  predicate Enabled(s: State, step: Step) {
    step.Arrive? || (
      step.id < |s.tickets| &&
      var t := s.tickets[step.id];
      match step
      case Wake(_) => t.phase == Waiting && t.prev >= 0 && Closed(s, t.prev)
      case Abandon(_) => t.phase == Waiting
      case Inherit(_) => t.phase == Orphaned && t.prev >= 0 && Closed(s, t.prev)
      case Cancel(_) => t.phase == Entered
      case Begin(_) => t.phase == Entered
      case Finish(_) => t.phase == Running
      case CloseChannel(_) => t.phase == Closing
      case Unlink(_) => t.phase == Unlinking
      case Arrive(_) => true)
  }

  function Shift(s: State, id: nat, phase: Phase): State
    requires id < |s.tickets|
  {
    s.(tickets := s.tickets[id := s.tickets[id].(phase := phase)])
  }

  function Refuse(s: State, id: nat, phase: Phase): State
    requires id < |s.tickets|
  {
    s.(tickets := s.tickets[id := s.tickets[id].(phase := phase, cancelled := true)])
  }

  function Take(s: State, step: Step): State
    requires Enabled(s, step)
  {
    match step
    case Arrive(key) =>
      var t := if key in s.tails then Ticket(key, s.tails[key], Waiting, 0, false)
          else Ticket(key, NO_PREVIOUS, Entered, 0, false);
      s.(tails := s.tails[key := |s.tickets|], tickets := s.tickets + [t])
    case Wake(id) => Shift(s, id, Entered)
    case Abandon(id) => Refuse(s, id, Orphaned)
    case Inherit(id) => Shift(s, id, Closing)
    case Cancel(id) => Refuse(s, id, Closing)
    case Begin(id) => Shift(s, id, Running).(ran := s.ran + [id])
    case Finish(id) => Shift(s, id, Closing)
    case CloseChannel(id) =>
      var t := s.tickets[id];
      s.(tickets := s.tickets[id := t.(phase := Unlinking, closes := t.closes + 1)])
    case Unlink(id) =>
      var key := s.tickets[id].key;
      Shift(s, id, Gone).(tails := if key in s.tails && s.tails[key] == id then s.tails - {key} else s.tails)
  }

  // ----- what every step keeps -----

  predicate SameKey(s: State, i: nat, j: nat)
    requires i < |s.tickets| && j < |s.tickets|
  {
    s.tickets[i].key == s.tickets[j].key
  }

  predicate Released(p: Phase) { p == Unlinking || p == Gone }

  /** A channel is closed once, exactly when its ticket is released. */
  ghost predicate ClosedOnce(s: State) {
    forall i | 0 <= i < |s.tickets| :: s.tickets[i].closes == if Released(s.tickets[i].phase) then 1 else 0
  }

  /** A map entry is the newest ticket of its key and not gone; without an entry all are released. */
  ghost predicate TailsAreNewest(s: State) {
    && (forall key | key in s.tails ::
          && s.tails[key] < |s.tickets| && s.tickets[s.tails[key]].key == key && s.tickets[s.tails[key]].phase != Gone
          && forall j | s.tails[key] < j < |s.tickets| :: s.tickets[j].key != key)
    && (forall i | 0 <= i < |s.tickets| :: s.tickets[i].key !in s.tails ==> Released(s.tickets[i].phase))
  }

  /** A ticket that still waits is chained to the ticket of its key that arrived just before it. */
  ghost predicate Chained(s: State) {
    forall j | 0 <= j < |s.tickets| && s.tickets[j].phase in {Waiting, Orphaned} ::
      && 0 <= s.tickets[j].prev < j && SameKey(s, s.tickets[j].prev, j)
      && forall i | s.tickets[j].prev < i < j :: !SameKey(s, i, j)
  }

  /** A ticket gets past waiting only after every earlier ticket of its key is released. */
  ghost predicate InOrder(s: State) {
    forall i, j | 0 <= i < j < |s.tickets| && SameKey(s, i, j) && s.tickets[j].phase !in {Waiting, Orphaned} ::
      Released(s.tickets[i].phase)
  }

  /** Bodies of one key start in arrival order, each at most once. */
  ghost predicate RanInOrder(s: State) {
    && (forall x | 0 <= x < |s.ran| ::
        s.ran[x] < |s.tickets| && s.tickets[s.ran[x]].phase !in {Waiting, Orphaned, Entered})
    && (forall x, y | 0 <= x < y < |s.ran| && SameKey(s, s.ran[x], s.ran[y]) :: s.ran[x] < s.ran[y])
  }

  /** A ticket past its entry has run its body, unless its call was cancelled. */
  ghost predicate RanUnlessCancelled(s: State) {
    && (forall i | 0 <= i < |s.tickets| ::
          i in s.ran <==> s.tickets[i].phase !in {Waiting, Orphaned, Entered} && !s.tickets[i].cancelled)
    && (forall i | 0 <= i < |s.tickets| ::
          && (s.tickets[i].phase in {Waiting, Entered} ==> !s.tickets[i].cancelled)
          && (s.tickets[i].phase == Orphaned ==> s.tickets[i].cancelled))
  }

  ghost predicate Inv(s: State) {
    ClosedOnce(s) && TailsAreNewest(s) && Chained(s) && InOrder(s) && RanInOrder(s) && RanUnlessCancelled(s)
  }

  lemma StepKeepsInv(s: State, step: Step)
    requires Inv(s) && Enabled(s, step)
    ensures Inv(Take(s, step))
  {
    hide ClosedOnce, TailsAreNewest, Chained, InOrder, RanInOrder, RanUnlessCancelled, Take, Enabled;
    KeepsRanUnlessCancelled(s, step);
    KeepsClosedOnce(s, step);
    KeepsTails(s, step);
    KeepsChained(s, step);
    KeepsInOrder(s, step);
    KeepsRanInOrder(s, step);
  }

  lemma KeepsClosedOnce(s: State, step: Step)
    requires Inv(s) && Enabled(s, step)
    ensures ClosedOnce(Take(s, step))
  {
    hide TailsAreNewest, Chained, InOrder, RanInOrder, RanUnlessCancelled;
  }

  // What a step leaves alone.
  lemma TakeFrame(s: State, step: Step)
    requires Enabled(s, step)
    ensures var u := Take(s, step);
            && |u.tickets| == |s.tickets| + (if step.Arrive? then 1 else 0)
            && (forall i | 0 <= i < |s.tickets| ::
                u.tickets[i].key == s.tickets[i].key && u.tickets[i].prev == s.tickets[i].prev)
            && (forall i | 0 <= i < |s.tickets| && (step.Arrive? || i != step.id) :: u.tickets[i] == s.tickets[i])
            && (!step.Arrive? && !step.Unlink? ==> u.tails == s.tails)
            && (!step.Begin? ==> u.ran == s.ran)
  {
  }

  lemma KeepsTails(s: State, step: Step)
    requires Inv(s) && Enabled(s, step)
    ensures TailsAreNewest(Take(s, step))
  {
    hide Chained, RanInOrder, ClosedOnce, RanUnlessCancelled;
    TakeFrame(s, step);
    if step.Unlink? {
      UnlinkTails(s, step.id);
    } else if step.Arrive? {
      ArriveTails(s, step.key);
    }
  }

  lemma ArriveTails(s: State, key: Key)
    requires Inv(s)
    ensures TailsAreNewest(Take(s, Arrive(key)))
  {
    hide Chained, RanInOrder, ClosedOnce, InOrder, RanUnlessCancelled;
  }

  lemma UnlinkTails(s: State, id: nat)
    requires Inv(s) && Enabled(s, Unlink(id))
    ensures TailsAreNewest(Take(s, Unlink(id)))
  {
    hide Chained, RanInOrder, ClosedOnce, RanUnlessCancelled;
    var u := Take(s, Unlink(id));
    forall i | 0 <= i < |u.tickets| ensures u.tickets[i].key !in u.tails ==> Released(u.tickets[i].phase) {
      assert i < id && SameKey(s, i, id) ==> Released(s.tickets[i].phase);
    }
  }

  lemma KeepsChained(s: State, step: Step)
    requires Inv(s) && Enabled(s, step)
    ensures Chained(Take(s, step))
  {
    hide ClosedOnce, InOrder, RanInOrder, RanUnlessCancelled;
    TakeFrame(s, step);
    var u := Take(s, step);
    forall j | 0 <= j < |u.tickets| && u.tickets[j].phase in {Waiting, Orphaned}
      ensures 0 <= u.tickets[j].prev < j && SameKey(u, u.tickets[j].prev, j)
      ensures forall i | u.tickets[j].prev < i < j :: !SameKey(u, i, j)
    {
      assert j < |s.tickets| ==> s.tickets[j].phase in {Waiting, Orphaned};
      forall i | u.tickets[j].prev < i < j ensures !SameKey(u, i, j) {
        assert j < |s.tickets| ==> !SameKey(s, i, j);
      }
    }
  }

  lemma KeepsInOrder(s: State, step: Step)
    requires Inv(s) && Enabled(s, step)
    ensures InOrder(Take(s, step))
  {
    hide RanInOrder, RanUnlessCancelled, ClosedOnce, Chained;
    TakeFrame(s, step);
    var u := Take(s, step);
    if step.Wake? || step.Inherit? {
      PredecessorsReleased(s, step.id);
    }
    forall i, j | 0 <= i < j < |u.tickets| && SameKey(u, i, j) && u.tickets[j].phase !in {Waiting, Orphaned}
      ensures Released(u.tickets[i].phase)
    {
      assert j < |s.tickets| ==> SameKey(s, i, j);
      assert i < |s.tickets| && Released(s.tickets[i].phase) ==> Released(u.tickets[i].phase);
    }
  }

  // Once the previous channel is closed, every earlier ticket of the key is released.
  lemma PredecessorsReleased(s: State, id: nat)
    requires Inv(s) && id < |s.tickets| && s.tickets[id].phase in {Waiting, Orphaned}
    requires s.tickets[id].prev >= 0 && Closed(s, s.tickets[id].prev)
    ensures forall i | 0 <= i < id && SameKey(s, i, id) :: Released(s.tickets[i].phase)
  {
    hide TailsAreNewest, RanInOrder, RanUnlessCancelled;
    var p := s.tickets[id].prev;
    forall i | 0 <= i < id && SameKey(s, i, id) ensures Released(s.tickets[i].phase) {
      assert i < p ==> SameKey(s, i, p);
    }
  }

  lemma KeepsRanInOrder(s: State, step: Step)
    requires Inv(s) && Enabled(s, step)
    ensures RanInOrder(Take(s, step))
  {
    hide ClosedOnce, TailsAreNewest, Chained, RanUnlessCancelled;
    TakeFrame(s, step);
  }

  lemma KeepsRanUnlessCancelled(s: State, step: Step)
    requires Inv(s) && Enabled(s, step)
    ensures RanUnlessCancelled(Take(s, step))
  {
    hide ClosedOnce, TailsAreNewest, Chained, InOrder;
    TakeFrame(s, step);
    var u := Take(s, step);
    assert step.Begin? ==> forall i :: i in u.ran <==> i in s.ran || i == step.id;
  }

  // ----- what this means for the callers -----

  /** At most one body runs per key. */
  lemma MutualExclusion(s: State, i: nat, j: nat)
    requires Inv(s) && i < |s.tickets| && j < |s.tickets| && SameKey(s, i, j)
    requires s.tickets[i].phase == Running && s.tickets[j].phase == Running
    ensures i == j
  {
    hide ClosedOnce, TailsAreNewest, Chained, RanInOrder, RanUnlessCancelled;
  }

  /** A channel is closed only after those of all earlier tickets of the key. */
  lemma ClosesInOrder(s: State, i: nat, j: nat)
    requires Inv(s) && i < j < |s.tickets| && SameKey(s, i, j) && Closed(s, j)
    ensures Closed(s, i)
  {
    hide TailsAreNewest, Chained, RanInOrder, RanUnlessCancelled;
  }

  /** A key without outstanding tickets has no map entry. */
  lemma IdleKeyHasNoEntry(s: State, key: Key)
    requires Inv(s) && forall i | 0 <= i < |s.tickets| && s.tickets[i].key == key :: s.tickets[i].phase == Gone
    ensures key !in s.tails
  {
    hide ClosedOnce, Chained, InOrder, RanInOrder, RanUnlessCancelled;
  }

  /** What a ticket does next when nobody cancels it. */
  function OwnStep(tickets: seq<Ticket>, id: nat): Step
    requires id < |tickets| && tickets[id].phase != Gone
  {
    match tickets[id].phase
    case Waiting => Wake(id)
    case Orphaned => Inherit(id)
    case Entered => Begin(id)
    case Running => Finish(id)
    case Closing => CloseChannel(id)
    case Unlinking => Unlink(id)
  }

  /** While a ticket is outstanding, the oldest one can move without any cancellation. */
  lemma NeverStuck(s: State, id: nat)
    requires Inv(s) && id < |s.tickets| && s.tickets[id].phase != Gone
    requires forall i | 0 <= i < id :: s.tickets[i].phase == Gone
    ensures Enabled(s, OwnStep(s.tickets, id))
  {
    hide TailsAreNewest, InOrder, RanInOrder, RanUnlessCancelled;
  }

  /** A call can give up at any time before its body starts; it then reports its context's error, its
      body never runs, and no other ticket is touched. */
  lemma MayGiveUp(s: State, id: nat)
    requires Inv(s) && id < |s.tickets| && s.tickets[id].phase in {Waiting, Entered}
    ensures var step := if s.tickets[id].phase == Waiting then Abandon(id) else Cancel(id);
            && Enabled(s, step)
            && var u := Take(s, step);
               && u.tickets[id].cancelled && id !in u.ran && u.tails == s.tails && |u.tickets| == |s.tickets|
               && u.tickets[id].phase == (if step.Abandon? then Orphaned else Closing)
               && forall i | 0 <= i < |s.tickets| && i != id :: u.tickets[i] == s.tickets[i]
  {
    hide ClosedOnce, TailsAreNewest, Chained, InOrder, RanInOrder;
  }

  /** A cancelled call stays cancelled, and its body never runs. */
  lemma GivenUpForGood(s: State, step: Step, id: nat)
    requires Inv(s) && Enabled(s, step) && id < |s.tickets| && s.tickets[id].cancelled
    ensures Take(s, step).tickets[id].cancelled && id !in Take(s, step).ran
  {
    hide ClosedOnce, TailsAreNewest, Chained, InOrder, RanInOrder;
  }

  /** Where a new call stands: on a key whose tickets are all gone it may start at once; otherwise it
      waits for the newest ticket of its key, unless that one is already released and unlinked. */
  lemma ArrivalStands(s: State, key: Key)
    requires Inv(s)
    ensures var u, n := Take(s, Arrive(key)), |s.tickets|;
            && |u.tickets| == n + 1 && u.tickets[..n] == s.tickets && u.ran == s.ran
            && u.tickets[n].key == key && !u.tickets[n].cancelled && u.tickets[n].closes == 0
            && ((forall i | 0 <= i < n && s.tickets[i].key == key :: s.tickets[i].phase == Gone) ==>
                  u.tickets[n].phase == Entered)
            && (u.tickets[n].phase == Entered ==>
                  forall i | 0 <= i < n && s.tickets[i].key == key :: Released(s.tickets[i].phase))
            && (u.tickets[n].phase != Entered ==>
                  var p := u.tickets[n].prev;
                  && u.tickets[n].phase == Waiting && 0 <= p < n && s.tickets[p].key == key
                  && forall i | p < i < n :: s.tickets[i].key != key)
  {
    hide ClosedOnce, Chained, InOrder, RanInOrder, RanUnlessCancelled;
  }

  // ----- every run -----

  function Rank(p: Phase): nat {
    match p
    case Waiting => 6
    case Orphaned => 5
    case Entered => 4
    case Running => 3
    case Closing => 2
    case Unlinking => 1
    case Gone => 0
  }

  /** How many steps the tickets have left. */
  function Work(tickets: seq<Ticket>): nat {
    if tickets == [] then 0 else Work(tickets[..|tickets| - 1]) + Rank(tickets[|tickets| - 1].phase)
  }

  lemma {:induction false} WorkOf(tickets: seq<Ticket>, id: nat, t: Ticket)
    requires id < |tickets|
    ensures Work(tickets[id := t]) == Work(tickets) - Rank(tickets[id].phase) + Rank(t.phase)
    decreases |tickets|
  {
    var n := |tickets| - 1;
    if id < n {
      WorkOf(tickets[..n], id, t);
      assert tickets[id := t][..n] == tickets[..n][id := t];
    } else {
      assert tickets[id := t][..n] == tickets[..n];
    }
  }

  /** Every step but an arrival uses up work, so without new arrivals every run ends. */
  lemma StepsUseWork(s: State, step: Step)
    requires Enabled(s, step) && !step.Arrive?
    ensures Work(Take(s, step).tickets) < Work(s.tickets)
  {
    WorkOf(s.tickets, step.id, Take(s, step).tickets[step.id]);
  }

  /** A step that is not enabled waits: nothing happens. */
  function Act(s: State, step: Step): State {
    if Enabled(s, step) then Take(s, step) else s
  }

  /** The state after a schedule. */
  function Play(s: State, schedule: seq<Step>): State
    decreases |schedule|
  {
    if schedule == [] then s else Act(Play(s, schedule[..|schedule| - 1]), schedule[|schedule| - 1])
  }

  /** Over every interleaving of arrivals, cancellations and two-part releases: one body at a time
      per key, bodies of a key in arrival order and once each, and no channel closed twice. */
  lemma {:induction false} EveryRunIsSafe(schedule: seq<Step>)
    ensures var s := Play(EMPTY, schedule);
            && Inv(s)
            && (forall i, j | 0 <= i < |s.tickets| && 0 <= j < |s.tickets| && SameKey(s, i, j)
                  && s.tickets[i].phase == Running && s.tickets[j].phase == Running :: i == j)
            && (forall x, y | 0 <= x < y < |s.ran| ::
                  && s.ran[x] < |s.tickets| && s.ran[y] < |s.tickets|
                  && (SameKey(s, s.ran[x], s.ran[y]) ==> s.ran[x] < s.ran[y]))
            && (forall i | 0 <= i < |s.tickets| :: s.tickets[i].closes <= 1)
    decreases |schedule|
  {
    hide Take, Enabled, TailsAreNewest, Chained, InOrder, RanUnlessCancelled;
    if schedule == [] {
      StartsInOrder();
    } else {
      var n := |schedule| - 1;
      EveryRunIsSafe(schedule[..n]);
      var before := Play(EMPTY, schedule[..n]);
      if Enabled(before, schedule[n]) {
        StepKeepsInv(before, schedule[n]);
      }
    }
    var s := Play(EMPTY, schedule);
    forall i, j | 0 <= i < |s.tickets| && 0 <= j < |s.tickets| && SameKey(s, i, j)
      && s.tickets[i].phase == Running && s.tickets[j].phase == Running ensures i == j
    {
      MutualExclusion(s, i, j);
    }
  }

  lemma PlayNext(s: State, schedule: seq<Step>, i: nat)
    requires i < |schedule|
    ensures Play(s, schedule[..i + 1]) == Act(Play(s, schedule[..i]), schedule[i])
  {
    assert schedule[..i + 1][..i] == schedule[..i];
  }

  /** Later than `s` without an arrival or a cancellation in between; started bodies stay started. */
  ghost predicate Settles(s: State, u: State) {
    && |u.tickets| == |s.tickets| && s.ran <= u.ran
    && forall i | 0 <= i < |s.tickets| ::
        u.tickets[i].key == s.tickets[i].key && u.tickets[i].cancelled == s.tickets[i].cancelled
  }

  /** The shared queue: one map under a lock, and the channels of the tickets. Each method is one
      step of one goroutine. */
  class Queue {
    var tails: map<Key, nat>
    var tickets: seq<Ticket>
    ghost var ran: seq<nat>

    ghost function Now(): State
      reads this
    {
      State(tails, tickets, ran)
    }

    /** newMutationQueue */
    constructor ()
      ensures Now() == EMPTY
    {
      tails := map[];
      tickets := [];
      ran := [];
    }

    /** The locked first part of withMutationQueue. */
    method Arrive(key: Key) returns (id: nat)
      modifies this
      ensures id == old(|tickets|) && Now() == Take(old(Now()), Step.Arrive(key))
    {
      id := |tickets|;
      var prev := if key in tails then tails[key] else NO_PREVIOUS;
      tails := tails[key := id];
      tickets := tickets + [Ticket(key, prev, if prev == NO_PREVIOUS then Entered else Waiting, 0, false)];
    }

    method SetPhase(id: nat, phase: Phase)
      requires id < |tickets|
      modifies this`tickets
      ensures Now() == Shift(old(Now()), id, phase)
    {
      tickets := tickets[id := tickets[id].(phase := phase)];
    }

    /** The call returns its context's error; its ticket is released later. */
    method ReturnError(id: nat, phase: Phase)
      requires id < |tickets|
      modifies this`tickets
      ensures Now() == Refuse(old(Now()), id, phase)
    {
      tickets := tickets[id := tickets[id].(phase := phase, cancelled := true)];
    }

    /** close(next), the first part of releaseMutationQueue. */
    method CloseChannel(id: nat)
      requires Enabled(Now(), Step.CloseChannel(id))
      modifies this`tickets
      ensures Now() == Take(old(Now()), Step.CloseChannel(id))
    {
      tickets := tickets[id := tickets[id].(phase := Unlinking, closes := tickets[id].closes + 1)];
    }

    /** The locked second part of releaseMutationQueue. */
    method Unlink(id: nat)
      requires Enabled(Now(), Step.Unlink(id))
      modifies this`tickets, this`tails
      ensures Now() == Take(old(Now()), Step.Unlink(id))
    {
      var key := tickets[id].key;
      if key in tails && tails[key] == id {
        tails := tails - {key};
      }
      SetPhase(id, Gone);
    }

    /** One step of any goroutine, if it is enabled. */
    method Perform(step: Step) returns (done: bool)
      requires Inv(Now())
      modifies this
      ensures Inv(Now()) && done == Enabled(old(Now()), step)
      ensures Now() == if done then Take(old(Now()), step) else old(Now())
    {
      hide Inv;
      done := CanPerform(step);
      if !done {
        return;
      }
      StepKeepsInv(Now(), step);
      match step
      case Arrive(key) => var id := Arrive(key);
      case Wake(id) => SetPhase(id, Entered);
      case Abandon(id) => ReturnError(id, Orphaned);
      case Inherit(id) => SetPhase(id, Closing);
      case Cancel(id) => ReturnError(id, Closing);
      case Begin(id) =>
        SetPhase(id, Running);
        ran := ran + [id];
      case Finish(id) => SetPhase(id, Closing);
      case CloseChannel(id) => CloseChannel(id);
      case Unlink(id) => Unlink(id);
    }

    method CanPerform(step: Step) returns (ok: bool)
      ensures ok == Enabled(Now(), step)
    {
      ok := Enabled(State(tails, tickets, []), step);
    }
  }

  /** The queue object under a schedule of arrivals, cancellations and releases is in the state of
      that schedule. After it the oldest outstanding ticket steps until none is left: every
      channel is closed once, exactly the uncancelled bodies have run, and the map is empty. */
  method RunAll(schedule: seq<Step>) returns (q: Queue)
    ensures Settles(Play(EMPTY, schedule), q.Now()) && Inv(q.Now()) && q.tails == map[]
    ensures forall i | 0 <= i < |q.tickets| :: q.tickets[i].phase == Gone && q.tickets[i].closes == 1
    ensures forall i | 0 <= i < |q.tickets| :: i in q.ran <==> !q.tickets[i].cancelled
  {
    hide Take, Enabled, Inv, Play;
    q := new Queue();
    StartsInOrder();
    PlayNothing(EMPTY);
    assert schedule[..0] == [];
    for i := 0 to |schedule|
      invariant fresh(q) && Inv(q.Now()) && q.Now() == Play(EMPTY, schedule[..i])
    {
      PlayNext(EMPTY, schedule, i);
      var done := q.Perform(schedule[i]);
    }
    assert schedule[..|schedule|] == schedule;
    var first := 0;
    while first < |q.tickets|
      invariant fresh(q) && Inv(q.Now()) && 0 <= first <= |q.tickets| && Settles(Play(EMPTY, schedule), q.Now())
      invariant forall i | 0 <= i < first :: q.tickets[i].phase == Gone
      decreases Work(q.tickets) + |q.tickets| - first
    {
      if q.tickets[first].phase == Gone {
        first := first + 1;
        continue;
      }
      DrainOne(q, first);
    }
    AllGone(q.Now());
  }

  lemma PlayNothing(s: State)
    ensures Play(s, []) == s
  {
  }

  /** The oldest outstanding ticket takes its next step. */
  method DrainOne(q: Queue, id: nat)
    requires Inv(q.Now()) && id < |q.tickets| && q.tickets[id].phase != Gone
    requires forall i | 0 <= i < id :: q.tickets[i].phase == Gone
    modifies q
    ensures Inv(q.Now()) && Settles(old(q.Now()), q.Now()) && Work(q.tickets) < old(Work(q.tickets))
    ensures forall i | 0 <= i < id :: q.tickets[i].phase == Gone
  {
    hide Take, Enabled, Inv, Work;
    NeverStuck(q.Now(), id);
    var step := OwnStep(q.tickets, id);
    StepsUseWork(q.Now(), step);
    TakeFrame(q.Now(), step);
    OwnStepSettles(q.Now(), id);
    var done := q.Perform(step);
  }

  lemma OwnStepSettles(s: State, id: nat)
    requires id < |s.tickets| && s.tickets[id].phase != Gone && Enabled(s, OwnStep(s.tickets, id))
    ensures Settles(s, Take(s, OwnStep(s.tickets, id)))
  {
  }

  lemma StartsInOrder()
    ensures Inv(EMPTY)
  {
  }

  lemma AllGone(s: State)
    requires Inv(s) && forall i | 0 <= i < |s.tickets| :: s.tickets[i].phase == Gone
    ensures s.tails == map[]
    ensures forall i | 0 <= i < |s.tickets| :: s.tickets[i].closes == 1 && (i in s.ran <==> !s.tickets[i].cancelled)
  {
    forall key ensures key !in s.tails {
      IdleKeyHasNoEntry(s, key);
    }
  }
}
