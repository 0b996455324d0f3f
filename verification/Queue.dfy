/** The bounded queue between the parser thread and the GUI: `BoundedBatchQueue`.

  The class holds the critical sections.  Around them, a state machine interleaves any
  number of threads: a thread asks for the mutex, runs its section, releases the mutex, and
  only then notifies.  A producer whose wait predicate is false releases the mutex and
  falls asleep in one step, and it can wake without a notification. */
module Queue {

  type Batch = nat

  type Capacity = n: nat | n > 0 witness 1

  /** What the mutex guards. */
  datatype Shared = Shared(capacity: nat, items: seq<Batch>, stopped: bool, dropped: nat)

  predicate HasSlot(q: Shared) { |q.items| < q.capacity }

  /** What `WaitEnqueue` waits for. */
  predicate MayProceed(q: Shared) { q.stopped || HasSlot(q) }

  /** A free slot is taken even after the stop; without one the batch is lost. */
  function Admitted(q: Shared, b: Batch): Shared {
    if HasSlot(q) then q.(items := q.items + [b]) else q.(dropped := q.dropped + 1)
  }

  function Rearmed(q: Shared): Shared { Shared(q.capacity, [], false, 0) }

  // ----- The critical sections -----

  class BoundedBatchQueue {
    const capacity: Capacity
    var items: seq<Batch>
    var stopped: bool
    var dropped: nat

    function Contents(): Shared
      reads this
    {
      Shared(capacity, items, stopped, dropped)
    }

    constructor (capacity: nat)
      ensures Contents() == Fresh(capacity)
      ensures this.capacity == (if capacity == 0 then 1 else capacity) && items == [] && !stopped && dropped == 0
    {
      this.capacity := if capacity == 0 then 1 else capacity;
      items, stopped, dropped := [], false, 0;
    }

    /** `WaitEnqueue` behind the wait. */
    method Admit(batch: Batch) returns (accepted: bool)
      requires MayProceed(Contents())
      modifies this
      ensures Contents() == Admitted(old(Contents()), batch)
      ensures accepted <==> |old(items)| < capacity
      ensures accepted ==> items == old(items) + [batch] && dropped == old(dropped)
      ensures !accepted ==> stopped && items == old(items) && dropped == old(dropped) + 1
    {
      if |items| < capacity {
        items := items + [batch];
        return true;
      }
      dropped := dropped + 1;
      return false;
    }

    method DrainAll() returns (out: seq<Batch>)
      modifies this
      ensures Contents() == old(Contents()).(items := []) && out == old(items)
    {
      out := [];
      var i := 0;
      while i < |items|
        invariant 0 <= i <= |items| && out == items[..i]
      {
        out := out + [items[i]];
        i := i + 1;
      }
      items := [];
    }

    method NotifyStop()
      modifies this
      ensures Contents() == old(Contents()).(stopped := true) && stopped
    {
      stopped := true;
    }

    method Reset()
      modifies this
      ensures Contents() == Rearmed(old(Contents())) == Fresh(capacity)
      ensures items == [] && !stopped && dropped == 0
    {
      items, stopped, dropped := [], false, 0;
    }
  }

  function Fresh(capacity: nat): Shared {
    Shared(if capacity == 0 then 1 else capacity, [], false, 0)
  }

  // ----- The interleavings -----

  datatype Call = Enqueue(batch: Batch) | Drain | Stop | Rearm

  datatype Pc =
    | Idle
    | Wanting(call: Call)
    | Inside(call: Call)
    | Leaving(call: Call)
    | Asleep(batch: Batch)
    | Notifying(all: bool)

  /** The threads `0 .. producers` enqueue, the others control.  `called`, `log`, `drained`
      are the history since the last `Reset`: the batches handed in, the fate of each
      finished call, and what the consumer took. */
  datatype State = State(
    q: Shared, holder: int, pcs: seq<Pc>, producers: nat,
    called: seq<Batch>, log: seq<(Batch, bool)>, drained: seq<Batch>)

  datatype Step =
    | Invoke(t: nat, call: Call)
    | Acquire(t: nat)
    | Enter(t: nat)
    | Release(t: nat)
    | NotifyOne(t: nat, woken: nat)
    | NotifyAll(t: nat)
    | Spurious(t: nat)

  predicate Rearming(pc: Pc) { (pc.Wanting? || pc.Inside? || pc.Leaving?) && pc.call.Rearm? }

  predicate NoneAsleep(pcs: seq<Pc>) { forall u :: 0 <= u < |pcs| ==> !pcs[u].Asleep? }

  /** A producer is in the middle of a call. */
  predicate Busy(s: State) { exists t :: 0 <= t < |s.pcs| && t < s.producers && !s.pcs[t].Idle? }

  predicate Enabled(s: State, e: Step) {
    && e.t < |s.pcs|
    && var pc := s.pcs[e.t];
       match e
       case Invoke(t, call) =>
         && pc.Idle?
         && (call.Enqueue? <==> t < s.producers)
         && (call.Enqueue? ==> forall u :: 0 <= u < |s.pcs| ==> !Rearming(s.pcs[u]))
         // `Reset` comes after the worker has been joined.
         && (call.Rearm? ==> !Busy(s))
       case Acquire(_) => pc.Wanting? && s.holder == -1
       case Enter(_) => pc.Inside?
       case Release(_) => pc.Leaving?
       case NotifyOne(_, w) => pc == Notifying(false) && w < |s.pcs| && (s.pcs[w].Asleep? || NoneAsleep(s.pcs))
       case NotifyAll(_) => pc == Notifying(true)
       case Spurious(_) => pc.Asleep?
  }

  function Awake(pc: Pc): Pc { if pc.Asleep? then Wanting(Enqueue(pc.batch)) else pc }

  function AllAwake(pcs: seq<Pc>): (r: seq<Pc>)
    ensures |r| == |pcs| && forall u :: 0 <= u < |pcs| ==> r[u] == Awake(pcs[u])
  {
    seq(|pcs|, u requires 0 <= u < |pcs| => Awake(pcs[u]))
  }

  /** The critical section of `t`. */
  function Section(s: State, t: nat): State
    requires t < |s.pcs| && s.pcs[t].Inside?
  {
    var call := s.pcs[t].call;
    var left := s.(pcs := s.pcs[t := Leaving(call)]);
    match call
    case Enqueue(b) =>
      if MayProceed(s.q) then left.(q := Admitted(s.q, b), log := s.log + [(b, HasSlot(s.q))])
      else s.(pcs := s.pcs[t := Asleep(b)], holder := -1)
    case Drain => left.(q := s.q.(items := []), drained := s.drained + s.q.items)
    case Stop => left.(q := s.q.(stopped := true))
    case Rearm => left.(q := Rearmed(s.q), called := [], log := [], drained := [])
  }

  function Do(s: State, e: Step): State
    requires Enabled(s, e)
  {
    var t := e.t;
    match e
    case Invoke(_, call) =>
      s.(pcs := s.pcs[t := Wanting(call)], called := if call.Enqueue? then s.called + [call.batch] else s.called)
    case Acquire(_) => s.(pcs := s.pcs[t := Inside(s.pcs[t].call)], holder := t)
    case Enter(_) => Section(s, t)
    case Release(_) =>
      var call := s.pcs[t].call;
      s.(pcs := s.pcs[t := if call.Drain? then Notifying(false) else if call.Stop? then Notifying(true) else Idle],
         holder := -1)
    case NotifyOne(_, w) => s.(pcs := s.pcs[t := Idle][w := if w == t then Idle else Awake(s.pcs[w])])
    case NotifyAll(_) => s.(pcs := AllAwake(s.pcs)[t := Idle])
    case Spurious(_) => s.(pcs := s.pcs[t := Awake(s.pcs[t])])
  }

  /** A step that is not enabled is no step, so every sequence of steps is a run. */
  function Take(s: State, e: Step): State { if Enabled(s, e) then Do(s, e) else s }

  function Play(s: State, steps: seq<Step>): State
    decreases |steps|
  {
    if steps == [] then s else Play(Take(s, steps[0]), steps[1..])
  }

  function Start(capacity: nat, producers: nat, controllers: nat): State {
    State(Fresh(capacity), -1, seq(producers + controllers, _ => Idle), producers, [], [], [])
  }

  // ----- Safety, for any number of producers -----

  predicate Holds(pc: Pc) { pc.Inside? || pc.Leaving? }

  /** At most one thread is in a critical section: the one that owns the mutex. */
  predicate Exclusive(s: State) {
    && -1 <= s.holder < |s.pcs|
    && forall t :: 0 <= t < |s.pcs| ==> (Holds(s.pcs[t]) <==> t == s.holder)
  }

  predicate ProducerPc(pc: Pc) {
    pc.Idle? || pc.Asleep? || ((pc.Wanting? || Holds(pc)) && pc.call.Enqueue?)
  }

  predicate ControllerPc(pc: Pc) {
    !pc.Asleep? && (pc.Wanting? || Holds(pc) ==> !pc.call.Enqueue?)
  }

  predicate Roles(s: State) {
    forall t :: 0 <= t < |s.pcs| ==> if t < s.producers then ProducerPc(s.pcs[t]) else ControllerPc(s.pcs[t])
  }

  /** No producer is in a call during a `Reset`. */
  predicate ResetAlone(s: State) {
    (exists u :: 0 <= u < |s.pcs| && Rearming(s.pcs[u])) ==> !Busy(s)
  }

  function Accepted(log: seq<(Batch, bool)>): seq<Batch> {
    if log == [] then []
    else Accepted(log[..|log| - 1]) + if log[|log| - 1].1 then [log[|log| - 1].0] else []
  }

  function Refused(log: seq<(Batch, bool)>): nat {
    if log == [] then 0 else Refused(log[..|log| - 1]) + if log[|log| - 1].1 then 0 else 1
  }

  /** Nothing is lost, invented or reordered: what the consumer took and what waits is what
      was accepted, and the counter is the number of calls that returned false. */
  predicate Conserved(s: State) {
    && 1 <= s.q.capacity && |s.q.items| <= s.q.capacity
    && s.drained + s.q.items == Accepted(s.log)
    && s.q.dropped == Refused(s.log)
  }

  predicate Announced(pc: Pc) { pc == Leaving(Stop) || pc == Notifying(true) }

  /** Whoever sleeps after the stop will be woken by its broadcast. */
  predicate StopReaches(s: State) {
    s.q.stopped && !NoneAsleep(s.pcs) ==> exists u :: 0 <= u < |s.pcs| && Announced(s.pcs[u])
  }

  predicate Safe(s: State) { Exclusive(s) && Roles(s) && ResetAlone(s) && Conserved(s) && StopReaches(s) }

  lemma LogTurn(log: seq<(Batch, bool)>, b: Batch, ok: bool)
    ensures Accepted(log + [(b, ok)]) == Accepted(log) + if ok then [b] else []
    ensures Refused(log + [(b, ok)]) == Refused(log) + if ok then 0 else 1
  {
    assert (log + [(b, ok)])[..|log|] == log;
  }

  lemma KeepsExclusive(s: State, e: Step)
    requires Exclusive(s) && Enabled(s, e)
    ensures Exclusive(Do(s, e))
  {
  }

  lemma KeepsRoles(s: State, e: Step)
    requires Roles(s) && Enabled(s, e)
    ensures Roles(Do(s, e))
  {
  }

  lemma KeepsResetAlone(s: State, e: Step)
    requires Roles(s) && ResetAlone(s) && Enabled(s, e)
    ensures ResetAlone(Do(s, e))
  {
    if e.Invoke? && e.call.Enqueue? {
      assert forall u :: 0 <= u < |s.pcs| ==> !Rearming(Do(s, e).pcs[u]);
    }
  }

  lemma AdmissionConserved(s: State, t: nat)
    requires Conserved(s) && t < |s.pcs| && s.pcs[t].Inside? && s.pcs[t].call.Enqueue?
    ensures Conserved(Section(s, t))
  {
    hide Accepted, Refused;
    var b := s.pcs[t].call.batch;
    LogTurn(s.log, b, HasSlot(s.q));
    assert s.drained + (s.q.items + [b]) == (s.drained + s.q.items) + [b];
  }

  lemma KeepsConserved(s: State, e: Step)
    requires Conserved(s) && Enabled(s, e)
    ensures Conserved(Do(s, e))
  {
    if e.Enter? {
      if s.pcs[e.t].call.Enqueue? {
        AdmissionConserved(s, e.t);
      } else if s.pcs[e.t].call.Drain? {
        assert (s.drained + s.q.items) + [] == s.drained + s.q.items;
      }
    }
  }

  lemma KeepsStopReaches(s: State, e: Step)
    requires Roles(s) && ResetAlone(s) && StopReaches(s) && Enabled(s, e)
    ensures StopReaches(Do(s, e))
  {
    var n := Do(s, e);
    if !e.NotifyAll? && n.q.stopped && !NoneAsleep(n.pcs) {
      if e.Enter? && s.pcs[e.t].call.Stop? {
        assert Announced(n.pcs[e.t]);
      } else {
        var t :| 0 <= t < |n.pcs| && n.pcs[t].Asleep?;
        assert s.q.stopped;
        assert s.pcs[t].Asleep?;
        var u :| 0 <= u < |s.pcs| && Announced(s.pcs[u]);
        assert Announced(n.pcs[u]);
      }
    }
  }

  lemma KeepsSafe(s: State, e: Step)
    requires Safe(s)
    ensures var n := Take(s, e);
            Safe(n) && n.producers == s.producers && |n.pcs| == |s.pcs| && n.q.capacity == s.q.capacity
  {
    if Enabled(s, e) {
      hide Exclusive, Roles, ResetAlone, Conserved, StopReaches;
      KeepsExclusive(s, e);
      KeepsRoles(s, e);
      KeepsResetAlone(s, e);
      KeepsConserved(s, e);
      KeepsStopReaches(s, e);
    }
  }

  /** Safety holds after every run. */
  lemma {:induction false} PlaySafe(s: State, steps: seq<Step>)
    requires Safe(s)
    ensures var n := Play(s, steps);
            Safe(n) && n.producers == s.producers && |n.pcs| == |s.pcs| && n.q.capacity == s.q.capacity
    decreases |steps|
  {
    hide Safe, Take;
    if steps != [] {
      KeepsSafe(s, steps[0]);
      PlaySafe(Take(s, steps[0]), steps[1..]);
    }
  }

  lemma StartSafe(capacity: nat, producers: nat, controllers: nat)
    ensures Safe(Start(capacity, producers, controllers))
  {
  }

  /** In every interleaving: mutual exclusion, no loss, no reordering, the bound on the size
      and the drop count; and once the broadcast of a stop is through, nobody sleeps. */
  lemma AlwaysSafe(capacity: nat, producers: nat, controllers: nat, steps: seq<Step>)
    ensures var s := Play(Start(capacity, producers, controllers), steps);
            && Safe(s) && s.q.capacity == (if capacity == 0 then 1 else capacity)
            && (s.q.stopped && (forall u :: 0 <= u < |s.pcs| ==> !Announced(s.pcs[u])) ==> NoneAsleep(s.pcs))
  {
    StartSafe(capacity, producers, controllers);
    PlaySafe(Start(capacity, producers, controllers), steps);
  }

  /** A batch is dropped only by a stopped and full queue. */
  lemma DropsOnlyWhenStoppedAndFull(s: State, e: Step)
    requires Safe(s) && Take(s, e).q.dropped > s.q.dropped
    ensures s.q.stopped && |s.q.items| == s.q.capacity
    ensures e.Enter? && s.pcs[e.t].Inside? && s.pcs[e.t].call.Enqueue? && Take(s, e).q.items == s.q.items
  {
  }

  // ----- One producer: calls take effect in order -----

  function InFlight(pc: Pc): seq<Batch> {
    match pc
    case Wanting(Enqueue(b)) => [b]
    case Inside(Enqueue(b)) => [b]
    case Asleep(b) => [b]
    case _ => []
  }

  function Batches(log: seq<(Batch, bool)>): (r: seq<Batch>)
    ensures |r| == |log| && forall i :: 0 <= i < |log| ==> r[i] == log[i].0
  {
    seq(|log|, i requires 0 <= i < |log| => log[i].0)
  }

  /** Every batch handed in has its fate in the log, in the order of the calls; the call in
      progress is the last. */
  predicate InOrder(s: State)
    requires s.producers == 1 <= |s.pcs|
  {
    s.called == Batches(s.log) + InFlight(s.pcs[0])
  }

  lemma {:induction false} PlayInOrder(s: State, steps: seq<Step>)
    requires Safe(s) && s.producers == 1 <= |s.pcs| && InOrder(s)
    ensures var n := Play(s, steps); n.producers == 1 <= |n.pcs| && InOrder(n)
    decreases |steps|
  {
    if steps != [] {
      var e := steps[0];
      PlaySafe(s, [e]);
      assert Play(s, [e]) == Take(s, e);
      if Enabled(s, e) {
        KeepsInOrder(s, e);
      }
      PlayInOrder(Take(s, e), steps[1..]);
    }
  }

  lemma KeepsInOrder(s: State, e: Step)
    requires Safe(s) && s.producers == 1 <= |s.pcs| && InOrder(s) && Enabled(s, e)
    ensures InOrder(Do(s, e))
  {
    var n := Do(s, e);
    if e.Enter? && e.t == 0 && MayProceed(s.q) {
      var b := s.pcs[0].call.batch;
      assert Batches(s.log + [(b, HasSlot(s.q))]) == Batches(s.log) + [b];
    } else if e.Enter? && s.pcs[e.t].call.Rearm? {
      assert Rearming(s.pcs[e.t]);
      assert n.called == [] && s.pcs[0].Idle?;
    } else {
      assert n.log == s.log;
    }
  }

  /** With one producer, in every interleaving: the batches that the consumer took and those
      that wait are the accepted ones in the order in which they were handed in. */
  lemma AlwaysInOrder(capacity: nat, controllers: nat, steps: seq<Step>)
    ensures var s := Play(Start(capacity, 1, controllers), steps);
            && s.producers == 1 <= |s.pcs|
            && s.drained + s.q.items == Accepted(s.log)
            && s.called == Batches(s.log) + InFlight(s.pcs[0])
  {
    StartSafe(capacity, 1, controllers);
    PlaySafe(Start(capacity, 1, controllers), steps);
    PlayInOrder(Start(capacity, 1, controllers), steps);
  }

  // ----- Lost wakeups -----

  predicate WillNotify(pc: Pc) { pc.Notifying? || (pc.Leaving? && (pc.call.Drain? || pc.call.Stop?)) }

  /** A producer that sleeps although it may proceed is about to be notified. */
  predicate NoLostWakeup(s: State) {
    MayProceed(s.q) && !NoneAsleep(s.pcs) ==> exists u :: 0 <= u < |s.pcs| && WillNotify(s.pcs[u])
  }

  lemma KeepsWakeups(s: State, e: Step)
    requires Safe(s) && s.producers <= 1 && NoLostWakeup(s) && Enabled(s, e)
    ensures NoLostWakeup(Do(s, e))
  {
    var n := Do(s, e);
    if MayProceed(n.q) && !NoneAsleep(n.pcs) {
      var t :| 0 <= t < |n.pcs| && n.pcs[t].Asleep?;
      assert t == 0 && s.pcs[0].Asleep?;
      if e.Enter? {
        assert !Rearming(s.pcs[e.t]);
        assert WillNotify(n.pcs[e.t]);
      } else {
        var u :| 0 <= u < |s.pcs| && WillNotify(s.pcs[u]);
        assert u != e.t || e.Release?;
        assert WillNotify(n.pcs[u]);
      }
    }
  }

  lemma {:induction false} PlayWakes(s: State, steps: seq<Step>)
    requires Safe(s) && s.producers <= 1 && NoLostWakeup(s)
    ensures NoLostWakeup(Play(s, steps))
    decreases |steps|
  {
    if steps != [] {
      PlaySafe(s, [steps[0]]);
      assert Play(s, [steps[0]]) == Take(s, steps[0]);
      if Enabled(s, steps[0]) {
        KeepsWakeups(s, steps[0]);
      }
      PlayWakes(Take(s, steps[0]), steps[1..]);
    }
  }

  lemma {:induction false} PlayAppend(s: State, a: seq<Step>, b: seq<Step>)
    ensures Play(s, a + b) == Play(Play(s, a), b)
    decreases |a|
  {
    if a == [] {
      assert a + b == b;
    } else {
      assert (a + b)[1..] == a[1..] + b;
      PlayAppend(Take(s, a[0]), a[1..], b);
    }
  }

  /** One thread's call up to and including its critical section. */
  function Section3(t: nat, call: Call): seq<Step> { [Invoke(t, call), Acquire(t), Enter(t)] }

  lemma Play2(s: State, a: Step, b: Step)
    ensures Play(s, [a, b]) == Take(Take(s, a), b)
  {
    assert [a, b][1..] == [b] && [b][1..] == [];
    assert Play(Take(Take(s, a), b), []) == Take(Take(s, a), b);
  }

  lemma Play3(s: State, a: Step, b: Step, c: Step)
    ensures Play(s, [a, b, c]) == Take(Take(Take(s, a), b), c)
  {
    assert [a, b, c][1..] == [b, c];
    Play2(Take(s, a), b, c);
  }

  /** Nothing is going on: two producers and a controller are idle. */
  predicate Quiet(s: State) {
    && 2 <= s.producers < |s.pcs| && s.holder == -1 && !s.q.stopped
    && forall u :: 0 <= u < |s.pcs| ==> s.pcs[u].Idle?
  }

  lemma {:induction false} FillUp(s: State) returns (steps: seq<Step>)
    requires Quiet(s) && |s.q.items| <= s.q.capacity
    ensures var n := Play(s, steps);
            && Quiet(n) && n.producers == s.producers && n.q.dropped == s.q.dropped
            && n.q.capacity == s.q.capacity == |n.q.items|
    decreases s.q.capacity - |s.q.items|
  {
    if HasSlot(s.q) {
      var n := Play(s, Section3(0, Enqueue(0)));
      Play3(s, Invoke(0, Enqueue(0)), Acquire(0), Enter(0));
      var n' := Take(n, Release(0));
      assert Play(n, [Release(0)]) == n';
      PlayAppend(s, Section3(0, Enqueue(0)), [Release(0)]);
      var more := FillUp(n');
      steps := Section3(0, Enqueue(0)) + [Release(0)] + more;
      PlayAppend(s, Section3(0, Enqueue(0)) + [Release(0)], more);
    } else {
      steps := [];
    }
  }

  /** A producer that finds the queue full falls asleep. */
  lemma FallsAsleep(s: State, t: nat)
    requires t < s.producers && t < |s.pcs| && s.pcs[t].Idle? && s.holder == -1 && !MayProceed(s.q)
    requires forall u :: 0 <= u < |s.pcs| ==> !Rearming(s.pcs[u])
    ensures Play(s, Section3(t, Enqueue(0))) == s.(pcs := s.pcs[t := Asleep(0)], called := s.called + [0])
  {
    Play3(s, Invoke(t, Enqueue(0)), Acquire(t), Enter(t));
    assert s.pcs[t := Wanting(Enqueue(0))][t := Inside(Enqueue(0))][t := Asleep(0)] == s.pcs[t := Asleep(0)];
  }

  /** The consumer empties the queue and wakes one sleeper of its choice. */
  lemma DrainWakesOne(s: State, c: nat, w: nat)
    requires s.producers <= c < |s.pcs| && s.pcs[c].Idle? && s.holder == -1 && w < s.producers && s.pcs[w].Asleep?
    ensures var n := Play(s, Section3(c, Drain) + [Release(c), NotifyOne(c, w)]);
            && n.q == s.q.(items := [])
            && n.pcs == s.pcs[w := Awake(s.pcs[w])]
  {
    Play3(s, Invoke(c, Drain), Acquire(c), Enter(c));
    var n := Play(s, Section3(c, Drain));
    assert n.pcs == s.pcs[c := Leaving(Drain)];
    Play2(n, Release(c), NotifyOne(c, w));
    PlayAppend(s, Section3(c, Drain), [Release(c), NotifyOne(c, w)]);
  }

  /** The queue is full, two producers fall asleep, the consumer drains: it notifies one,
      and the other sleeps on beside a queue of free slots. */
  lemma TwoSleepersLose(full: State) returns (steps: seq<Step>)
    requires Quiet(full) && |full.q.items| == full.q.capacity > 0
    ensures !NoLostWakeup(Play(full, steps))
  {
    hide Play, Take, NoLostWakeup;
    FallsAsleep(full, 0);
    var one := Play(full, Section3(0, Enqueue(0)));
    FallsAsleep(one, 1);
    var two := Play(one, Section3(1, Enqueue(0)));
    var c := full.producers;
    var drain := Section3(c, Drain) + [Release(c), NotifyOne(c, 0)];
    DrainWakesOne(two, c, 0);
    steps := Section3(0, Enqueue(0)) + (Section3(1, Enqueue(0)) + drain);
    PlayAppend(one, Section3(1, Enqueue(0)), drain);
    PlayAppend(full, Section3(0, Enqueue(0)), Section3(1, Enqueue(0)) + drain);
    Stranded(Play(full, steps), 1);
  }

  lemma TwoProducersLose(s: State) returns (steps: seq<Step>)
    requires Quiet(s) && |s.q.items| <= s.q.capacity && s.q.capacity > 0
    ensures !NoLostWakeup(Play(s, steps))
  {
    var fill := FillUp(s);
    var lose := TwoSleepersLose(Play(s, fill));
    PlayAppend(s, fill, lose);
    steps := fill + lose;
  }

  lemma Stranded(s: State, t: nat)
    requires t < |s.pcs| && s.pcs[t].Asleep? && MayProceed(s.q)
    requires forall u :: 0 <= u < |s.pcs| ==> !WillNotify(s.pcs[u])
    ensures !NoLostWakeup(s)
  {
  }

  /** `DrainAll` notifies one waiter only: no interleaving loses a wakeup exactly when at
      most one thread enqueues. */
  lemma WakeupsIffOneProducer(capacity: nat, producers: nat, controllers: nat)
    requires controllers > 0
    ensures (forall steps :: NoLostWakeup(Play(Start(capacity, producers, controllers), steps))) <==> producers <= 1
  {
    var s := Start(capacity, producers, controllers);
    StartSafe(capacity, producers, controllers);
    if producers <= 1 {
      forall steps ensures NoLostWakeup(Play(s, steps)) {
        PlayWakes(s, steps);
      }
    } else {
      var steps := TwoProducersLose(s);
    }
  }

  /** `NotifyStop`, undisturbed: the stop is set and every sleeper is awake, the queue's
      batches stay. */
  lemma NotifyStopWakesAll(s: State, c: nat)
    requires s.producers <= c < |s.pcs| && s.pcs[c].Idle? && s.holder == -1
    ensures var n := Play(s, Section3(c, Stop) + [Release(c), NotifyAll(c)]);
            && n.q == s.q.(stopped := true) && n.holder == -1 && n.producers == s.producers
            && n.pcs == AllAwake(s.pcs) && NoneAsleep(n.pcs)
  {
    Play3(s, Invoke(c, Stop), Acquire(c), Enter(c));
    var n := Play(s, Section3(c, Stop));
    assert n.pcs == s.pcs[c := Leaving(Stop)];
    Play2(n, Release(c), NotifyAll(c));
    PlayAppend(s, Section3(c, Stop), [Release(c), NotifyAll(c)]);
    assert AllAwake(s.pcs[c := Notifying(true)])[c := Idle] == AllAwake(s.pcs);
  }

  /** `Reset`, undisturbed, leaves the queue as newly made. */
  lemma ResetIsFresh(s: State, c: nat)
    requires s.producers <= c < |s.pcs| && s.pcs[c].Idle? && s.holder == -1 && !Busy(s) && s.q.capacity > 0
    ensures var n := Play(s, Section3(c, Rearm) + [Release(c)]);
            && n.q == Fresh(s.q.capacity) && n.q.items == [] && !n.q.stopped && n.q.dropped == 0
            && n.q.capacity == s.q.capacity
            && n.pcs == s.pcs && n.holder == -1 && n.producers == s.producers
            && n.called == [] && n.log == [] && n.drained == []
  {
    Play3(s, Invoke(c, Rearm), Acquire(c), Enter(c));
    var n := Play(s, Section3(c, Rearm));
    assert n.pcs == s.pcs[c := Leaving(Rearm)];
    assert Play(n, [Release(c)]) == Take(n, Release(c)) by {
      assert [Release(c)][1..] == [];
    }
    PlayAppend(s, Section3(c, Rearm), [Release(c)]);
  }

  /** After a stop and a reset the queue blocks again: filled up, it sends the next producer to
      sleep and drops nothing. */
  lemma StopAndResetBlocks(s: State) returns (steps: seq<Step>)
    requires Quiet(s) && 0 < s.q.capacity
    ensures var n := Play(s, steps);
            && 0 < |n.pcs| && n.pcs[0].Asleep? && |n.q.items| == n.q.capacity == s.q.capacity && n.q.dropped == 0
  {
    hide Play, Take;
    var c := s.producers;
    var stop, reset := Section3(c, Stop) + [Release(c), NotifyAll(c)], Section3(c, Rearm) + [Release(c)];
    NotifyStopWakesAll(s, c);
    var stopped := Play(s, stop);
    ResetIsFresh(stopped, c);
    var anew := Play(stopped, reset);
    var fill := FillUp(anew);
    var full := Play(anew, fill);
    FallsAsleep(full, 0);
    var call := Section3(0, Enqueue(0));
    steps := stop + (reset + (fill + call));
    PlayAppend(anew, fill, call);
    PlayAppend(stopped, reset, fill + call);
    PlayAppend(s, stop, reset + (fill + call));
  }

  /** The section that a step runs sets the flag, clears it or leaves it. */
  function StopAfter(s: State, e: Step, before: bool): bool {
    if Enabled(s, e) && e.Enter? && s.pcs[e.t].call.Stop? then true
    else if Enabled(s, e) && e.Enter? && s.pcs[e.t].call.Rearm? then false
    else before
  }

  /** Has a `Stop` section run since the last `Rearm` section? */
  function StopRan(s: State, steps: seq<Step>, before: bool): bool
    decreases |steps|
  {
    if steps == [] then before else StopRan(Take(s, steps[0]), steps[1..], StopAfter(s, steps[0], before))
  }

  lemma StopTurn(s: State, e: Step)
    requires Refused(s.log) > 0 ==> s.q.stopped
    ensures var n := Take(s, e); (n.q.stopped <==> StopAfter(s, e, s.q.stopped)) && (Refused(n.log) > 0 ==> n.q.stopped)
  {
    if Enabled(s, e) && e.Enter? && s.pcs[e.t].call.Enqueue? {
      LogTurn(s.log, s.pcs[e.t].call.batch, HasSlot(s.q));
    }
  }

  /** The flag is exactly that, and nothing is refused without it. */
  lemma {:induction false} StoppedIffStopRan(s: State, steps: seq<Step>)
    requires Refused(s.log) > 0 ==> s.q.stopped
    ensures var n := Play(s, steps);
            && (n.q.stopped <==> StopRan(s, steps, s.q.stopped))
            && (Refused(n.log) > 0 ==> n.q.stopped)
    decreases |steps|
  {
    if steps != [] {
      hide Take, StopAfter, Refused;
      StopTurn(s, steps[0]);
      StoppedIffStopRan(Take(s, steps[0]), steps[1..]);
    }
  }

  /** In every run a batch of the session is refused only if a stop came in the session. */
  lemma RefusedOnlyAfterStop(capacity: nat, producers: nat, controllers: nat, steps: seq<Step>)
    ensures var s := Play(Start(capacity, producers, controllers), steps);
            && (s.q.stopped <==> StopRan(Start(capacity, producers, controllers), steps, false))
            && (s.q.dropped > 0 ==> StopRan(Start(capacity, producers, controllers), steps, false))
            && (forall i :: 0 <= i < |s.log| && !s.log[i].1 ==>
                  StopRan(Start(capacity, producers, controllers), steps, false))
  {
    var start := Start(capacity, producers, controllers);
    StartSafe(capacity, producers, controllers);
    PlaySafe(start, steps);
    StoppedIffStopRan(start, steps);
    var s := Play(start, steps);
    forall i | 0 <= i < |s.log| && !s.log[i].1 ensures Refused(s.log) > 0 {
      RefusedCounts(s.log, i);
    }
  }

  lemma {:induction false} RefusedCounts(log: seq<(Batch, bool)>, i: nat)
    requires i < |log| && !log[i].1
    ensures Refused(log) > 0
  {
    if i < |log| - 1 {
      RefusedCounts(log[..|log| - 1], i);
    }
  }

  // ----- After the stop every call returns -----

  /** How many steps the thread has left, once nobody falls asleep any more. */
  function Left(pc: Pc): nat {
    match pc
    case Idle => 0
    case Notifying(_) => 1
    case Leaving(_) => 2
    case Inside(_) => 3
    case Wanting(_) => 4
    case Asleep(_) => 5
  }

  function Rank(pcs: seq<Pc>): nat {
    if pcs == [] then 0 else Left(pcs[0]) + Rank(pcs[1..])
  }

  lemma {:induction false} RankUpdate(pcs: seq<Pc>, t: nat, pc: Pc)
    requires t < |pcs|
    ensures Rank(pcs[t := pc]) == Rank(pcs) - Left(pcs[t]) + Left(pc)
  {
    if t > 0 {
      RankUpdate(pcs[1..], t - 1, pc);
      assert pcs[t := pc][1..] == pcs[1..][t - 1 := pc];
    }
  }

  lemma {:induction false} RankAwake(pcs: seq<Pc>)
    ensures Rank(AllAwake(pcs)) <= Rank(pcs)
  {
    if pcs != [] {
      RankAwake(pcs[1..]);
      assert AllAwake(pcs)[1..] == AllAwake(pcs[1..]);
    }
  }

  /** With the stop set and a producer in a call, every step but a new call brings all
      threads together nearer to their ends, and the stop stays set. */
  lemma StopDecreases(s: State, e: Step)
    requires Safe(s) && s.q.stopped && Busy(s) && Enabled(s, e) && !e.Invoke?
    ensures Rank(Do(s, e).pcs) < Rank(s.pcs) && Do(s, e).q.stopped
  {
    var t := e.t;
    if e.NotifyOne? {
      RankUpdate(s.pcs, t, Idle);
      RankUpdate(s.pcs[t := Idle], e.woken, if e.woken == t then Idle else Awake(s.pcs[e.woken]));
    } else if e.NotifyAll? {
      RankAwake(s.pcs);
      RankUpdate(AllAwake(s.pcs), t, Idle);
    } else {
      RankUpdate(s.pcs, t, Do(s, e).pcs[t]);
    }
  }

  /** Somebody can always go on, without a spurious wakeup and without a new call. */
  lemma StopProgresses(s: State) returns (e: Step)
    requires Safe(s) && s.q.stopped && Busy(s)
    ensures Enabled(s, e) && !e.Invoke? && !e.Spurious?
  {
    var p :| 0 <= p < |s.pcs| && p < s.producers && !s.pcs[p].Idle?;
    if s.holder >= 0 {
      e := if s.pcs[s.holder].Inside? then Enter(s.holder) else Release(s.holder);
    } else if s.pcs[p].Wanting? {
      e := Acquire(p);
    } else {
      assert s.pcs[p].Asleep?;
      var u :| 0 <= u < |s.pcs| && Announced(s.pcs[u]);
      e := NotifyAll(u);
    }
  }

  /** A schedule without new calls. */
  predicate Schedule(s: State, steps: seq<Step>)
    decreases |steps|
  {
    steps == [] || (Enabled(s, steps[0]) && !steps[0].Invoke? && Schedule(Do(s, steps[0]), steps[1..]))
  }

  lemma {:induction false} BusyBefore(s: State, steps: seq<Step>)
    requires Schedule(s, steps) && Busy(Play(s, steps))
    ensures Busy(s) && Play(s, steps).producers == s.producers
    decreases |steps|
  {
    if steps != [] {
      var n := Do(s, steps[0]);
      BusyBefore(n, steps[1..]);
      var p :| 0 <= p < |n.pcs| && p < n.producers && !n.pcs[p].Idle?;
      assert !s.pcs[p].Idle?;
    }
  }

  /** After a stop every `WaitEnqueue` returns: as long as a producer is in a call, some
      thread can go on, and the number of steps taken so far is bounded by the rank at the
      stop, whatever the schedule, sleepers and spurious wakeups included. */
  lemma {:induction false} StopReleasesProducers(s: State, steps: seq<Step>)
    requires Safe(s) && s.q.stopped && Schedule(s, steps) && Busy(Play(s, steps))
    ensures |steps| + Rank(Play(s, steps).pcs) <= Rank(s.pcs)
    ensures exists e :: Enabled(Play(s, steps), e) && !e.Invoke? && !e.Spurious?
    decreases |steps|
  {
    if steps == [] {
      var e := StopProgresses(s);
    } else {
      BusyBefore(s, steps);
      StopDecreases(s, steps[0]);
      PlaySafe(s, [steps[0]]);
      assert Play(s, [steps[0]]) == Take(s, steps[0]);
      StopReleasesProducers(Do(s, steps[0]), steps[1..]);
    }
  }

  /** The producer's call has not returned anywhere in the run. */
  predicate InCallThroughout(s: State, steps: seq<Step>, t: nat)
    decreases |steps|
  {
    && t < |s.pcs| && !s.pcs[t].Idle?
    && (steps != [] ==> InCallThroughout(Take(s, steps[0]), steps[1..], t))
  }

  /** How many of the steps the thread takes itself. */
  function OwnSteps(s: State, steps: seq<Step>, t: nat): nat
    decreases |steps|
  {
    if steps == [] then 0
    else (if Enabled(s, steps[0]) && steps[0].t == t then 1 else 0) + OwnSteps(Take(s, steps[0]), steps[1..], t)
  }

  /** While a producer is in its call, the stop stays set, nobody can bring the call further
      from its end, new calls of others included, and its own steps bring it nearer. */
  lemma StopBringsNearer(s: State, e: Step, t: nat)
    requires Safe(s) && s.q.stopped && t < |s.pcs| && t < s.producers && !s.pcs[t].Idle? && Enabled(s, e)
    ensures Do(s, e).q.stopped && t < |Do(s, e).pcs|
    ensures Left(Do(s, e).pcs[t]) <= Left(s.pcs[t]) - if e.t == t then 1 else 0
  {
    if e.Enter? {
      assert !Rearming(s.pcs[e.t]);
    }
  }

  /** After a stop a producer's call returns within five steps of its own, whatever the other
      threads do meanwhile, new calls and spurious wakeups included; and until it returns
      some thread can go on without a new call or a spurious wakeup. */
  lemma {:induction false} StopBoundsCall(s: State, steps: seq<Step>, t: nat)
    requires Safe(s) && s.q.stopped && t < s.producers && InCallThroughout(s, steps, t)
    ensures var n := Play(s, steps);
            && t < |n.pcs| && n.q.stopped && Safe(n)
            && OwnSteps(s, steps, t) + Left(n.pcs[t]) <= Left(s.pcs[t]) <= 5
    ensures exists e :: Enabled(Play(s, steps), e) && !e.Invoke? && !e.Spurious?
    decreases |steps|
  {
    if steps == [] {
      assert Busy(s);
      var e := StopProgresses(s);
    } else {
      var n := Take(s, steps[0]);
      PlaySafe(s, [steps[0]]);
      assert Play(s, [steps[0]]) == n;
      if Enabled(s, steps[0]) {
        StopBringsNearer(s, steps[0], t);
      }
      StopBoundsCall(n, steps[1..], t);
    }
  }

  /** The stop alone makes no call fail: a call that finds a free slot is accepted, stopped
      or not, so a stopped queue refuses exactly while it is full. */
  lemma StoppedRefusesIffFull(s: State, t: nat)
    requires Safe(s) && s.q.stopped && t < |s.pcs| && s.pcs[t].Inside? && s.pcs[t].call.Enqueue?
    ensures var n, b := Do(s, Enter(t)), s.pcs[t].call.batch;
            && n.pcs[t] == Leaving(Enqueue(b))
            && n.log == s.log + [(b, |s.q.items| != s.q.capacity)]
            && Accepted(n.log) == Accepted(s.log) + if |s.q.items| == s.q.capacity then [] else [b]
  {
    LogTurn(s.log, s.pcs[t].call.batch, HasSlot(s.q));
  }
}
