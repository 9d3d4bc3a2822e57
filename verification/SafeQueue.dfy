/**
  The bounded blocking queue between the Kafka consumer thread and the database writer thread.

  `SafeQueue` is the code under its mutex. `QueueProtocol` interleaves any number of threads
  inside `push` and `pop`: the mutex, two condition variables, `notify_one` issued after the
  mutex was released, and spurious wake-ups.
 */
module SafeQueue {
  import opened Bytes

  class SafeQueue<T> {
    var queueToSave: seq<T>
    const maxQueueSize: nat

    constructor (maxSize: nat)
      ensures queueToSave == [] && maxQueueSize == maxSize
    {
      queueToSave := [];
      maxQueueSize := maxSize;
    }

    /** One pass of `push` with the mutex held: false when the wait predicate sends it to sleep. */
    method Push(item: T) returns (done: bool)
      modifies this
      ensures done <==> HasRoom(old(queueToSave), maxQueueSize)
      ensures queueToSave == if done then old(queueToSave) + [item] else old(queueToSave)
    {
      done := |queueToSave| < maxQueueSize;
      if done {
        queueToSave := queueToSave + [item];
      }
    }

    /** One pass of `pop` with the mutex held: nothing when the queue is empty. */
    method Pop() returns (value: Option<T>)
      modifies this
      ensures value.Some? <==> old(queueToSave) != []
      ensures old(queueToSave) == (if value.Some? then [value.value] else []) + queueToSave
    {
      if |queueToSave| == 0 {
        return None;
      }
      value := Some(queueToSave[0]);
      queueToSave := queueToSave[1..];
    }
  }

  predicate HasRoom<T>(queue: seq<T>, max: nat) {
    |queue| < max
  }
}

/** Threads inside `push` and `pop`, interleaved. */
module QueueProtocol {
  import opened Bytes
  import SafeQueue

  datatype Role = Pusher | Popper

  datatype Pc =
    | Idle                    // outside the queue
    | Entering                // at the lock, before the first test of the predicate
    | Holding(woken: bool)    // owns the mutex, about to test; woken: it has slept before
    | Asleep                  // in `wait`, the mutex released
    | Woken                   // left `wait`, at the lock again
    | Notifying               // done and unlocked, about to call `notify_one`

  /** `item` is what a pusher brings, or what a popper carries away. */
  datatype Thread<T> = Thread(role: Role, pc: Pc, item: Option<T>)

  datatype State<T> = State(
    queue: seq<T>, max: nat, owner: Option<nat>, threads: seq<Thread<T>>,
    offered: seq<T>,   // items handed to `push`, in the order of the calls
    pushed: seq<T>,    // items appended, in the order of lock ownership
    popped: seq<T>)    // items removed, in the order of lock ownership

  datatype Step<T> =
    | CallPush(t: nat, item: T)
    | CallPop(t: nat)
    | Lock(t: nat)
    | Test(t: nat)                         // the predicate holds: the operation and the unlock; else sleep
    | Notify(t: nat, woken: Option<nat>)   // wakes one sleeper of the other kind, if there is one
    | Spurious(t: nat)

  function Init<T>(roles: seq<Role>, max: nat): State<T> {
    State([], max, None, seq(|roles|, i requires 0 <= i < |roles| => Thread(roles[i], Idle, None)), [], [], [])
  }

  function Other(role: Role): Role {
    if role == Pusher then Popper else Pusher
  }

  predicate Sleeps<T>(thread: Thread<T>, role: Role) {
    thread.role == role && thread.pc == Asleep
  }

  predicate CanProceed<T>(s: State<T>, role: Role) {
    match role
    case Pusher => SafeQueue.HasRoom(s.queue, s.max)
    case Popper => s.queue != []
  }

  ghost predicate Enabled<T>(s: State<T>, step: Step<T>) {
    && step.t < |s.threads|
    && var thread := s.threads[step.t];
       match step
       case CallPush(_, _) => thread.role == Pusher && thread.pc == Idle
       case CallPop(_) => thread.role == Popper && thread.pc == Idle
       case Lock(_) => thread.pc in {Entering, Woken} && s.owner == None
       case Test(t) => thread.pc.Holding? && s.owner == Some(t) && (thread.role == Pusher ==> thread.item.Some?)
       case Spurious(_) => thread.pc == Asleep
       case Notify(_, None) =>
         thread.pc == Notifying && forall u: nat | u < |s.threads| :: !Sleeps(s.threads[u], Other(thread.role))
       case Notify(_, Some(u)) =>
         thread.pc == Notifying && u < |s.threads| && Sleeps(s.threads[u], Other(thread.role))
  }

  function Moved<T>(s: State<T>, t: nat, pc: Pc): seq<Thread<T>>
    requires t < |s.threads|
  {
    s.threads[t := s.threads[t].(pc := pc)]
  }

  ghost function Apply<T>(s: State<T>, step: Step<T>): State<T>
    requires Enabled(s, step)
  {
    match step
    case CallPush(t, item) =>
      s.(threads := s.threads[t := Thread(Pusher, Entering, Some(item))], offered := s.offered + [item])
    case CallPop(t) => s.(threads := s.threads[t := Thread(Popper, Entering, None)])
    case Lock(t) => s.(threads := Moved(s, t, Holding(s.threads[t].pc == Woken)), owner := Some(t))
    case Test(t) =>
      if !CanProceed(s, s.threads[t].role) then s.(threads := Moved(s, t, Asleep), owner := None)
      else if s.threads[t].role == Pusher then
        var item := s.threads[t].item.value;
        s.(queue := s.queue + [item], pushed := s.pushed + [item], threads := Moved(s, t, Notifying), owner := None)
      else
        var item := s.queue[0];
        s.(queue := s.queue[1..], popped := s.popped + [item],
           threads := s.threads[t := Thread(Popper, Notifying, Some(item))], owner := None)
    case Notify(t, None) => s.(threads := Moved(s, t, Idle))
    case Notify(t, Some(u)) => s.(threads := Moved(s, t, Idle)[u := s.threads[u].(pc := Woken)])
    case Spurious(t) => s.(threads := Moved(s, t, Woken))
  }

  ghost predicate Run<T>(s: State<T>, steps: seq<Step<T>>)
    decreases |steps|
  {
    steps == [] || (Enabled(s, steps[0]) && Run(Apply(s, steps[0]), steps[1..]))
  }

  ghost function After<T>(s: State<T>, steps: seq<Step<T>>): State<T>
    requires Run(s, steps)
    decreases |steps|
  {
    if steps == [] then s else After(Apply(s, steps[0]), steps[1..])
  }

  // ----- Counting threads -----

  function Sum<A>(xs: seq<A>, weight: A -> nat): nat {
    if xs == [] then 0 else weight(xs[0]) + Sum(xs[1..], weight)
  }

  lemma {:induction false} SumUpdate<A>(xs: seq<A>, i: nat, x: A, weight: A -> nat)
    requires i < |xs|
    ensures Sum(xs[i := x], weight) == Sum(xs, weight) - weight(xs[i]) + weight(x)
    decreases |xs|
  {
    if i == 0 {
      assert xs[i := x][1..] == xs[1..];
    } else {
      assert xs[i := x][1..] == xs[1..][i - 1 := x];
      SumUpdate(xs[1..], i - 1, x, weight);
    }
  }

  lemma {:induction false} SumZero<A>(xs: seq<A>, weight: A -> nat)
    requires forall x | x in xs :: weight(x) == 0
    ensures Sum(xs, weight) == 0
    decreases |xs|
  {
    if xs != [] {
      assert xs[0] in xs;
      SumZero(xs[1..], weight);
    }
  }

  /**
    A thread that will see to the sleepers of `role`: one of the other kind that still has to
    notify, or one of their own kind that was woken and has not tested again.
   */
  function Credit<T>(thread: Thread<T>, role: Role): nat {
    if thread.role == role then (if thread.pc == Woken || thread.pc == Holding(true) then 1 else 0)
    else if thread.pc == Notifying then 1
    else 0
  }

  function Credits<T>(s: State<T>, role: Role): nat {
    Sum(s.threads, (thread: Thread<T>) => Credit(thread, role))
  }

  /** What a sleeper of `role` waits for: elements for a popper, free slots for a pusher. */
  function Supply<T>(s: State<T>, role: Role): int {
    match role
    case Popper => |s.queue|
    case Pusher => s.max - |s.queue|
  }

  ghost predicate SomeoneSleeps<T>(s: State<T>, role: Role) {
    exists u: nat | u < |s.threads| :: Sleeps(s.threads[u], role)
  }

  ghost predicate SleepersCovered<T>(s: State<T>, role: Role) {
    SomeoneSleeps(s, role) ==> Supply(s, role) <= Credits(s, role)
  }

  ghost predicate Inv<T>(s: State<T>) {
    && s.popped + s.queue == s.pushed
    && |s.queue| <= s.max
    && (forall u: nat | u < |s.threads| :: s.threads[u].pc.Holding? <==> s.owner == Some(u))
    && (s.owner.Some? ==> s.owner.value < |s.threads|)
    && (forall u: nat | u < |s.threads| && s.threads[u].role == Pusher && s.threads[u].pc != Idle ::
          s.threads[u].item.Some?)
    && SleepersCovered(s, Pusher)
    && SleepersCovered(s, Popper)
  }

  lemma CreditsUpdate<T>(s: State<T>, t: nat, thread: Thread<T>, role: Role)
    requires t < |s.threads|
    ensures Credits(s.(threads := s.threads[t := thread]), role)
         == Credits(s, role) - Credit(s.threads[t], role) + Credit(thread, role)
  {
    SumUpdate(s.threads, t, thread, (x: Thread<T>) => Credit(x, role));
  }

  lemma InvInit<T>(roles: seq<Role>, max: nat)
    ensures Inv(Init<T>(roles, max))
  {
  }

  lemma CoveredByNotify<T>(s: State<T>, t: nat, u: Option<nat>, role: Role)
    requires Inv(s) && Enabled(s, Notify(t, u))
    ensures SleepersCovered(Apply(s, Notify(t, u)), role)
  {
    var s' := Apply(s, Notify(t, u));
    var mid := s.(threads := Moved(s, t, Idle));
    CreditsUpdate(s, t, s.threads[t].(pc := Idle), role);
    if u.Some? {
      CreditsUpdate(mid, u.value, s.threads[u.value].(pc := Woken), role);
      assert s' == mid.(threads := mid.threads[u.value := s.threads[u.value].(pc := Woken)]);
    }
    if SomeoneSleeps(s', role) {
      var v: nat :| v < |s'.threads| && Sleeps(s'.threads[v], role);
      assert Sleeps(s.threads[v], role);
    }
  }

  lemma CoveredByOthers<T>(s: State<T>, step: Step<T>, role: Role)
    requires Inv(s) && Enabled(s, step) && !step.Notify?
    ensures SleepersCovered(Apply(s, step), role)
  {
    var s' := Apply(s, step);
    var t := step.t;
    assert s'.threads == s.threads[t := s'.threads[t]];
    CreditsUpdate(s, t, s'.threads[t], role);
    assert Credits(s', role) == Credits(s.(threads := s'.threads), role);
    if SomeoneSleeps(s', role) {
      var v: nat :| v < |s'.threads| && Sleeps(s'.threads[v], role);
      assert v != t ==> Sleeps(s.threads[v], role);
    }
  }

  lemma InvStep<T>(s: State<T>, step: Step<T>)
    requires Inv(s) && Enabled(s, step)
    ensures Inv(Apply(s, step))
  {
    if step.Notify? {
      CoveredByNotify(s, step.t, step.woken, Pusher);
      CoveredByNotify(s, step.t, step.woken, Popper);
    } else {
      CoveredByOthers(s, step, Pusher);
      CoveredByOthers(s, step, Popper);
    }
    QueueStep(s, step);
  }

  lemma QueueStep<T>(s: State<T>, step: Step<T>)
    requires s.popped + s.queue == s.pushed && |s.queue| <= s.max && Enabled(s, step)
    ensures var s' := Apply(s, step); s'.popped + s'.queue == s'.pushed && |s'.queue| <= s'.max
  {
    var s' := Apply(s, step);
    if step.Test? && CanProceed(s, s.threads[step.t].role) {
      if s.threads[step.t].role == Pusher {
        assert s.popped + (s.queue + s'.queue[|s.queue|..]) == (s.popped + s.queue) + s'.queue[|s.queue|..];
      } else {
        assert s.queue == [s.queue[0]] + s.queue[1..];
        assert (s.popped + [s.queue[0]]) + s.queue[1..] == s.popped + ([s.queue[0]] + s.queue[1..]);
      }
    }
  }

  lemma {:induction false} InvRun<T>(s: State<T>, steps: seq<Step<T>>)
    requires Inv(s) && Run(s, steps)
    ensures Inv(After(s, steps))
    decreases |steps|
  {
    if steps != [] {
      InvStep(s, steps[0]);
      InvRun(Apply(s, steps[0]), steps[1..]);
    }
  }

  // ----- What every reachable state satisfies -----

  ghost predicate Reachable<T>(s: State<T>, roles: seq<Role>, max: nat, steps: seq<Step<T>>) {
    Run(Init<T>(roles, max), steps) && s == After(Init<T>(roles, max), steps)
  }

  /**
    First in, first out, under every interleaving: what was popped, followed by what is still
    queued, is what was pushed, and the queue never outgrows its bound.
   */
  lemma QueueIsFifo<T>(s: State<T>, roles: seq<Role>, max: nat, steps: seq<Step<T>>)
    requires Reachable(s, roles, max, steps)
    ensures s.popped + s.queue == s.pushed
    ensures |s.queue| <= s.max
  {
    InvInit<T>(roles, max);
    InvRun(Init<T>(roles, max), steps);
  }

  /**
    No lost wake-up: while a popper sleeps there are no more elements than pushers about to notify
    and poppers already woken; while a pusher sleeps, no more free slots than their counterparts.
   */
  lemma NoLostWakeup<T>(s: State<T>, roles: seq<Role>, max: nat, steps: seq<Step<T>>)
    requires Reachable(s, roles, max, steps)
    ensures SomeoneSleeps(s, Popper) ==> |s.queue| <= Credits(s, Popper)
    ensures SomeoneSleeps(s, Pusher) ==> s.max - |s.queue| <= Credits(s, Pusher)
  {
    InvInit<T>(roles, max);
    InvRun(Init<T>(roles, max), steps);
  }

  // ----- Coming to rest -----

  /** A step a thread takes by itself: no new call from outside, no spurious wake-up. */
  predicate Internal<T>(step: Step<T>) {
    step.Lock? || step.Test? || step.Notify?
  }

  ghost predicate AtRest<T(!new)>(s: State<T>) {
    forall step: Step<T> | Internal(step) :: !Enabled(s, step)
  }

  /** A thread inside the queue that is not asleep never leaves the whole system stuck. */
  lemma SomeStepIsEnabled<T>(s: State<T>, t: nat) returns (step: Step<T>)
    requires Inv(s) && t < |s.threads| && s.threads[t].pc !in {Idle, Asleep}
    ensures Internal(step) && Enabled(s, step)
  {
    if s.owner.Some? {
      step := Test(s.owner.value);
    } else if s.threads[t].pc == Notifying {
      if u: nat :| u < |s.threads| && Sleeps(s.threads[u], Other(s.threads[t].role)) {
        step := Notify(t, Some(u));
      } else {
        step := Notify(t, None);
      }
    } else {
      step := Lock(t);
    }
  }

  lemma RestMeansIdleOrAsleep<T(!new)>(s: State<T>, t: nat)
    requires Inv(s) && AtRest(s) && t < |s.threads|
    ensures s.threads[t].pc in {Idle, Asleep}
  {
    if s.threads[t].pc !in {Idle, Asleep} {
      var step := SomeStepIsEnabled(s, t);
      assert false;
    }
  }

  lemma RestHasNoCredits<T(!new)>(s: State<T>, role: Role)
    requires Inv(s) && AtRest(s)
    ensures Credits(s, role) == 0
  {
    forall thread | thread in s.threads
      ensures Credit(thread, role) == 0
    {
      var t: nat :| t < |s.threads| && s.threads[t] == thread;
      RestMeansIdleOrAsleep(s, t);
    }
    SumZero(s.threads, (thread: Thread<T>) => Credit(thread, role));
  }

  /**
    Whenever no thread can move, a popper sleeps only on an empty queue and a pusher only on a full
    one; the two kinds can sleep at the same time only if the capacity is zero.
   */
  lemma RestIsJustified<T(!new)>(s: State<T>, roles: seq<Role>, max: nat, steps: seq<Step<T>>)
    requires Reachable(s, roles, max, steps) && AtRest(s)
    ensures SomeoneSleeps(s, Popper) ==> s.queue == []
    ensures SomeoneSleeps(s, Pusher) ==> |s.queue| == s.max
    ensures SomeoneSleeps(s, Popper) && SomeoneSleeps(s, Pusher) ==> s.max == 0
    ensures forall t: nat | t < |s.threads| :: s.threads[t].pc in {Idle, Asleep}
  {
    InvInit<T>(roles, max);
    InvRun(Init<T>(roles, max), steps);
    RestHasNoCredits(s, Popper);
    RestHasNoCredits(s, Pusher);
    forall t: nat | t < |s.threads| ensures s.threads[t].pc in {Idle, Asleep} {
      RestMeansIdleOrAsleep(s, t);
    }
  }

  /** How many internal steps a thread can still cause. */
  function Effort<T>(thread: Thread<T>): nat {
    match thread.pc
    case Idle => 0
    case Asleep => 3
    case Notifying => 3
    case Holding(_) => 4
    case Entering => 5
    case Woken => 5
  }

  function Efforts<T>(s: State<T>): nat {
    Sum(s.threads, (thread: Thread<T>) => Effort(thread))
  }

  lemma EffortStep<T>(s: State<T>, step: Step<T>)
    requires Enabled(s, step) && Internal(step)
    ensures Efforts(Apply(s, step)) < Efforts(s)
  {
    var s' := Apply(s, step);
    var weight := (thread: Thread<T>) => Effort(thread);
    if step.Notify? && step.woken.Some? {
      var mid := Moved(s, step.t, Idle);
      SumUpdate(s.threads, step.t, s.threads[step.t].(pc := Idle), weight);
      SumUpdate(mid, step.woken.value, mid[step.woken.value].(pc := Woken), weight);
      assert mid[step.woken.value] == s.threads[step.woken.value];
    } else {
      assert s'.threads == s.threads[step.t := s'.threads[step.t]];
      SumUpdate(s.threads, step.t, s'.threads[step.t], weight);
    }
  }

  /**
    Left alone, the threads come to rest: from any state there are at most `Efforts` internal steps,
    however they are scheduled. With `RestIsJustified`, every wake-up that was owed is delivered.
   */
  lemma {:induction false} ComesToRest<T>(s: State<T>, steps: seq<Step<T>>)
    requires Run(s, steps) && forall step | step in steps :: Internal(step)
    ensures |steps| + Efforts(After(s, steps)) <= Efforts(s)
    decreases |steps|
  {
    if steps != [] {
      assert steps[0] in steps;
      EffortStep(s, steps[0]);
      ComesToRest(Apply(s, steps[0]), steps[1..]);
    }
  }

  // ----- What the callers bring and get -----

  /** A popper that finds an element leaves with the front one, and only that one is gone. */
  lemma PopperTakesFront<T>(s: State<T>, t: nat)
    requires Enabled(s, Test(t)) && s.threads[t].role == Popper && s.queue != []
    ensures var s' := Apply(s, Test(t));
            && s'.threads[t].item.Some? && s'.threads[t].item.value == s.queue[0]
            && s'.popped == s.popped + [s'.threads[t].item.value]
            && s.queue == [s'.threads[t].item.value] + s'.queue
  {
  }

  /** What a popper carries from its test of the predicate to the end of its call. */
  function InHand<T>(thread: Thread<T>): seq<T> {
    if thread.role == Popper && thread.pc == Notifying && thread.item.Some? then [thread.item.value] else []
  }

  /** What thread `t` comes to carry by this step. */
  ghost function PickedUp<T>(s: State<T>, step: Step<T>, t: nat): seq<T>
    requires Enabled(s, step)
  {
    if step == Test(t) then InHand(Apply(s, step).threads[t]) else []
  }

  /** What the call of `pop` that ends with this step returns to thread `t`. */
  ghost function HandedBack<T>(s: State<T>, step: Step<T>, t: nat): seq<T>
    requires Enabled(s, step)
  {
    if step.Notify? && step.t == t && s.threads[t].role == Popper && s.threads[t].item.Some?
    then [Apply(s, step).threads[t].item.value] else []
  }

  /** What all poppers have carried away in a run, in the order in which they held the mutex. */
  ghost function Carried<T>(s: State<T>, steps: seq<Step<T>>): seq<T>
    requires Run(s, steps)
    decreases |steps|
  {
    if steps == [] then [] else PickedUp(s, steps[0], steps[0].t) + Carried(Apply(s, steps[0]), steps[1..])
  }

  /** What one thread has carried away. */
  ghost function CarriedBy<T>(s: State<T>, steps: seq<Step<T>>, t: nat): seq<T>
    requires Run(s, steps)
    decreases |steps|
  {
    if steps == [] then [] else PickedUp(s, steps[0], t) + CarriedBy(Apply(s, steps[0]), steps[1..], t)
  }

  /** What the calls of `pop` have returned to one thread. */
  ghost function Returned<T>(s: State<T>, steps: seq<Step<T>>, t: nat): seq<T>
    requires Run(s, steps)
    decreases |steps|
  {
    if steps == [] then [] else HandedBack(s, steps[0], t) + Returned(Apply(s, steps[0]), steps[1..], t)
  }

  /** Over every run, what the poppers carry away is what leaves the queue. */
  lemma {:induction false} CarriedIsPopped<T>(s: State<T>, steps: seq<Step<T>>)
    requires Run(s, steps)
    ensures After(s, steps).popped == s.popped + Carried(s, steps)
    decreases |steps|
  {
    if steps == [] {
      assert s.popped + [] == s.popped;
    } else {
      hide Apply, Enabled, PickedUp;
      PickedUpIsPopped(s, steps[0]);
      CarriedIsPopped(Apply(s, steps[0]), steps[1..]);
      Associated(s.popped, PickedUp(s, steps[0], steps[0].t), Carried(Apply(s, steps[0]), steps[1..]));
    }
  }

  lemma Associated<T>(a: seq<T>, b: seq<T>, c: seq<T>)
    ensures a + (b + c) == a + b + c
  {
  }

  lemma PickedUpIsPopped<T>(s: State<T>, step: Step<T>)
    requires Enabled(s, step)
    ensures Apply(s, step).popped == s.popped + PickedUp(s, step, step.t)
  {
    assert s.popped + [] == s.popped;
  }

  lemma HandStep<T>(s: State<T>, step: Step<T>, t: nat)
    requires Enabled(s, step) && t < |s.threads|
    ensures InHand(s.threads[t]) + PickedUp(s, step, t) == HandedBack(s, step, t) + InHand(Apply(s, step).threads[t])
  {
  }

  /** Over every run, the calls of a popper return what it has carried away, but for the one under way. */
  lemma {:induction false} ReturnedIsCarried<T>(s: State<T>, steps: seq<Step<T>>, t: nat)
    requires Run(s, steps) && t < |s.threads|
    ensures t < |After(s, steps).threads|
    ensures InHand(s.threads[t]) + CarriedBy(s, steps, t) == Returned(s, steps, t) + InHand(After(s, steps).threads[t])
    decreases |steps|
  {
    if steps == [] {
      assert InHand(s.threads[t]) + [] == [] + InHand(s.threads[t]);
    } else {
      var s', rest := Apply(s, steps[0]), steps[1..];
      assert |s'.threads| == |s.threads|;
      HandStep(s, steps[0], t);
      ReturnedIsCarried(s', rest, t);
      hide Apply, Enabled, PickedUp, HandedBack, InHand, After;
      Regrouped(InHand(s.threads[t]), PickedUp(s, steps[0], t), HandedBack(s, steps[0], t), InHand(s'.threads[t]),
        CarriedBy(s', rest, t), Returned(s', rest, t), InHand(After(s', rest).threads[t]));
    }
  }

  lemma Regrouped<T>(a: seq<T>, b: seq<T>, c: seq<T>, d: seq<T>, e: seq<T>, f: seq<T>, g: seq<T>)
    requires a + b == c + d && d + e == f + g
    ensures a + (b + e) == (c + f) + g
  {
    assert a + (b + e) == (a + b) + e == c + (d + e) == c + (f + g);
  }

  lemma {:induction false} OneCarries<T>(s: State<T>, steps: seq<Step<T>>, w: nat)
    requires Run(s, steps) && forall t: nat | t < |s.threads| :: s.threads[t].role == Popper <==> t == w
    ensures CarriedBy(s, steps, w) == Carried(s, steps)
    decreases |steps|
  {
    if steps != [] {
      OneCarries(Apply(s, steps[0]), steps[1..], w);
    }
  }

  /** A single popper has been returned what left the queue, but for what it carries at the moment. */
  lemma ReturnedIsPopped<T>(s: State<T>, roles: seq<Role>, max: nat, w: nat, steps: seq<Step<T>>)
    requires Reachable(s, roles, max, steps)
    requires w < |roles| && forall t: nat | t < |roles| :: roles[t] == Popper <==> t == w
    ensures w < |s.threads| && s.popped == Returned(Init<T>(roles, max), steps, w) + InHand(s.threads[w])
  {
    var init := Init<T>(roles, max);
    assert InHand(init.threads[w]) == [] && init.popped == [];
    assert [] + CarriedBy(init, steps, w) == CarriedBy(init, steps, w);
    CarriedIsPopped(init, steps);
    ReturnedIsCarried(init, steps, w);
    OneCarries(init, steps, w);
  }

  // ----- One pusher, as in the consumer -----

  ghost predicate SinglePusher<T>(s: State<T>, p: nat) {
    p < |s.threads| && forall t: nat | t < |s.threads| :: s.threads[t].role == Pusher <==> t == p
  }

  /** The item the pusher has been handed but not yet appended. */
  function InFlight<T>(thread: Thread<T>): seq<T> {
    if thread.pc in {Idle, Notifying} || thread.item == None then [] else [thread.item.value]
  }

  ghost predicate InOrder<T>(s: State<T>, p: nat) {
    SinglePusher(s, p) && s.offered == s.pushed + InFlight(s.threads[p])
  }

  lemma InOrderStep<T>(s: State<T>, p: nat, step: Step<T>)
    requires Inv(s) && Enabled(s, step) && InOrder(s, p)
    ensures InOrder(Apply(s, step), p)
  {
    var s' := Apply(s, step);
    if step.t == p {
      assert s.pushed + [] == s.pushed;
    }
  }

  lemma {:induction false} InOrderRun<T>(s: State<T>, p: nat, steps: seq<Step<T>>)
    requires Inv(s) && Run(s, steps) && InOrder(s, p)
    ensures Inv(After(s, steps)) && InOrder(After(s, steps), p)
    decreases |steps|
  {
    if steps != [] {
      InvStep(s, steps[0]);
      InOrderStep(s, p, steps[0]);
      InOrderRun(Apply(s, steps[0]), p, steps[1..]);
    }
  }

  /**
    With a single pushing thread the items leave the queue in the order in which they were handed
    to `push`: what was popped is a prefix of what was offered, in every reachable state.
   */
  lemma PoppedIsPrefixOfOffered<T>(s: State<T>, roles: seq<Role>, max: nat, p: nat, steps: seq<Step<T>>)
    requires Reachable(s, roles, max, steps)
    requires p < |roles| && forall t: nat | t < |roles| :: roles[t] == Pusher <==> t == p
    ensures s.popped <= s.pushed <= s.offered
  {
    var init := Init<T>(roles, max);
    InvInit<T>(roles, max);
    assert InOrder(init, p);
    InOrderRun(init, p, steps);
  }

  // ----- Any number of pushers -----

  /** What thread `t` is called with by this step. */
  ghost function Offers<T>(step: Step<T>, t: nat): seq<T> {
    if step.CallPush? && step.t == t then [step.item] else []
  }

  /** What this step of thread `t` puts at the end of the queue. */
  ghost function Appends<T>(s: State<T>, step: Step<T>, t: nat): seq<T>
    requires Enabled(s, step)
  {
    var after := Apply(s, step).queue;
    if step.t == t && |after| > |s.queue| then after[|s.queue|..] else []
  }

  ghost function OfferedBy<T>(steps: seq<Step<T>>, t: nat): seq<T>
    decreases |steps|
  {
    if steps == [] then [] else Offers(steps[0], t) + OfferedBy(steps[1..], t)
  }

  ghost function AppendedBy<T>(s: State<T>, steps: seq<Step<T>>, t: nat): seq<T>
    requires Run(s, steps)
    decreases |steps|
  {
    if steps == [] then [] else Appends(s, steps[0], t) + AppendedBy(Apply(s, steps[0]), steps[1..], t)
  }

  /** The item a pusher has been handed but not yet appended; a popper has none. */
  function ToPush<T>(thread: Thread<T>): seq<T> {
    if thread.role == Pusher then InFlight(thread) else []
  }

  lemma PushStep<T>(s: State<T>, step: Step<T>, t: nat)
    requires Enabled(s, step) && t < |s.threads|
    ensures ToPush(s.threads[t]) + Offers(step, t) == Appends(s, step, t) + ToPush(Apply(s, step).threads[t])
  {
  }

  /** Over every run, each pusher has put into the queue what it was called with, in order, but for the last. */
  lemma {:induction false} AppendedIsOffered<T>(s: State<T>, steps: seq<Step<T>>, t: nat)
    requires Run(s, steps) && t < |s.threads|
    ensures t < |After(s, steps).threads|
    ensures ToPush(s.threads[t]) + OfferedBy(steps, t) == AppendedBy(s, steps, t) + ToPush(After(s, steps).threads[t])
    decreases |steps|
  {
    if steps == [] {
      assert ToPush(s.threads[t]) + [] == [] + ToPush(s.threads[t]);
    } else {
      var s', rest := Apply(s, steps[0]), steps[1..];
      assert |s'.threads| == |s.threads|;
      PushStep(s, steps[0], t);
      AppendedIsOffered(s', rest, t);
      hide Apply, Enabled, Offers, Appends, ToPush, After;
      Regrouped(ToPush(s.threads[t]), Offers(steps[0], t), Appends(s, steps[0], t), ToPush(s'.threads[t]),
        OfferedBy(rest, t), AppendedBy(s', rest, t), ToPush(After(s', rest).threads[t]));
    }
  }

  lemma {:induction false} BoundKept<T>(s: State<T>, steps: seq<Step<T>>)
    requires Run(s, steps)
    ensures After(s, steps).max == s.max
    decreases |steps|
  {
    if steps != [] {
      BoundKept(Apply(s, steps[0]), steps[1..]);
    }
  }

  /** When no thread can move and a popper waits for more, all that was offered has been popped. */
  lemma AllTakenAtRest<T(!new)>(s: State<T>, roles: seq<Role>, max: nat, p: nat, steps: seq<Step<T>>)
    requires Reachable(s, roles, max, steps) && AtRest(s) && SomeoneSleeps(s, Popper) && max >= 1
    requires p < |roles| && forall t: nat | t < |roles| :: roles[t] == Pusher <==> t == p
    ensures s.popped == s.offered
  {
    var init := Init<T>(roles, max);
    InvInit<T>(roles, max);
    assert InOrder(init, p);
    InOrderRun(init, p, steps);
    BoundKept(init, steps);
    assert Sleeps(s.threads[p], Pusher) ==> SomeoneSleeps(s, Pusher);
    RestIsJustified(s, roles, max, steps);
    QueueIsFifo(s, roles, max, steps);
  }

  lemma {:induction false} RolesKept<T>(s: State<T>, steps: seq<Step<T>>)
    requires Run(s, steps)
    ensures var s' := After(s, steps);
            |s'.threads| == |s.threads| && forall t: nat | t < |s.threads| :: s'.threads[t].role == s.threads[t].role
    decreases |steps|
  {
    if steps != [] {
      RolesKept(Apply(s, steps[0]), steps[1..]);
    }
  }
}
