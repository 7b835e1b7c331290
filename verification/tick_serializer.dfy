/**
 * The queue-and-lock bookkeeping around an advisor's tick processing, as pure
 * transitions on its state. JavaScript runs the code between two awaits without
 * interruption, so a tick's processing has two atomic ends: Begin, the code
 * before the first awaited hook, and End, the code after the advisor's own hook.
 * What runs in between (the hooks) is described in ExpertAdvisors.
 *
 * Two ghost observations are added to the real queue and lock: the multiset of
 * processings that have begun and not ended, and the ticks whose processing has
 * begun, in order. They are what the FIFO and exactly-once questions are about.
 */
module TickSerializer {

  /** A bid/ask observation for a symbol at an instant (a timestamp in milliseconds). */
  datatype Tick = Tick(symbol: string, bid: real, ask: real, time: int)

  datatype State = State(queue: seq<Tick>, locked: bool, inFlight: multiset<Tick>, started: seq<Tick>)

  const Idle := State([], false, multiset{}, [])

  /**
   * The synchronous start of a tick's processing, as written: a tick that finds
   * the lock set is queued, and its processing begins anyway.
   */
  function Begin(s: State, tick: Tick): State
  {
    State(if s.locked then s.queue + [tick] else s.queue, true, s.inFlight + multiset{tick}, s.started + [tick])
  }

  /**
   * The end of the processing of `finished`, as written: the oldest queued tick
   * is taken off the queue, the lock is cleared, and if a tick was taken its
   * processing begins.
   */
  function End(s: State, finished: Tick): State
    requires finished in s.inFlight
  {
    var rest := s.(locked := false, inFlight := s.inFlight - multiset{finished});
    if s.queue == [] then rest else Begin(rest.(queue := s.queue[1..]), s.queue[0])
  }

  /** Begin always leaves the lock set, and queues the tick iff the lock was already set. */
  lemma BeginQueuesIffLocked(s: State, tick: Tick)
    ensures Begin(s, tick).locked
    ensures Begin(s, tick).queue == if s.locked then s.queue + [tick] else s.queue
    ensures tick in Begin(s, tick).inFlight
  {
  }

  /** End takes the oldest queued tick (FIFO), and processes it if there was one. */
  lemma EndDequeuesOldest(s: State, finished: Tick)
    requires finished in s.inFlight
    ensures s.queue == [] ==> !End(s, finished).locked && End(s, finished).queue == [] && End(s, finished).started == s.started
    ensures s.queue != [] ==>
      && End(s, finished).locked
      && End(s, finished).queue == s.queue[1..]
      && End(s, finished).started == s.started + [s.queue[0]]
  {
  }

  /** What reaches the serializer: a tick, or the end of one processing of a tick. */
  datatype Action = Submit(tick: Tick) | Complete(tick: Tick)

  /** The ticks submitted by a run, in order. */
  function Submitted(actions: seq<Action>): (r: seq<Tick>)
    ensures |r| <= |actions|
  {
    if actions == [] then []
    else
      var init, last := actions[..|actions| - 1], actions[|actions| - 1];
      Submitted(init) + (if last.Submit? then [last.tick] else [])
  }

  /** One action as written; the end of a processing that is not running is ignored. */
  function StepAsWritten(s: State, action: Action): State
  {
    match action
    case Submit(t) => Begin(s, t)
    case Complete(t) => if t in s.inFlight then End(s, t) else s
  }

  /** The state after a run from idle, as written. */
  function RunAsWritten(actions: seq<Action>): State
  {
    if actions == [] then Idle else StepAsWritten(RunAsWritten(actions[..|actions| - 1]), actions[|actions| - 1])
  }

  /** Two arrivals from idle, as written: the second is queued and also begun. */
  lemma AsWrittenTwoArrivals(t1: Tick, t2: Tick)
    ensures RunAsWritten([Submit(t1), Submit(t2)]) == State([t2], true, multiset{t1, t2}, [t1, t2])
  {
    var a1, a2 := [Submit(t1)], [Submit(t1), Submit(t2)];
    assert RunAsWritten(a1) == State([], true, multiset{t1}, [t1]) by {
      assert a1[..0] == [];
    }
    assert a2[..1] == a1;
  }

  /**
   * As written, a tick that arrives while another is being processed is
   * processed at once, overlapping the first, and again when it is dequeued.
   */
  lemma AsWrittenProcessesQueuedTickTwice(t1: Tick, t2: Tick)
    ensures RunAsWritten([Submit(t1), Submit(t2)]).inFlight == multiset{t1, t2}
    ensures Submitted([Submit(t1), Submit(t2), Complete(t1)]) == [t1, t2]
    ensures RunAsWritten([Submit(t1), Submit(t2), Complete(t1)]).started == [t1, t2, t2]
  {
    var a1, a2, a3 := [Submit(t1)], [Submit(t1), Submit(t2)], [Submit(t1), Submit(t2), Complete(t1)];
    AsWrittenTwoArrivals(t1, t2);
    assert a3[..2] == a2;
    assert Submitted(a3) == [t1, t2] by {
      assert a2[..1] == a1 && a1[..0] == [];
      assert Submitted(a1) == [t1];
      assert Submitted(a2) == [t1, t2];
    }
  }

  /** The evidently intended start: a tick that finds the lock set only waits in the queue. */
  function BeginFixed(s: State, tick: Tick): State
  {
    if s.locked then s.(queue := s.queue + [tick])
    else s.(locked := true, inFlight := s.inFlight + multiset{tick}, started := s.started + [tick])
  }

  /** The intended end: hand the lock straight to the oldest queued tick, or release it. */
  function EndFixed(s: State, finished: Tick): State
    requires finished in s.inFlight
  {
    var rest := s.inFlight - multiset{finished};
    if s.queue == [] then s.(locked := false, inFlight := rest)
    else s.(queue := s.queue[1..], inFlight := rest + multiset{s.queue[0]}, started := s.started + [s.queue[0]])
  }

  /** The fix changes nothing for a tick that arrives while no tick is being processed. */
  lemma BeginFixedAgreesWhenUnlocked(s: State, tick: Tick)
    requires !s.locked
    ensures BeginFixed(s, tick) == Begin(s, tick)
  {
  }

  /** One action under the fix; the end of a processing that is not running is ignored. */
  function StepFixed(s: State, action: Action): State
  {
    match action
    case Submit(t) => BeginFixed(s, t)
    case Complete(t) => if t in s.inFlight then EndFixed(s, t) else s
  }

  function RunFixed(actions: seq<Action>): State
  {
    if actions == [] then Idle else StepFixed(RunFixed(actions[..|actions| - 1]), actions[|actions| - 1])
  }

  /**
   * The serializer's invariant: the ticks begun, followed by those queued, are the
   * ticks submitted; while locked exactly the last begun tick is in flight; while
   * unlocked nothing is queued or in flight.
   */
  ghost predicate Serialized(s: State, submitted: seq<Tick>)
  {
    && s.started + s.queue == submitted
    && (s.locked ==> s.started != [] && s.inFlight == multiset{s.started[|s.started| - 1]})
    && (!s.locked ==> s.queue == [] && s.inFlight == multiset{})
  }

  /** A tick's arrival under the fix keeps the invariant. */
  lemma BeginFixedSerialized(s: State, submitted: seq<Tick>, t: Tick)
    requires Serialized(s, submitted)
    ensures Serialized(BeginFixed(s, t), submitted + [t])
  {
    if s.locked {
      assert s.started + (s.queue + [t]) == (s.started + s.queue) + [t];
    } else {
      assert s.queue == [];
    }
  }

  /** The end of the processing in flight, under the fix, keeps the invariant. */
  lemma EndFixedSerialized(s: State, submitted: seq<Tick>, t: Tick)
    requires Serialized(s, submitted)
    requires t in s.inFlight
    ensures Serialized(EndFixed(s, t), submitted)
  {
    if s.queue != [] {
      assert (s.started + [s.queue[0]]) + s.queue[1..] == s.started + s.queue;
    }
  }

  /**
   * The fix changes only the start: on a serialized state the end as written
   * already hands the lock to the oldest queued tick, since releasing the lock
   * and beginning that tick at once takes it again.
   */
  lemma EndFixedAgreesWhenSerialized(s: State, submitted: seq<Tick>, finished: Tick)
    requires Serialized(s, submitted) && finished in s.inFlight
    ensures EndFixed(s, finished) == End(s, finished)
  {
  }

  /** Every action under the fix keeps the invariant. */
  lemma StepFixedSerialized(s: State, submitted: seq<Tick>, action: Action)
    requires Serialized(s, submitted)
    ensures Serialized(StepFixed(s, action), submitted + (if action.Submit? then [action.tick] else []))
  {
    match action
    case Submit(t) => BeginFixedSerialized(s, submitted, t);
    case Complete(t) =>
      if t in s.inFlight {
        EndFixedSerialized(s, submitted, t);
      } else {
        assert submitted + [] == submitted;
      }
  }

  lemma {:induction false} RunFixedSerialized(actions: seq<Action>)
    ensures Serialized(RunFixed(actions), Submitted(actions))
    decreases |actions|
  {
    if actions != [] {
      var init := actions[..|actions| - 1];
      RunFixedSerialized(init);
      StepFixedSerialized(RunFixed(init), Submitted(init), actions[|actions| - 1]);
    }
  }

  /**
   * With the fix, whatever the interleaving of arrivals and completions: at most
   * one tick is processed at a time, ticks begin processing in arrival order and
   * each at most once, and once the serializer is idle every submitted tick has
   * been processed exactly once.
   */
  lemma FixedSerializerIsFifo(actions: seq<Action>)
    ensures |RunFixed(actions).inFlight| <= 1
    ensures RunFixed(actions).started <= Submitted(actions)
    ensures !RunFixed(actions).locked ==> RunFixed(actions).started == Submitted(actions)
  {
    RunFixedSerialized(actions);
    var s := RunFixed(actions);
    assert s.started == (s.started + s.queue)[..|s.started|];
  }
}
