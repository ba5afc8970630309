/**
  The process shim's task queue: nextTick, drainQueue and cleanUpNextTick.

  A task is foreign code: it may call nextTick any number of times and then
  return or throw. So the drain is modelled from one such moment to the next:
  each method runs the code up to the point where a task starts or the drain is
  over. Timers fire when no task is on the stack.
*/
module NextTick {

  datatype Option<T> = None | Some(value: T)

  /**
    The variables of the shim, the pending timers, whether a task is on the
    stack, and the history: every task given and every task started, in order.
  */
  datatype Shim<T> = Shim(
    queue: seq<T>, draining: bool, current: Option<seq<T>>, index: int,
    drainTimers: nat, cleanTimers: int, running: bool, given: seq<T>, started: seq<T>)

  // ---------------------------------------------------------------- steps

  function Initial<T>(): Shim<T> {
    Shim([], false, None, -1, 0, 0, false, [], [])
  }

  /** process.nextTick */
  function Given<T>(s: Shim<T>, t: T): Shim<T> {
    s.(queue := s.queue + [t], given := s.given + [t],
       drainTimers := if s.queue == [] && !s.draining then s.drainTimers + 1 else s.drainTimers)
  }

  /** The inner loop's test: start the next task of the current queue, if there is one. */
  predicate HasNext<T>(s: Shim<T>) {
    s.current.Some? && 0 <= s.index + 1 < |s.current.value|
  }

  function StartNext<T>(s: Shim<T>): Shim<T>
    requires HasNext(s)
  {
    s.(index := s.index + 1, running := true, started := s.started + [s.current.value[s.index + 1]])
  }

  function Finished<T>(s: Shim<T>): Shim<T> {
    s.(current := None, draining := false, cleanTimers := s.cleanTimers - 1, running := false)
  }

  /** The head of the outer loop, up to the next task or the end. */
  function NextBatch<T>(s: Shim<T>): Shim<T> {
    if s.queue == [] then Finished(s)
    else
      var t := s.(current := Some(s.queue), queue := []);
      if HasNext(t) then StartNext(t) else Finished(t.(index := -1))
  }

  /** drainQueue, from its call. */
  function Drained<T>(s: Shim<T>): Shim<T> {
    if s.draining then s else NextBatch(s.(cleanTimers := s.cleanTimers + 1, draining := true))
  }

  /** cleanUpNextTick */
  function CleanedUp<T>(s: Shim<T>): Shim<T> {
    if !s.draining || s.current.None? then s
    else
      var t := s.(draining := false);
      var t := if |s.current.value| != 0 then t.(queue := s.current.value + s.queue) else t.(index := -1);
      if t.queue != [] then Drained(t) else t
  }

  /** The running task returns. */
  function Returned<T>(s: Shim<T>): Shim<T> {
    if HasNext(s) then StartNext(s) else NextBatch(s.(index := -1))
  }

  datatype Move<T> = Give(t: T) | FireDrain | FireCleanUp | Return | Throw

  /** Timers wait for the stack to be empty; a task ends only while it runs; anyone may give a task at any time. */
  predicate Enabled<T>(s: Shim<T>, m: Move<T>) {
    match m
    case Give(_) => true
    case FireDrain => !s.running && s.drainTimers > 0
    case FireCleanUp => !s.running && s.cleanTimers > 0
    case Return => s.running
    case Throw => s.running
  }

  function Step<T>(s: Shim<T>, m: Move<T>): Shim<T>
    requires Enabled(s, m)
  {
    match m
    case Give(t) => Given(s, t)
    case FireDrain => Drained(s.(drainTimers := s.drainTimers - 1))
    case FireCleanUp => CleanedUp(s.(cleanTimers := s.cleanTimers - 1))
    case Return => Returned(s)
    case Throw => s.(running := false)
  }

  // ---------------------------------------------------------------- what every run keeps

  /** The tasks given and not yet started, in the order they will start. */
  function Waiting<T>(s: Shim<T>): seq<T> {
    (if s.current.Some? && 0 <= s.index + 1 <= |s.current.value| then s.current.value[s.index + 1..] else []) + s.queue
  }

  ghost predicate Inv<T>(s: Shim<T>) {
    && s.started + Waiting(s) == s.given
    && (s.draining ==> s.current.Some? && 0 <= s.index < |s.current.value| && s.cleanTimers == 1 && s.drainTimers == 0)
    && (!s.draining ==> s.current.None? && s.index == -1 && s.cleanTimers == 0 && !s.running
                        && s.drainTimers == (if s.queue == [] then 0 else 1))
  }

  ghost predicate IsRun<T>(ss: seq<Shim<T>>, ms: seq<Move<T>>) {
    && |ss| == |ms| + 1 && ss[0] == Initial()
    && forall i {:trigger ms[i]} :: 0 <= i < |ms| ==> Enabled(ss[i], ms[i]) && ss[i + 1] == Step(ss[i], ms[i])
  }

  /** The first waiting task has been started and nothing else; or there was none, and none is on the stack. */
  ghost predicate TookFirst<T>(s: Shim<T>, t: Shim<T>) {
    if Waiting(s) == [] then t.started == s.started && Waiting(t) == [] && !t.running
    else t.started == s.started + [Waiting(s)[0]] && Waiting(t) == Waiting(s)[1..] && t.running
  }

  /** A drain about to start or go on with its queue: the batch may have been begun before. */
  lemma BatchTakesFirst<T>(s: Shim<T>)
    requires s.draining && s.cleanTimers == 1 && s.drainTimers == 0 && -1 <= s.index < |s.queue| && s.queue != []
    requires s.started + s.queue[s.index + 1..] == s.given
    ensures var t := NextBatch(s);
            && Inv(t)
            && if s.index + 1 == |s.queue| then t.started == s.started && Waiting(t) == [] && !t.running
               else t.started == s.started + [s.queue[s.index + 1]] && Waiting(t) == s.queue[s.index + 2..] && t.running
  {
    var t := NextBatch(s);
    if s.index + 1 < |s.queue| {
      assert t == s.(current := Some(s.queue), queue := [], index := s.index + 1, running := true,
                     started := s.started + [s.queue[s.index + 1]]);
      assert s.queue[s.index + 1..] == [s.queue[s.index + 1]] + s.queue[s.index + 2..];
      assert Waiting(t) == s.queue[s.index + 2..] + [];
    } else {
      assert t == Finished(s.(current := Some(s.queue), queue := [], index := -1));
    }
  }

  lemma DrainTakesFirst<T>(s: Shim<T>)
    requires Inv(s) && Enabled(s, FireDrain)
    ensures Inv(Step(s, FireDrain)) && TookFirst(s, Step(s, FireDrain))
  {
    hide NextBatch;
    assert Waiting(s) == s.queue;
    BatchTakesFirst(s.(drainTimers := 0, cleanTimers := 1, draining := true));
  }

  lemma CleanUpTakesFirst<T>(s: Shim<T>)
    requires Inv(s) && Enabled(s, FireCleanUp)
    ensures Inv(Step(s, FireCleanUp)) && TookFirst(s, Step(s, FireCleanUp))
  {
    var q := s.current.value;
    assert (q + s.queue)[s.index + 1..] == q[s.index + 1..] + s.queue;
    BatchTakesFirst(s.(queue := q + s.queue));
    assert NextBatch(s.(queue := q + s.queue)) == Step(s, FireCleanUp);
  }

  lemma ReturnTakesFirst<T>(s: Shim<T>)
    requires Inv(s) && Enabled(s, Return)
    ensures Inv(Step(s, Return)) && TookFirst(s, Step(s, Return))
  {
    var q := s.current.value;
    if HasNext(s) {
      hide NextBatch;
      assert q[s.index + 1..] == [q[s.index + 1]] + q[s.index + 2..];
      assert Waiting(Step(s, Return)) == q[s.index + 2..] + s.queue;
    } else {
      assert Waiting(s) == s.queue;
      if s.queue != [] {
        BatchTakesFirst(s.(index := -1));
      }
    }
  }

  /**
    Every move but giving and throwing starts exactly the first waiting task, if
    there is one; giving adds one at the end; throwing changes nothing here.
  */
  lemma StepOrder<T>(s: Shim<T>, m: Move<T>)
    requires Inv(s) && Enabled(s, m)
    ensures Inv(Step(s, m))
    ensures match m
            case Give(t) => Step(s, m).started == s.started && Waiting(Step(s, m)) == Waiting(s) + [t]
            case Throw => Step(s, m).started == s.started && Waiting(Step(s, m)) == Waiting(s)
            case _ => TookFirst(s, Step(s, m))
  {
    match m
    case Give(t) =>
      assert Waiting(Step(s, m)) == Waiting(s) + [t];
    case FireDrain => DrainTakesFirst(s);
    case FireCleanUp => CleanUpTakesFirst(s);
    case Return => ReturnTakesFirst(s);
    case Throw =>
  }

  lemma {:induction false} RunKeeps<T>(ss: seq<Shim<T>>, ms: seq<Move<T>>, k: nat)
    requires IsRun(ss, ms) && k <= |ms|
    ensures Inv(ss[k])
  {
    if k > 0 {
      RunKeeps(ss, ms, k - 1);
      StepOrder(ss[k - 1], ms[k - 1]);
    }
  }

  /**
    In every run, with tasks that give more tasks and tasks that throw: the tasks
    started are a prefix of the tasks given, so each runs at most once and in FIFO
    order; and while one is waiting, a timer is pending or a task is on the stack.
  */
  lemma RunIsFifoAndNeverStuck<T>(ss: seq<Shim<T>>, ms: seq<Move<T>>, k: nat)
    requires IsRun(ss, ms) && k <= |ms|
    ensures ss[k].started <= ss[k].given
    ensures |ss[k].started| < |ss[k].given| ==> ss[k].drainTimers > 0 || ss[k].cleanTimers > 0 || ss[k].running
    ensures ss[k].drainTimers + ss[k].cleanTimers <= 1
  {
    RunKeeps(ss, ms, k);
  }

  lemma StepShrinks<T>(s: Shim<T>, m: Move<T>)
    requires Inv(s) && Enabled(s, m) && !m.Give?
    ensures var left := |Waiting(s)| - (if m.Throw? then 0 else 1);
            |Waiting(Step(s, m))| == if left < 0 then 0 else left
  {
    StepOrder(s, m);
  }

  /** With no new tasks, every return and every fired timer takes exactly one waiting task, until none is left. */
  lemma {:induction false} WaitingShrinks<T>(ss: seq<Shim<T>>, ms: seq<Move<T>>, i: nat, j: nat)
    requires IsRun(ss, ms) && i <= j <= |ms|
    requires forall k :: i <= k < j ==> !ms[k].Give?
    ensures |Waiting(ss[j])| <= |Waiting(ss[i])|
    ensures |Waiting(ss[j])| == 0 || |Waiting(ss[i])| - |Waiting(ss[j])| == EndsAndFires(ms[i..j])
  {
    hide Waiting, Step, EndsAndFires, Inv;
    if i < j {
      WaitingShrinks(ss, ms, i, j - 1);
      RunKeeps(ss, ms, j - 1);
      StepShrinks(ss[j - 1], ms[j - 1]);
      assert ms[i..j] == ms[i..j - 1] + [ms[j - 1]];
      EndsAndFiresSnoc(ms[i..j - 1], ms[j - 1]);
    } else {
      assert ms[i..j] == [];
      NoneEnd<T>();
    }
  }

  lemma NoneEnd<T>()
    ensures EndsAndFires<T>([]) == 0
  {
  }

  function EndsAndFires<T>(ms: seq<Move<T>>): nat
    decreases |ms|
  {
    if ms == [] then 0 else (if ms[0].Give? || ms[0].Throw? then 0 else 1) + EndsAndFires(ms[1..])
  }

  lemma {:induction false} EndsAndFiresSnoc<T>(ms: seq<Move<T>>, m: Move<T>)
    ensures EndsAndFires(ms + [m]) == EndsAndFires(ms) + if m.Give? || m.Throw? then 0 else 1
    decreases |ms|
  {
    if ms != [] {
      EndsAndFiresSnoc(ms[1..], m);
      assert (ms + [m])[1..] == ms[1..] + [m];
    }
  }

  // ---------------------------------------------------------------- the code

  class Process<T> {
    var queue: seq<T>
    var draining: bool
    var currentQueue: Option<seq<T>>
    var queueIndex: int
    var drainTimers: nat
    var cleanTimers: int
    var running: bool
    ghost var given: seq<T>
    ghost var started: seq<T>

    ghost function View(): Shim<T>
      reads this
    {
      Shim(queue, draining, currentQueue, queueIndex, drainTimers, cleanTimers, running, given, started)
    }

    constructor ()
      ensures View() == Initial()
    {
      queue, draining, currentQueue, queueIndex := [], false, None, -1;
      drainTimers, cleanTimers, running := 0, 0, false;
      given, started := [], [];
    }

    /** process.nextTick */
    method NextTick(t: T)
      modifies this
      ensures View() == Given(old(View()), t)
    {
      queue := queue + [t];
      given := given + [t];
      if |queue| == 1 && !draining {
        drainTimers := drainTimers + 1;
      }
    }

    /** The inner loop's test and the start of a task. */
    method TryNext() returns (begun: bool)
      requires currentQueue.Some? && queueIndex >= -1
      modifies `queueIndex, `running, `started
      ensures begun == HasNext(old(View()))
      ensures View() == if begun then StartNext(old(View())) else old(View()).(index := queueIndex)
    {
      queueIndex := queueIndex + 1;
      if queueIndex < |currentQueue.value| {
        running := true;
        started := started + [currentQueue.value[queueIndex]];
        return true;
      }
      return false;
    }

    /** The outer loop of drainQueue and what follows it, up to the next task. */
    method Batches()
      requires queueIndex >= -1
      modifies this
      ensures View() == NextBatch(old(View()))
    {
      var len := |queue|;
      while len != 0
        invariant len == |queue| && queueIndex >= -1
        invariant len != 0 ==> View() == old(View())
        invariant len == 0 ==> Finished(View()) == NextBatch(old(View()))
        decreases len
      {
        currentQueue := Some(queue);
        queue := [];
        var begun := TryNext();
        if begun {
          return;
        }
        queueIndex := -1;
        len := |queue|;
      }
      currentQueue := None;
      draining := false;
      running := false;
      cleanTimers := cleanTimers - 1;
    }

    /** drainQueue, from its call to the first task or its end. */
    method DrainQueue()
      requires queueIndex >= -1
      modifies this
      ensures View() == Drained(old(View()))
    {
      if draining {
        return;
      }
      cleanTimers := cleanTimers + 1;
      draining := true;
      Batches();
    }

    /** cleanUpNextTick */
    method CleanUpNextTick()
      requires queueIndex >= -1
      modifies this
      ensures View() == CleanedUp(old(View()))
    {
      if !draining || currentQueue.None? {
        return;
      }
      draining := false;
      if |currentQueue.value| != 0 {
        queue := currentQueue.value + queue;
      } else {
        queueIndex := -1;
      }
      if |queue| != 0 {
        DrainQueue();
      }
    }

    /** The task on the stack returns into the inner loop. */
    method TaskReturns()
      requires running && currentQueue.Some? && queueIndex >= -1
      modifies this
      ensures View() == Returned(old(View()))
    {
      var begun := TryNext();
      if begun {
        return;
      }
      queueIndex := -1;
      Batches();
    }
  }
}
