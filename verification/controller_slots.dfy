/**
  Bookkeeping of the standard-library prototype: two controller slots, each
  of which may hold a controller, and a reader thread per controller.

  Threads are not modelled: spawning one yields an abstract handle numbered
  from a counter the caller passes in, and the handle records the copy of the
  controller the thread was given.
 */
module ControllerSlots {
  import opened Wrappers

  /** What a reader thread receives: a copy of the controller's identity. */
  datatype GameControllerSimple = GameControllerSimple(path: string, mac: string)

  datatype ThreadHandle = ThreadHandle(token: nat, worker: GameControllerSimple)

  datatype GameController = GameController(path: string, mac: string, threadHandle: Option<ThreadHandle>)

  datatype GameControllerCollection = GameControllerCollection(first: Option<GameController>, second: Option<GameController>)

  /** The reader thread of `c`, if any, works on `c` itself. */
  predicate WorkerMatches(c: GameController)
  {
    c.threadHandle.Some? ==> c.threadHandle.value.worker == GameControllerSimple(c.path, c.mac)
  }

  /** Every controller present in a slot has a thread. */
  predicate AllRunning(ctrls: GameControllerCollection)
  {
    && (ctrls.first.Some? ==> ctrls.first.value.threadHandle.Some?)
    && (ctrls.second.Some? ==> ctrls.second.value.threadHandle.Some?)
  }

  /**
    `after` is `before` with threads added: the same slots are occupied by
    the same controllers, and a thread handle that existed is kept.
   */
  predicate OnlyThreadsAdded(before: Option<GameController>, after: Option<GameController>)
  {
    && before.Some? == after.Some?
    && (before.Some? ==> after.value.path == before.value.path && after.value.mac == before.value.mac)
    && (before.Some? && before.value.threadHandle.Some? ==> after == before)
  }

  /**
    Gives `controller` a reader thread unless it already has one. `next` is
    the token the next spawned thread receives; the result carries the
    updated controller and the token after it.
   */
  function CreateNewThread(controller: GameController, next: nat): (r: (GameController, nat))
    ensures r.0.threadHandle.Some?
    ensures r.0.path == controller.path && r.0.mac == controller.mac
    ensures controller.threadHandle.Some? ==> r == (controller, next)
    ensures controller.threadHandle.None? ==>
              && r.1 == next + 1
              && r.0.threadHandle.value.token == next
              && WorkerMatches(r.0)
  {
    match controller.threadHandle
    case None =>
      var threaded := GameControllerSimple(path := controller.path, mac := controller.mac);
      (controller.(threadHandle := Some(ThreadHandle(next, threaded))), next + 1)
    case Some(_) => (controller, next)
  }

  /** A thread for the controller in a slot, if the slot is occupied. */
  function CreateInSlot(slot: Option<GameController>, next: nat): (r: (Option<GameController>, nat))
    ensures OnlyThreadsAdded(slot, r.0)
    ensures r.0.Some? ==> r.0.value.threadHandle.Some?
    ensures (slot.None? || slot.value.threadHandle.Some?) ==> r.1 == next
    ensures slot.Some? && slot.value.threadHandle.None? ==>
              && r.1 == next + 1
              && r.0.value.threadHandle.value.token == next
              && WorkerMatches(r.0.value)
  {
    match slot
    case None => (None, next)
    case Some(c) =>
      var (c', next') := CreateNewThread(c, next);
      (Some(c'), next')
  }

  /** Makes sure every controller in the collection has exactly one reader thread. */
  function HandleThreads(ctrls: GameControllerCollection, next: nat): (r: (GameControllerCollection, nat))
    ensures AllRunning(r.0)
    ensures OnlyThreadsAdded(ctrls.first, r.0.first) && OnlyThreadsAdded(ctrls.second, r.0.second)
    ensures next <= r.1 <= next + 2
    // a thread spawned here works on its own slot's controller, and two new threads have different tokens
    ensures ctrls.first.Some? && ctrls.first.value.threadHandle.None? ==>
              WorkerMatches(r.0.first.value) && next <= r.0.first.value.threadHandle.value.token < r.1
    ensures ctrls.second.Some? && ctrls.second.value.threadHandle.None? ==>
              WorkerMatches(r.0.second.value) && next <= r.0.second.value.threadHandle.value.token < r.1
    ensures ctrls.first.Some? && ctrls.first.value.threadHandle.None?
            && ctrls.second.Some? && ctrls.second.value.threadHandle.None? ==>
              r.0.first.value.threadHandle.value.token != r.0.second.value.threadHandle.value.token
  {
    var (first, afterFirst) := CreateInSlot(ctrls.first, next);
    var (second, afterSecond) := CreateInSlot(ctrls.second, afterFirst);
    (GameControllerCollection(first, second), afterSecond)
  }

  /** A second call finds every thread in place and changes nothing. */
  lemma HandleThreadsIdempotent(ctrls: GameControllerCollection, next: nat, later: nat)
    ensures HandleThreads(HandleThreads(ctrls, next).0, later) == (HandleThreads(ctrls, next).0, later)
  {
  }

  /** Length of the "still scanning" indicator at which it starts over. */
  const LOADING_MAX: nat := 10

  /** One refresh of the indicator: one more dot, or empty once it is full. */
  function LoadingStep(show: string): (r: string)
    ensures r <= show + ['.']
    ensures |show| <= LOADING_MAX ==> |r| == (|show| + 1) % (LOADING_MAX + 1)
    ensures |show| > LOADING_MAX ==> r == []
  {
    if |show| < LOADING_MAX then show + ['.'] else []
  }

  /** The indicator after `n` refreshes starting from the empty string. */
  function LoadingAfter(n: nat): string
  {
    if n == 0 then [] else LoadingStep(LoadingAfter(n - 1))
  }

  /** A string of `n` dots. */
  function Dots(n: nat): (r: string)
    ensures |r| == n && forall i :: 0 <= i < n ==> r[i] == '.'
  {
    seq(n, _ => '.')
  }

  /** The indicator cycles through 0..10 dots: after n refreshes it holds n mod 11 of them. */
  lemma {:induction false} LoadingCycles(n: nat)
    ensures LoadingAfter(n) == Dots(n % (LOADING_MAX + 1))
    ensures |LoadingAfter(n)| <= LOADING_MAX
  {
    if n > 0 {
      LoadingCycles(n - 1);
      var prev := (n - 1) % (LOADING_MAX + 1);
      if prev < LOADING_MAX {
        assert n % (LOADING_MAX + 1) == prev + 1;
        assert Dots(prev) + ['.'] == Dots(prev + 1);
      } else {
        assert n % (LOADING_MAX + 1) == 0;
      }
    }
  }
}
