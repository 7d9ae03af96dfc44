/**
  The event wait of the reader: deliveries are consumed in order until one of
  them decides the wait. An event decides it when its operation bits lie
  inside the requested mask and its name is exactly the watched path; a
  watcher error always decides it; the timer decides it only when it was
  armed, that is when the timeout is positive.
 */
module Events {
  import opened Env

  datatype WaitResult =
    | Matched(op: Op)
    | WatchFailed(code: int)
    | TimedOut
    | Exhausted    // the deliveries ran out: the Go implementation would still be blocked

  datatype Waited = Waited(result: WaitResult, world: World)

  /** The event filter: every bit of `op` is requested and the name is the watched path. */
  predicate Accepts(mask: Op, path: Path, name: Path, op: Op) {
    mask & op == op && name == path
  }

  /** Delivery `o` ends a wait for `mask` on `path` with the given timeout. */
  predicate Decides(o: Outcome, mask: Op, path: Path, timeout: int) {
    match o
    case Event(name, op) => Accepts(mask, path, name, op)
    case WatchErr(_) => true
    case TimerFired => timeout > 0
  }

  /** What a deciding delivery makes the wait return. */
  function Verdict(o: Outcome): (v: WaitResult) {
    match o
    case Event(_, op) => Matched(op)
    case WatchErr(c) => WatchFailed(c)
    case TimerFired => TimedOut
  }

  /** Tick `k` is the first deciding one. */
  predicate FirstDecidingAt(ticks: seq<Tick>, k: nat, mask: Op, path: Path, timeout: int) {
    && k < |ticks|
    && Decides(ticks[k].outcome, mask, path, timeout)
    && forall j :: 0 <= j < k ==> !Decides(ticks[j].outcome, mask, path, timeout)
  }

  /** The wait, one delivery at a time. */
  function Wait(mask: Op, path: Path, timeout: int, w: World): (r: Waited)
    ensures |r.world.ticks| <= |w.ticks|
    ensures !r.result.Exhausted? ==> |r.world.ticks| < |w.ticks|
    ensures r.result.Exhausted? ==> r.world.ticks == []
    ensures r.result.Matched? ==> Accepts(mask, path, path, r.result.op)
    ensures r.result.TimedOut? ==> timeout > 0
    decreases |w.ticks|
  {
    if |w.ticks| == 0 then Waited(Exhausted, w)
    else
      match w.ticks[0].outcome
      case Event(name, op) =>
        if Accepts(mask, path, name, op) then Waited(Matched(op), Next(w)) else Wait(mask, path, timeout, Next(w))
      case WatchErr(c) => Waited(WatchFailed(c), Next(w))
      case TimerFired =>
        if timeout > 0 then Waited(TimedOut, Next(w)) else Wait(mask, path, timeout, Next(w))
  }

  /**
    The wait returns the verdict of the first deciding delivery and leaves
    exactly the deliveries after it; it is exhausted exactly when none decides.
   */
  lemma {:induction false} WaitIsFirstDeciding(mask: Op, path: Path, timeout: int, w: World)
    ensures var r := Wait(mask, path, timeout, w);
      && (r.result.Exhausted? <==> forall j :: 0 <= j < |w.ticks| ==> !Decides(w.ticks[j].outcome, mask, path, timeout))
      && (forall k: nat :: FirstDecidingAt(w.ticks, k, mask, path, timeout) ==>
            r.result == Verdict(w.ticks[k].outcome) && r.world == World(w.ticks[k].after, w.ticks[k + 1..]))
    decreases |w.ticks|
  {
    if |w.ticks| > 0 {
      var o := w.ticks[0].outcome;
      if !Decides(o, mask, path, timeout) {
        var w' := Next(w);
        WaitIsFirstDeciding(mask, path, timeout, w');
        forall k: nat | FirstDecidingAt(w.ticks, k, mask, path, timeout)
          ensures FirstDecidingAt(w'.ticks, k - 1, mask, path, timeout)
        {
          assert k != 0;
          forall j | 0 <= j < k - 1 ensures !Decides(w'.ticks[j].outcome, mask, path, timeout) {
            assert w'.ticks[j] == w.ticks[j + 1];
          }
        }
        forall j | 0 <= j < |w'.ticks| ensures w'.ticks[j] == w.ticks[j + 1] { }
      } else {
        assert Decides(w.ticks[0].outcome, mask, path, timeout);
        forall k: nat | FirstDecidingAt(w.ticks, k, mask, path, timeout) ensures k == 0 { }
      }
    }
  }

  /** An accepted event is for the watched path, and each of its bits is a requested one. */
  lemma AcceptedBitsRequested(mask: Op, path: Path, name: Path, op: Op, h: Op)
    requires Accepts(mask, path, name, op)
    ensures name == path
    ensures Has(op, h) ==> Has(mask, h)
  {
    assert op & h == (mask & op) & h;
  }

  /** Waiting for creation accepts a create event and nothing with any other bit. */
  lemma CreateWaitAcceptsOnlyCreate(path: Path, op: Op)
    ensures Accepts(Create, path, path, op) <==> op == Create || op == 0
  {
  }

  /** An event for any other name in the watched directory is skipped. */
  lemma SiblingEventSkipped(mask: Op, path: Path, timeout: int, fs: Fs, name: Path, op: Op, after: Fs, rest: seq<Tick>)
    requires name != path
    ensures Wait(mask, path, timeout, World(fs, [Tick(Event(name, op), after)] + rest))
         == Wait(mask, path, timeout, World(after, rest))
  {
    var w := World(fs, [Tick(Event(name, op), after)] + rest);
    assert w.ticks[1..] == rest;
  }

  /** An event with any operation bit outside the mask is skipped. */
  lemma UnrequestedEventSkipped(mask: Op, path: Path, timeout: int, fs: Fs, op: Op, after: Fs, rest: seq<Tick>)
    requires mask & op != op
    ensures Wait(mask, path, timeout, World(fs, [Tick(Event(path, op), after)] + rest))
         == Wait(mask, path, timeout, World(after, rest))
  {
    var w := World(fs, [Tick(Event(path, op), after)] + rest);
    assert w.ticks[1..] == rest;
  }

  /** With a timeout of 0 or less no timer is armed, so the wait never times out. */
  lemma UnarmedWaitNeverTimesOut(mask: Op, path: Path, timeout: int, w: World)
    requires timeout <= 0
    ensures !Wait(mask, path, timeout, w).result.TimedOut?
  {
  }
}
