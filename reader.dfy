/**
  The tailing reader as an object: the file handle, the offset and the
  watcher connection are fields that its methods update in place. OpenFile,
  AwaitFile, WaitForFile and Read are proved to leave the state, and to
  return, what Tailing.OpenFile, Tailing.AwaitFile and Tailing.Read say;
  WaitForEvent returns what Events.Wait says; the constructor's loop computes
  Config.Configured. CloseFile leaves the state Tailing.CloseFile gives, and
  Close has its contract stated directly.
 */
module Reader {
  import opened Env
  import opened Config
  import opened Events
  import opened Tailing

  class TailingReader {
    const filePath: Path
    const options: Options
    var handle: Handle
    var offset: int
    var watching: bool

    function Snapshot(): (s: State)
      reads this
    {
      State(handle, offset)
    }

    ghost predicate Valid()
      reads this
    {
      Consistent(Snapshot())
    }

    /** NewTailingReader: fold the options (or the defaults) over the zero record; the watcher is set up. */
    constructor (filePath: Path, opts: seq<Option>)
      ensures this.filePath == filePath && options == Configured(opts)
      ensures handle == Closed && offset == 0 && watching && Valid()
    {
      var chosen := if |opts| == 0 then DefaultOptions else opts;
      var acc := ZeroOptions;
      for i := 0 to |chosen|
        invariant ApplyAll(chosen[i..], acc) == ApplyAll(chosen, ZeroOptions)
      {
        assert chosen[i..][1..] == chosen[i + 1..];
        acc := Apply(chosen[i], acc);
      }
      this.filePath := filePath;
      options := acc;
      handle := Closed;
      offset := 0;
      watching := true;
    }

    /** Close: close the watcher and, if that worked, the file. */
    method Close(watcherCloseFails: bool, fs: Fs) returns (status: Status)
      requires Valid() && watching
      modifies this`watching, this`handle, this`offset
      ensures Valid() && !watching
      ensures watcherCloseFails ==> status == Failure(CloseFault) && Snapshot() == old(Snapshot())
      ensures !watcherCloseFails ==> Snapshot() == Reset
      ensures !watcherCloseFails ==> status == if old(handle).Open? && fs.closeFault then Failure(CloseFault) else Success
    {
      watching := false;
      if watcherCloseFails {
        return Failure(CloseFault);
      }
      status := CloseFile(fs);
    }

    /** openFile: keep an open handle; otherwise open the file and start at offset 0. */
    method OpenFile(fs: Fs) returns (status: Status)
      requires Valid()
      modifies this`handle, this`offset
      ensures Valid()
      ensures match Tailing.OpenFile(filePath, fs, old(Snapshot()))
        case Opened(s') => status == Success && Snapshot() == s'
        case OpenFailed(e) => status == Failure(e) && Snapshot() == old(Snapshot())
    {
      if handle.Open? {
        return Success;
      }
      match OpenPath(fs, filePath)
      case OpenOk(inode) =>
        handle := Open(inode, 0);
        offset := 0;
        status := Success;
      case OpenMissing =>
        status := Failure(NotExist);
      case OpenDenied =>
        status := Failure(PermissionDenied);
    }

    /** closeFile: drop the handle and reset the offset, reporting a failed close. */
    method CloseFile(fs: Fs) returns (status: Status)
      requires Valid()
      modifies this`handle, this`offset
      ensures Valid()
      ensures Snapshot() == Tailing.CloseFile(old(Snapshot()))
      ensures status == if old(handle).Open? && fs.closeFault then Failure(CloseFault) else Success
    {
      if handle.Closed? {
        return Success;
      }
      handle := Closed;
      offset := 0;
      status := if fs.closeFault then Failure(CloseFault) else Success;
    }

    /** waitForEventWithTimeout: consume deliveries until one decides the wait. */
    method WaitForEvent(mask: Op, timeout: Duration, w0: World) returns (result: WaitResult, w: World)
      requires watching
      ensures Waited(result, w) == Wait(mask, filePath, timeout, w0)
    {
      var armed := timeout > 0;
      w := w0;
      while |w.ticks| > 0
        invariant Wait(mask, filePath, timeout, w) == Wait(mask, filePath, timeout, w0)
        decreases |w.ticks|
      {
        var o := w.ticks[0].outcome;
        w := Next(w);
        match o
        case Event(name, op) =>
          if Accepts(mask, filePath, name, op) {
            return Matched(op), w;
          }
        case WatchErr(c) =>
          return WatchFailed(c), w;
        case TimerFired =>
          if armed {
            return TimedOut, w;
          }
      }
      result := Exhausted;
    }

    /** waitForFile: the file's size once it is there, or why the wait ended. */
    method AwaitFile(force: bool, w0: World) returns (size: nat, status: Status, w: World)
      requires Valid() && watching
      modifies this`handle, this`offset
      ensures Valid()
      ensures FileWait(size, status, Snapshot(), w) == Tailing.AwaitFile(filePath, options, force, old(Snapshot()), w0)
    {
      w := w0;
      while true
        invariant Snapshot() == old(Snapshot())
        invariant Tailing.AwaitFile(filePath, options, force, Snapshot(), w)
               == Tailing.AwaitFile(filePath, options, force, old(Snapshot()), w0)
        decreases |w.ticks|
      {
        var stat := Stat(w.fs, filePath);
        if stat.Present? {
          return stat.size, Success, w;
        }
        if !options.waitForFile && !force {
          return 0, Failure(NotExist), w;
        }
        if handle.Open? && options.closeOnDelete {
          var _ := CloseFile(w.fs);
          return 0, Failure(EOF), w;
        }
        var result, w' := WaitForEvent(Create, options.waitForFileTimeout, w);
        if result.TimedOut? {
          if options.treatTimeoutsAsEOF {
            return 0, Failure(EOF), w';
          }
          return 0, Failure(WaitTimeout), w';
        }
        if result.WatchFailed? {
          return 0, Failure(Watcher(result.code)), w';
        }
        if result.Exhausted? {
          return 0, Blocked, w';
        }
        w := w';
      }
    }

    /** WaitForFile: wait for the file even when the options say not to. */
    method WaitForFile(w0: World) returns (status: Status, w: World)
      requires Valid() && watching
      modifies this`handle, this`offset
      ensures Valid()
      ensures var r := Tailing.AwaitFile(filePath, options, true, old(Snapshot()), w0);
        status == r.status && Snapshot() == r.state && w == r.world
    {
      var _, st, w' := AwaitFile(true, w0);
      status, w := st, w';
    }

    /**
      Read: hand over up to `cap` new bytes, reopening after a shrink or a
      removal and waiting for events when there is nothing new.
     */
    method Read(cap: nat, w0: World) returns (n: nat, data: seq<byte>, status: Status, w: World)
      requires Valid() && watching
      modifies this`handle, this`offset
      ensures Valid()
      ensures ReadReturn(n, data, status, Snapshot(), w) == Tailing.Read(filePath, options, cap, old(Snapshot()), w0)
      ensures !status.Success? ==> n == 0 && data == []
      ensures status.Success? ==> 0 < n <= cap && handle.Open? && n <= offset <= |Content(w.fs, handle.inode)|
      ensures status.Success? ==> data == Content(w.fs, handle.inode)[offset - n..offset]
    {
      ghost var goal := Tailing.Read(filePath, options, cap, Snapshot(), w0);
      w := w0;
      while true
        invariant Valid()
        invariant Tailing.Read(filePath, options, cap, Snapshot(), w) == goal
        decreases |w.ticks|
      {
        var done;
        done, n, data, status, w := ReadOneTurn(cap, w);
        if done {
          break;
        }
      }
    }

    /** One turn of Read's loop: find the file, handle a shrink, then read or wait. */
    method ReadOneTurn(cap: nat, w0: World) returns (done: bool, n: nat, data: seq<byte>, status: Status, w: World)
      requires Valid() && watching
      modifies this`handle, this`offset
      ensures Valid()
      ensures ReadTurn(filePath, options, cap, old(Snapshot()), w0)
           == if done then Return(ReadReturn(n, data, status, Snapshot(), w)) else Again(Snapshot(), w)
    {
      var size, st, w1 := AwaitFile(false, w0);
      if !st.Success? {
        return true, 0, [], st, w1;
      }
      if offset > size {
        // the file shrank: start again from its beginning
        var _ := CloseFile(w1.fs);
        if options.closeOnTruncate {
          return true, 0, [], Failure(EOF), w1;
        }
      }
      done, n, data, status, w := ReadOrWaitOnce(cap, size, w1);
    }

    /** The rest of a turn: read new bytes if there are any, otherwise wait for an event. */
    method ReadOrWaitOnce(cap: nat, size: nat, w0: World) returns (done: bool, n: nat, data: seq<byte>, status: Status, w: World)
      requires Valid() && watching
      modifies this`handle, this`offset
      ensures Valid()
      ensures ReadOrWait(filePath, options, cap, size, old(Snapshot()), w0)
           == if done then Return(ReadReturn(n, data, status, Snapshot(), w)) else Again(Snapshot(), w)
    {
      if offset < size {
        ghost var fetched := Fetch(filePath, w0.fs, cap, Snapshot());
        var openStatus := OpenFile(w0.fs);
        if !openStatus.Success? {
          return true, 0, [], openStatus, w0;
        }
        var got := ReadAt(w0.fs, handle.inode, handle.pos, cap);
        if got.fault {
          return true, 0, [], Failure(ReadFault), w0;
        }
        if got.n > 0 {
          handle := Open(handle.inode, handle.pos + got.n);
          offset := offset + got.n;
          assert fetched == Got(got.n, got.bytes, Snapshot());
          return true, got.n, got.bytes, Success, w0;
        }
        assert fetched == NoData(Snapshot());
      }
      var result, w1 := WaitForEvent(ReadMask, options.idleTimeout, w0);
      if result.TimedOut? {
        return true, 0, [], TimeoutStatus(options, IdleTimeout), w1;
      }
      if result.WatchFailed? {
        return true, 0, [], Failure(Watcher(result.code)), w1;
      }
      if result.Exhausted? {
        return true, 0, [], Blocked, w1;
      }
      if IsRemoval(result.op) {
        if options.closeOnDelete {
          return true, 0, [], Failure(EOF), w1;
        }
        var _ := CloseFile(w1.fs);
      }
      return false, 0, [], Success, w1;
    }
  }
}
