/**
  The tailing state machine as functions. The reader's mutable state is the
  handle (closed, or open on an inode at a position) and the offset, the
  number of bytes delivered through the current handle. Each operation maps
  that state and the world (file system plus pending deliveries) to a result,
  a new state and the world it leaves behind.
 */
module Tailing {
  import opened Env
  import opened Config
  import opened Events

  datatype Handle = Closed | Open(inode: nat, pos: nat)

  datatype State = State(handle: Handle, offset: int)

  /** The state right after closeFile: no handle, offset 0. */
  const Reset := State(Closed, 0)

  /**
    Handle and offset belong together: without a handle the offset is 0, with
    one it is the handle's position (both start at 0 and grow together).
   */
  predicate Consistent(s: State) {
    && s.offset >= 0
    && (s.handle.Closed? ==> s.offset == 0)
    && (s.handle.Open? ==> s.handle.pos == s.offset)
  }

  datatype Error =
    | EOF
    | IdleTimeout        // ErrIdleTimeout
    | WaitTimeout        // ErrWaitTimeout
    | NotExist           // the stat or open error for a missing file
    | PermissionDenied   // the open error for a file that cannot be opened
    | ReadFault          // a read error other than end of file
    | Watcher(code: int) // an error delivered by the watcher
    | CloseFault         // a failed close of the file or of the watcher

  /** `Blocked` marks a call that would still be waiting when the deliveries run out. */
  datatype Status = Success | Failure(err: Error) | Blocked

  /** The events a Read waits for; a chmod is included because some systems report a truncation as one. */
  const ReadMask: Op := Write | Remove | Rename | Chmod

  /** The event means the watched name is gone. */
  predicate IsRemoval(op: Op) {
    Has(op, Remove) || Has(op, Rename)
  }

  /** The status a timed-out wait turns into, given the error for the wait in question. */
  function TimeoutStatus(o: Options, err: Error): (r: Status)
    ensures r.Failure? && (r.err == EOF || r.err == err)
    ensures r.err != EOF ==> !o.treatTimeoutsAsEOF
    ensures !o.treatTimeoutsAsEOF ==> r.err == err
  {
    if o.treatTimeoutsAsEOF then Failure(EOF) else Failure(err)
  }

  datatype Opening = Opened(state: State) | OpenFailed(err: Error)

  /** openFile: nothing happens when a handle is open; otherwise open the file at offset 0. */
  function OpenFile(path: Path, fs: Fs, s: State): (r: Opening)
    ensures s.handle.Open? ==> r == Opened(s)
    ensures s.handle.Closed? && r.Opened? ==> OpenPath(fs, path).OpenOk? && r.state == State(Open(OpenPath(fs, path).inode, 0), 0)
    ensures r.OpenFailed? ==> s.handle.Closed? && !OpenPath(fs, path).OpenOk?
    ensures r.Opened? ==> r.state.handle.Open? && (Consistent(s) ==> Consistent(r.state))
  {
    if s.handle.Open? then Opened(s)
    else
      match OpenPath(fs, path)
      case OpenOk(inode) => Opened(State(Open(inode, 0), 0))
      case OpenMissing => OpenFailed(NotExist)
      case OpenDenied => OpenFailed(PermissionDenied)
  }

  /** closeFile: drop the handle and reset the offset; without a handle nothing changes. */
  function CloseFile(s: State): (r: State)
    ensures r.handle.Closed?
    ensures Consistent(s) ==> r == Reset
  {
    if s.handle.Closed? then s else Reset
  }

  datatype FileWait = FileWait(size: nat, status: Status, state: State, world: World)

  /**
    waitForFile: return the size once the file is there. A missing file is an
    error right away unless the reader waits for files or the wait is forced;
    a handle that lost its file ends the stream when closeOnDelete is set;
    otherwise wait for a create event and look again.
   */
  function AwaitFile(path: Path, o: Options, force: bool, s: State, w: World): (r: FileWait)
    ensures |r.world.ticks| <= |w.ticks|
    ensures r.status.Success? ==> Stat(r.world.fs, path) == Present(r.size)
    ensures !r.status.Success? ==> r.size == 0
    ensures r.state == s || (r.state == Reset && r.status == Failure(EOF))
    decreases |w.ticks|
  {
    match Stat(w.fs, path)
    case Present(size) => FileWait(size, Success, s, w)
    case Missing =>
      if !o.waitForFile && !force then FileWait(0, Failure(NotExist), s, w)
      else if s.handle.Open? && o.closeOnDelete then FileWait(0, Failure(EOF), CloseFile(s), w)
      else
        var waited := Wait(Create, path, o.waitForFileTimeout, w);
        match waited.result
        case Matched(_) => AwaitFile(path, o, force, s, waited.world)
        case TimedOut => FileWait(0, TimeoutStatus(o, WaitTimeout), s, waited.world)
        case WatchFailed(c) => FileWait(0, Failure(Watcher(c)), s, waited.world)
        case Exhausted => FileWait(0, Blocked, s, waited.world)
  }

  datatype Fetched = Got(n: nat, bytes: seq<byte>, state: State) | NoData(state: State) | FetchFailed(err: Error, state: State)

  /** The read branch of Read: open the file if needed and read into a buffer of `cap` bytes. */
  function Fetch(path: Path, fs: Fs, cap: nat, s: State): (r: Fetched)
    ensures r.Got? ==> 0 < r.n <= cap && |r.bytes| == r.n && r.state.handle.Open?
    ensures r.Got? ==> r.state.handle.pos <= |Content(fs, r.state.handle.inode)|
    ensures r.Got? ==> r.n <= r.state.handle.pos
    ensures r.Got? ==> r.bytes == Content(fs, r.state.handle.inode)[r.state.handle.pos - r.n..r.state.handle.pos]
    ensures Consistent(s) ==> Consistent(r.state)
    ensures !r.Got? ==> r.state.offset == s.offset || r.state.offset == 0
    ensures Consistent(s) && r.Got? ==> r.state.offset - r.n == s.offset || (s.handle.Closed? && r.state.offset == r.n)
  {
    match OpenFile(path, fs, s)
    case OpenFailed(e) => FetchFailed(e, s)
    case Opened(s1) =>
      var got := ReadAt(fs, s1.handle.inode, s1.handle.pos, cap);
      if got.fault then FetchFailed(ReadFault, s1)
      else if got.n > 0 then Got(got.n, got.bytes, State(Open(s1.handle.inode, s1.handle.pos + got.n), s1.offset + got.n))
      else NoData(s1)
  }

  datatype ReadReturn = ReadReturn(n: nat, data: seq<byte>, status: Status, state: State, world: World)

  /** One turn of Read's loop: either it returns, or it goes round again from a new state. */
  datatype Turn = Return(r: ReadReturn) | Again(state: State, world: World)

  /** The reaction to what the event wait at the end of a turn produced. */
  function AfterWait(o: Options, s: State, waited: Waited): (t: Turn)
    ensures t.Return? ==> t.r == ReadReturn(0, [], t.r.status, s, waited.world) && !t.r.status.Success?
    ensures t.Again? ==> t.world == waited.world && (t.state == s || t.state == Reset)
  {
    match waited.result
    case TimedOut => Return(ReadReturn(0, [], TimeoutStatus(o, IdleTimeout), s, waited.world))
    case WatchFailed(c) => Return(ReadReturn(0, [], Failure(Watcher(c)), s, waited.world))
    case Exhausted => Return(ReadReturn(0, [], Blocked, s, waited.world))
    case Matched(op) =>
      if IsRemoval(op) then
        if o.closeOnDelete then Return(ReadReturn(0, [], Failure(EOF), s, waited.world))
        else Again(CloseFile(s), waited.world)
      else Again(s, waited.world)
  }

  /** What is left of a turn once the file is known to be there with `size` bytes: handle a shrink, then read or wait. */
  function ReadFound(path: Path, o: Options, cap: nat, size: nat, s: State, w: World): (t: Turn)
    ensures t.Again? ==> |t.world.ticks| < |w.ticks|
    ensures t.Again? ==> t.state.offset == s.offset || t.state.offset == 0
    ensures t.Again? && Consistent(s) ==> Consistent(t.state)
    ensures t.Return? ==> Delivered(cap, s, t.r)
  {
    var truncated := s.offset > size;
    if truncated && o.closeOnTruncate then Return(ReadReturn(0, [], Failure(EOF), CloseFile(s), w))
    else ReadOrWait(path, o, cap, size, if truncated then CloseFile(s) else s, w)
  }

  /** Read new bytes if the offset is below the size; otherwise, or when none come, wait for an event. */
  function ReadOrWait(path: Path, o: Options, cap: nat, size: nat, s: State, w: World): (t: Turn)
    ensures t.Again? ==> |t.world.ticks| < |w.ticks|
    ensures t.Again? ==> t.state.offset == s.offset || t.state.offset == 0
    ensures t.Again? && Consistent(s) ==> Consistent(t.state)
    ensures t.Return? ==> Delivered(cap, s, t.r)
  {
    var fetched := if s.offset < size then Fetch(path, w.fs, cap, s) else NoData(s);
    match fetched
    case FetchFailed(e, s3) => Return(ReadReturn(0, [], Failure(e), s3, w))
    case Got(n, bytes, s3) => Return(ReadReturn(n, bytes, Success, s3, w))
    case NoData(s3) => AfterWait(o, s3, Wait(ReadMask, path, o.idleTimeout, w))
  }

  /** One turn of Read: find the file, then go on as ReadFound says. */
  function ReadTurn(path: Path, o: Options, cap: nat, s: State, w: World): (t: Turn)
    ensures t.Again? ==> |t.world.ticks| < |w.ticks|
    ensures t.Again? ==> t.state.offset == s.offset || t.state.offset == 0
    ensures t.Again? && Consistent(s) ==> Consistent(t.state)
    ensures t.Return? ==> Delivered(cap, s, t.r)
  {
    var found := AwaitFile(path, o, false, s, w);
    if !found.status.Success? then Return(ReadReturn(0, [], found.status, found.state, found.world))
    else ReadFound(path, o, cap, found.size, found.state, found.world)
  }

  /**
    What every return of Read satisfies: an error or a block hands over no
    bytes; a success hands over between 1 and `cap` bytes, exactly the bytes
    of the open inode that end at the new offset and start at the old offset
    or, when the handle was reopened on the way, at 0; and handle and offset
    stay consistent.
   */
  predicate Delivered(cap: nat, s: State, r: ReadReturn) {
    && (!r.status.Success? ==> r.n == 0 && r.data == [])
    && (Consistent(s) ==> Consistent(r.state))
    && (Consistent(s) && r.status.Success? ==>
          && 0 < r.n <= cap && |r.data| == r.n
          && r.state.handle.Open?
          && r.n <= r.state.offset <= |Content(r.world.fs, r.state.handle.inode)|
          && r.data == Content(r.world.fs, r.state.handle.inode)[r.state.offset - r.n..r.state.offset]
          && (r.state.offset - r.n == s.offset || r.state.offset == r.n))
  }

  /** Read: turns of the loop until one returns. */
  function Read(path: Path, o: Options, cap: nat, s: State, w: World): (r: ReadReturn)
    ensures Delivered(cap, s, r)
    decreases |w.ticks|
  {
    match ReadTurn(path, o, cap, s, w)
    case Return(r) => r
    case Again(s', w') => Read(path, o, cap, s', w')
  }
}
