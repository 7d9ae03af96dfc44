/**
  Properties of the tailing state machine: the fast read path, truncation,
  a missing file, timeouts, watcher errors and deletion.
 */
module TailingProps {
  import opened Env
  import opened Config
  import opened Events
  import opened Tailing

  function Min(a: nat, b: nat): (m: nat) {
    if a < b then a else b
  }

  /** The handle, if any, reads the inode currently linked at `path`. */
  predicate OnLinkedFile(fs: Fs, path: Path, s: State) {
    s.handle.Open? ==> path in fs.names && s.handle.inode == fs.names[path]
  }

  /**
    New data is there: the call opens the file if needed, hands over
    min(cap, size - offset) bytes starting at the offset, advances the offset
    by exactly that many and consumes no delivery.
   */
  lemma ReadFastPath(path: Path, o: Options, cap: nat, s: State, w: World, size: nat)
    requires Consistent(s) && OnLinkedFile(w.fs, path, s)
    requires Stat(w.fs, path) == Present(size) && s.offset < size
    requires cap > 0 && !w.fs.readFault && (s.handle.Closed? ==> !w.fs.openDenied)
    ensures var i := w.fs.names[path];
      var n := Min(cap, size - s.offset);
      Read(path, o, cap, s, w)
        == ReadReturn(n, w.fs.inodes[i][s.offset..s.offset + n], Success, State(Open(i, s.offset + n), s.offset + n), w)
  {
    var i := w.fs.names[path];
    var s1 := if s.handle.Open? then s else State(Open(i, 0), 0);
    assert OpenFile(path, w.fs, s) == Opened(s1);
    assert Content(w.fs, i) == w.fs.inodes[i];
  }

  /** The fast path as a statement about a file that may have grown since: the bytes come from the offset on. */
  lemma ReadFromOffset(path: Path, o: Options, cap: nat, s: State, w: World)
    requires Consistent(s) && OnLinkedFile(w.fs, path, s)
    requires Stat(w.fs, path).Present? && s.offset < Stat(w.fs, path).size
    requires cap > 0 && !w.fs.readFault && (s.handle.Closed? ==> !w.fs.openDenied)
    ensures var r := Read(path, o, cap, s, w);
      var file := w.fs.inodes[w.fs.names[path]];
      && r.status.Success? && s.offset < r.state.offset <= |file|
      && r.state == State(Open(w.fs.names[path], r.state.offset), r.state.offset)
      && r.data == file[s.offset..r.state.offset]
  {
    ReadFastPath(path, o, cap, s, w, Stat(w.fs, path).size);
  }

  /** Reading twice with appends in between delivers the file's bytes in order, with nothing lost or repeated. */
  lemma ReadsConcatenate(path: Path, o: Options, cap1: nat, cap2: nat, s: State, w1: World, w2: World)
    requires Consistent(s) && OnLinkedFile(w1.fs, path, s)
    requires Stat(w1.fs, path).Present? && s.offset < Stat(w1.fs, path).size
    requires cap1 > 0 && !w1.fs.readFault && (s.handle.Closed? ==> !w1.fs.openDenied)
    requires path in w2.fs.names && w2.fs.names[path] == w1.fs.names[path] && w2.fs.names[path] in w2.fs.inodes
    requires w1.fs.inodes[w1.fs.names[path]] <= w2.fs.inodes[w2.fs.names[path]]
    requires cap2 > 0 && !w2.fs.readFault
    ensures var r1 := Read(path, o, cap1, s, w1);
      var r2 := Read(path, o, cap2, r1.state, w2);
      var file := w2.fs.inodes[w2.fs.names[path]];
      r1.status.Success? && r1.state.offset <= |file| &&
      (r1.state.offset < |file| ==>
         r2.status.Success? && r2.state.offset <= |file| &&
         r1.data + r2.data == file[s.offset..r2.state.offset])
  {
    var i := w1.fs.names[path];
    var old1 := w1.fs.inodes[i];
    var file := w2.fs.inodes[i];
    var r1 := Read(path, o, cap1, s, w1);
    ReadFromOffset(path, o, cap1, s, w1);
    var t1 := r1.state;
    if t1.offset < |file| {
      var r2 := Read(path, o, cap2, t1, w2);
      assert Stat(w2.fs, path) == Present(|file|);
      ReadFromOffset(path, o, cap2, t1, w2);
      SlicesJoin(old1, file, s.offset, t1.offset, r2.state.offset);
    }
  }

  lemma SlicesJoin(prefix: seq<byte>, file: seq<byte>, a: nat, b: nat, c: nat)
    requires a <= b <= |prefix| && b <= c <= |file| && prefix <= file
    ensures prefix[a..b] + file[b..c] == file[a..c]
  {
    assert prefix[a..b] == file[a..b];
  }

  /** The name `path` is linked to inode `i`, which the file system has. */
  predicate LinkedTo(fs: Fs, path: Path, i: nat) {
    path in fs.names && fs.names[path] == i && i in fs.inodes
  }

  /**
    From `w` on, the file only grows: `path` keeps naming inode `i`, each
    delivery leaves the inode's old bytes as a prefix of its new ones, and no
    delivery reports a removal or rename of `path`.
   */
  predicate AppendOnly(w: World, path: Path, i: nat)
    decreases |w.ticks|
  {
    && LinkedTo(w.fs, path, i)
    && (|w.ticks| > 0 ==>
          && LinkedTo(w.ticks[0].after, path, i)
          && w.fs.inodes[i] <= w.ticks[0].after.inodes[i]
          && !(w.ticks[0].outcome.Event? && w.ticks[0].outcome.name == path && IsRemoval(w.ticks[0].outcome.op))
          && AppendOnly(Next(w), path, i))
  }

  /** A wait on a growing file leaves it growing, and an event it returns is no removal. */
  lemma {:induction false} WaitAppendOnly(mask: Op, path: Path, timeout: int, w: World, i: nat)
    requires AppendOnly(w, path, i)
    ensures var r := Wait(mask, path, timeout, w);
      && AppendOnly(r.world, path, i)
      && w.fs.inodes[i] <= r.world.fs.inodes[i]
      && (r.result.Matched? ==> !IsRemoval(r.result.op))
    decreases |w.ticks|
  {
    if |w.ticks| > 0 {
      var w' := Next(w);
      match w.ticks[0].outcome
      case Event(name, op) =>
        if !Accepts(mask, path, name, op) {
          WaitAppendOnly(mask, path, timeout, w', i);
        }
      case WatchErr(_) =>
      case TimerFired =>
        if timeout <= 0 {
          WaitAppendOnly(mask, path, timeout, w', i);
        }
    }
  }

  /**
    One turn on a growing file: no truncation is seen and no handle is
    dropped, so a returned success continues exactly at the old offset, and a
    turn that goes round again keeps the offset.
   */
  lemma TurnAppendOnly(path: Path, o: Options, cap: nat, s: State, w: World, i: nat)
    requires Consistent(s) && AppendOnly(w, path, i)
    requires s.handle.Open? ==> s.handle.inode == i
    requires s.offset <= |w.fs.inodes[i]|
    ensures var t := ReadTurn(path, o, cap, s, w);
      && (t.Return? ==> AppendOnly(t.r.world, path, i) && w.fs.inodes[i] <= t.r.world.fs.inodes[i])
      && (t.Return? ==> ContinuesAt(s, i, t.r))
      && (t.Again? ==>
            && Consistent(t.state) && AppendOnly(t.world, path, i)
            && t.state.offset == s.offset
            && (t.state.handle.Open? ==> t.state.handle.inode == i)
            && w.fs.inodes[i] <= t.world.fs.inodes[i])
  {
    var size := |w.fs.inodes[i]|;
    assert AwaitFile(path, o, false, s, w) == FileWait(size, Success, s, w);
    assert ReadTurn(path, o, cap, s, w) == ReadOrWait(path, o, cap, size, s, w);
    if s.offset < size {
      FetchOnLinked(path, w.fs, cap, s, i);
    }
    var fetched := if s.offset < size then Fetch(path, w.fs, cap, s) else NoData(s);
    match fetched
    case NoData(s3) =>
      assert ReadTurn(path, o, cap, s, w) == AfterWait(o, s3, Wait(ReadMask, path, o.idleTimeout, w));
      AfterWaitAppendOnly(path, o, s3, w, i);
    case Got(n, bytes, s3) =>
      assert ReadTurn(path, o, cap, s, w) == Return(ReadReturn(n, bytes, Success, s3, w));
    case FetchFailed(e, s3) =>
      assert ReadTurn(path, o, cap, s, w) == Return(ReadReturn(0, [], Failure(e), s3, w));
  }

  /** The wait at the end of a turn on a growing file keeps the state and the growth. */
  lemma AfterWaitAppendOnly(path: Path, o: Options, s: State, w: World, i: nat)
    requires AppendOnly(w, path, i)
    ensures var t := AfterWait(o, s, Wait(ReadMask, path, o.idleTimeout, w));
      && (t.Return? ==> AppendOnly(t.r.world, path, i) && w.fs.inodes[i] <= t.r.world.fs.inodes[i] && !t.r.status.Success?)
      && (t.Again? ==> t.state == s && AppendOnly(t.world, path, i) && w.fs.inodes[i] <= t.world.fs.inodes[i])
  {
    WaitAppendOnly(ReadMask, path, o.idleTimeout, w, i);
  }

  /** Reading from the inode `path` is linked to: new bytes continue at the offset, and no data or a failure keeps the offset. */
  lemma FetchOnLinked(path: Path, fs: Fs, cap: nat, s: State, i: nat)
    requires Consistent(s) && LinkedTo(fs, path, i)
    requires s.handle.Open? ==> s.handle.inode == i
    requires s.offset < |fs.inodes[i]|
    ensures var r := Fetch(path, fs, cap, s);
      && (r.Got? ==>
            && r.state == State(Open(i, r.state.offset), r.state.offset)
            && r.state.offset - r.n == s.offset
            && r.bytes == fs.inodes[i][s.offset..r.state.offset])
      && (!r.Got? ==> r.state.offset == s.offset && (r.state.handle.Open? ==> r.state.handle.inode == i))
  {
    if s.handle.Closed? && !fs.openDenied {
      assert OpenFile(path, fs, s) == Opened(State(Open(i, 0), 0));
    }
    assert Content(fs, i) == fs.inodes[i];
  }

  /**
    A return of Read that continues exactly where `s` left off on inode `i`:
    the new offset is the old one plus n, the bytes are the inode's bytes
    between the two, and the handle, if any, is still on `i`. A failure or a
    block has n 0, so it leaves the offset where it was and a later Read can
    go on from it.
   */
  predicate ContinuesAt(s: State, i: nat, r: ReadReturn) {
    && 0 <= s.offset
    && i in r.world.fs.inodes
    && r.state.offset == s.offset + r.n
    && r.state.offset <= |r.world.fs.inodes[i]|
    && r.data == r.world.fs.inodes[i][s.offset..r.state.offset]
    && (r.state.handle.Open? ==> r.state.handle.inode == i)
  }

  /**
    A Read on a file that only grows while it waits, and is never removed or
    renamed, hands over exactly the bytes from the old offset on: the new
    offset is the old one plus n, nothing is skipped and nothing repeated.
    This holds for every return, so a Read after a timeout, a watcher error
    or a block goes on from the same offset.
   */
  lemma {:induction false} ReadAppendOnly(path: Path, o: Options, cap: nat, s: State, w: World, i: nat)
    requires Consistent(s) && AppendOnly(w, path, i)
    requires s.handle.Open? ==> s.handle.inode == i
    requires s.offset <= |w.fs.inodes[i]|
    ensures var r := Read(path, o, cap, s, w);
      && AppendOnly(r.world, path, i)
      && w.fs.inodes[i] <= r.world.fs.inodes[i]
      && ContinuesAt(s, i, r)
      && (r.status.Success? ==> r.state == State(Open(i, r.state.offset), r.state.offset))
    decreases |w.ticks|
  {
    TurnAppendOnly(path, o, cap, s, w, i);
    match ReadTurn(path, o, cap, s, w)
    case Return(r) =>
    case Again(s', w') => ReadAppendOnly(path, o, cap, s', w', i);
  }

  /**
    The usual tail: two Reads in a row on a file that only grows and is never
    removed or renamed, each of which may wait for write events first, hand
    over the file's bytes from the first offset on, in order, with nothing
    lost or repeated.
   */
  lemma ReadsConcatenateAppendOnly(path: Path, o: Options, cap1: nat, cap2: nat, s: State, w: World, i: nat)
    requires Consistent(s) && AppendOnly(w, path, i)
    requires s.handle.Open? ==> s.handle.inode == i
    requires s.offset <= |w.fs.inodes[i]|
    ensures var r1 := Read(path, o, cap1, s, w);
      var r2 := Read(path, o, cap2, r1.state, r1.world);
      r1.status.Success? && r2.status.Success? ==>
        && r2.state.offset == s.offset + r1.n + r2.n
        && r2.state.offset <= |Content(r2.world.fs, i)|
        && r1.data + r2.data == Content(r2.world.fs, i)[s.offset..r2.state.offset]
  {
    var r1 := Read(path, o, cap1, s, w);
    ReadAppendOnly(path, o, cap1, s, w, i);
    if r1.status.Success? {
      var r2 := Read(path, o, cap2, r1.state, r1.world);
      ReadAppendOnly(path, o, cap2, r1.state, r1.world, i);
      if r2.status.Success? {
        SlicesJoin(r1.world.fs.inodes[i], r2.world.fs.inodes[i], s.offset, r1.state.offset, r2.state.offset);
        assert Content(r2.world.fs, i) == r2.world.fs.inodes[i];
      }
    }
  }

  /** The bytes of several Reads in a row, each with its own buffer size; the result carries the last Read's status. */
  function ReadMany(path: Path, o: Options, caps: seq<nat>, s: State, w: World): (m: ReadReturn)
    decreases |caps|
  {
    if caps == [] then ReadReturn(0, [], Success, s, w)
    else
      var r := Read(path, o, caps[0], s, w);
      var rest := ReadMany(path, o, caps[1..], r.state, r.world);
      ReadReturn(r.n + rest.n, r.data + rest.data, rest.status, rest.state, rest.world)
  }

  /**
    Any number of Reads in a row on a file that only grows and is never
    removed or renamed, with timeouts, watcher errors or blocks among them,
    hand over together exactly the file's bytes from the first offset to the
    last one: nothing lost, nothing repeated, in order.
   */
  lemma {:induction false} ReadManyAppendOnly(path: Path, o: Options, caps: seq<nat>, s: State, w: World, i: nat)
    requires Consistent(s) && AppendOnly(w, path, i)
    requires s.handle.Open? ==> s.handle.inode == i
    requires s.offset <= |w.fs.inodes[i]|
    ensures var m := ReadMany(path, o, caps, s, w);
      && AppendOnly(m.world, path, i)
      && w.fs.inodes[i] <= m.world.fs.inodes[i]
      && ContinuesAt(s, i, m)
    decreases |caps|
  {
    if caps != [] {
      var r := Read(path, o, caps[0], s, w);
      ReadAppendOnly(path, o, caps[0], s, w, i);
      ReadManyAppendOnly(path, o, caps[1..], r.state, r.world, i);
      var m := ReadMany(path, o, caps[1..], r.state, r.world);
      SlicesJoin(r.world.fs.inodes[i], m.world.fs.inodes[i], s.offset, r.state.offset, m.state.offset);
    }
  }

  /** A shrink below the offset with closeOnTruncate: the handle is closed, the offset reset, and the call ends the stream. */
  lemma ReadTruncatedEndsStream(path: Path, o: Options, cap: nat, s: State, w: World, size: nat)
    requires Stat(w.fs, path) == Present(size) && size < s.offset
    requires o.closeOnTruncate
    ensures Read(path, o, cap, s, w) == ReadReturn(0, [], Failure(EOF), CloseFile(s), w)
  {
  }

  /**
    A shrink below the offset without closeOnTruncate: the handle is closed,
    the offset reset, and the same call goes on to read the new content from 0.
   */
  lemma ReadTruncatedRestarts(path: Path, o: Options, cap: nat, s: State, w: World, size: nat)
    requires Consistent(s) && Stat(w.fs, path) == Present(size) && size < s.offset && 0 < size
    requires !o.closeOnTruncate
    requires cap > 0 && !w.fs.readFault && !w.fs.openDenied
    ensures var i := w.fs.names[path];
      var n := Min(cap, size);
      Read(path, o, cap, s, w) == ReadReturn(n, w.fs.inodes[i][..n], Success, State(Open(i, n), n), w)
  {
    var i := w.fs.names[path];
    assert OpenFile(path, w.fs, Reset) == Opened(State(Open(i, 0), 0));
    assert Content(w.fs, i) == w.fs.inodes[i];
  }

  /**
    A file emptied below the offset, without closeOnTruncate: the handle is
    closed and the offset reset; once a write delivery makes the new bytes
    visible, the same call reads them from offset 0.
   */
  lemma ReadTruncatedToEmptyThenWritten(path: Path, o: Options, cap: nat, s: State, w: World, fs: Fs, rest: seq<Tick>)
    requires Consistent(s) && Stat(w.fs, path) == Present(0) && 0 < s.offset
    requires !o.closeOnTruncate
    requires w.ticks == [Tick(Event(path, Write), fs)] + rest
    requires Stat(fs, path).Present? && 0 < Stat(fs, path).size
    requires cap > 0 && !fs.readFault && !fs.openDenied
    ensures var i := fs.names[path];
      var n := Min(cap, |fs.inodes[i]|);
      Read(path, o, cap, s, w) == ReadReturn(n, fs.inodes[i][..n], Success, State(Open(i, n), n), World(fs, rest))
  {
    assert Accepts(ReadMask, path, path, Write) && !IsRemoval(Write);
    assert Next(w) == World(fs, rest);
    assert ReadTurn(path, o, cap, s, w) == Again(Reset, World(fs, rest));
    ReadFastPath(path, o, cap, Reset, World(fs, rest), Stat(fs, path).size);
  }

  /** A watcher error while waiting for the file is returned as it is, with the state unchanged. */
  lemma AwaitFileWatcherErrorPassesThrough(path: Path, o: Options, force: bool, s: State, w: World, code: int)
    requires Stat(w.fs, path) == Missing && (o.waitForFile || force)
    requires !(s.handle.Open? && o.closeOnDelete)
    requires |w.ticks| > 0 && w.ticks[0].outcome == WatchErr(code)
    ensures AwaitFile(path, o, force, s, w) == FileWait(0, Failure(Watcher(code)), s, Next(w))
  {
  }

  /** The stat error comes back only from the check that does not wait, so a forced wait (WaitForFile) never returns it. */
  lemma {:induction false} AwaitFileNotExistOnlyUnforced(path: Path, o: Options, force: bool, s: State, w: World)
    ensures AwaitFile(path, o, force, s, w).status == Failure(NotExist) ==> !o.waitForFile && !force
    decreases |w.ticks|
  {
    if Stat(w.fs, path).Missing? && (o.waitForFile || force) && !(s.handle.Open? && o.closeOnDelete) {
      var waited := Wait(Create, path, o.waitForFileTimeout, w);
      if waited.result.Matched? {
        AwaitFileNotExistOnlyUnforced(path, o, force, s, waited.world);
      }
    }
  }

  /** A missing file when the reader does not wait: the stat error, nothing consumed, nothing changed, even with a handle open. */
  lemma ReadMissingFails(path: Path, o: Options, cap: nat, s: State, w: World)
    requires Stat(w.fs, path) == Missing && !o.waitForFile
    ensures Read(path, o, cap, s, w) == ReadReturn(0, [], Failure(NotExist), s, w)
  {
  }

  /** The same check inside waitForFile, when the wait is not forced. */
  lemma AwaitFileMissingFails(path: Path, o: Options, s: State, w: World)
    requires Stat(w.fs, path) == Missing && !o.waitForFile
    ensures AwaitFile(path, o, false, s, w) == FileWait(0, Failure(NotExist), s, w)
  {
  }

  /** A handle whose file is gone, with closeOnDelete: the handle is closed and the stream ends, nothing consumed. */
  lemma AwaitFileLostHandleEndsStream(path: Path, o: Options, force: bool, s: State, w: World)
    requires Stat(w.fs, path) == Missing && (o.waitForFile || force)
    requires s.handle.Open? && o.closeOnDelete
    ensures AwaitFile(path, o, force, s, w) == FileWait(0, Failure(EOF), Reset, w)
  {
  }

  /** A file that is there is reported with its size and nothing changes. */
  lemma AwaitFilePresent(path: Path, o: Options, force: bool, s: State, w: World, size: nat)
    requires Stat(w.fs, path) == Present(size)
    ensures AwaitFile(path, o, force, s, w) == FileWait(size, Success, s, w)
  {
  }

  /** A timer firing while waiting for the file: end of stream or the wait-timeout error. */
  lemma AwaitFileTimesOut(path: Path, o: Options, force: bool, s: State, w: World)
    requires Stat(w.fs, path) == Missing && (o.waitForFile || force)
    requires !(s.handle.Open? && o.closeOnDelete)
    requires |w.ticks| > 0 && w.ticks[0].outcome == TimerFired && o.waitForFileTimeout > 0
    ensures AwaitFile(path, o, force, s, w)
         == FileWait(0, if o.treatTimeoutsAsEOF then Failure(EOF) else Failure(WaitTimeout), s, Next(w))
  {
  }

  /** With nothing new to read, Read waits; a firing timer ends it with end of stream or the idle-timeout error. */
  lemma ReadIdleTimesOut(path: Path, o: Options, cap: nat, s: State, w: World)
    requires s.offset >= 0 && Stat(w.fs, path) == Present(s.offset)
    requires |w.ticks| > 0 && w.ticks[0].outcome == TimerFired && o.idleTimeout > 0
    ensures Read(path, o, cap, s, w)
         == ReadReturn(0, [], if o.treatTimeoutsAsEOF then Failure(EOF) else Failure(IdleTimeout), s, Next(w))
  {
  }

  /** A watcher error during the wait is returned as it is. */
  lemma ReadWatcherErrorPassesThrough(path: Path, o: Options, cap: nat, s: State, w: World, code: int)
    requires s.offset >= 0 && Stat(w.fs, path) == Present(s.offset)
    requires |w.ticks| > 0 && w.ticks[0].outcome == WatchErr(code)
    ensures Read(path, o, cap, s, w) == ReadReturn(0, [], Failure(Watcher(code)), s, Next(w))
  {
  }

  /** A remove or rename of the watched file with closeOnDelete: end of stream, handle and offset untouched. */
  lemma ReadRemovalEndsStream(path: Path, o: Options, cap: nat, s: State, w: World, op: Op)
    requires s.offset >= 0 && Stat(w.fs, path) == Present(s.offset)
    requires |w.ticks| > 0 && w.ticks[0].outcome == Event(path, op)
    requires ReadMask & op == op && IsRemoval(op) && o.closeOnDelete
    ensures Read(path, o, cap, s, w) == ReadReturn(0, [], Failure(EOF), s, Next(w))
  {
  }

  /** The same without closeOnDelete: the handle is closed, the offset reset, and the loop goes on. */
  lemma ReadRemovalReopens(path: Path, o: Options, cap: nat, s: State, w: World, op: Op)
    requires s.offset >= 0 && Stat(w.fs, path) == Present(s.offset)
    requires |w.ticks| > 0 && w.ticks[0].outcome == Event(path, op)
    requires ReadMask & op == op && IsRemoval(op) && !o.closeOnDelete
    ensures Read(path, o, cap, s, w) == Read(path, o, cap, CloseFile(s), Next(w))
  {
  }

  /** Read's wait takes writes, removals, renames and attribute changes, but never a creation. */
  lemma ReadWaitFilter(path: Path, name: Path, op: Op)
    ensures Accepts(ReadMask, path, path, Write) && Accepts(ReadMask, path, path, Chmod)
    ensures Accepts(ReadMask, path, path, Remove) && Accepts(ReadMask, path, path, Rename)
    ensures Has(op, Create) ==> !Accepts(ReadMask, path, name, op)
  {
  }

  /** A remove or a rename, alone or with other bits, counts as a removal; a write or an attribute change does not. */
  lemma RemovalClassification(op: Op)
    ensures IsRemoval(Remove) && IsRemoval(Rename) && IsRemoval(Remove | Chmod) && IsRemoval(Rename | Write)
    ensures !IsRemoval(Write) && !IsRemoval(Chmod) && !IsRemoval(Write | Chmod) && !IsRemoval(Create)
    ensures IsRemoval(op) <==> Has(op, Remove | Rename)
  {
  }

  /**
    Timeout errors: none when timeouts are treated as end of stream, and
    each kind only when its timer could be armed.
   */
  lemma {:induction false} AwaitFileTimeoutErrors(path: Path, o: Options, force: bool, s: State, w: World)
    ensures var r := AwaitFile(path, o, force, s, w);
      && r.status != Failure(IdleTimeout)
      && (r.status == Failure(WaitTimeout) ==> !o.treatTimeoutsAsEOF && o.waitForFileTimeout > 0)
    decreases |w.ticks|
  {
    if Stat(w.fs, path).Missing? && (o.waitForFile || force) && !(s.handle.Open? && o.closeOnDelete) {
      var waited := Wait(Create, path, o.waitForFileTimeout, w);
      if waited.result.Matched? {
        AwaitFileTimeoutErrors(path, o, force, s, waited.world);
      }
    }
  }

  /** The same for Read, for both of its timeout errors. */
  lemma {:induction false} ReadTimeoutErrors(path: Path, o: Options, cap: nat, s: State, w: World)
    ensures var r := Read(path, o, cap, s, w);
      && (r.status == Failure(IdleTimeout) ==> !o.treatTimeoutsAsEOF && o.idleTimeout > 0)
      && (r.status == Failure(WaitTimeout) ==> !o.treatTimeoutsAsEOF && o.waitForFileTimeout > 0 && o.waitForFile)
    decreases |w.ticks|
  {
    AwaitFileTimeoutErrors(path, o, false, s, w);
    var found := AwaitFile(path, o, false, s, w);
    if found.status.Success? && !(found.state.offset > found.size && o.closeOnTruncate) {
      var s2 := if found.state.offset > found.size then CloseFile(found.state) else found.state;
      ReadOrWaitTimeoutErrors(path, o, cap, found.size, s2, found.world);
    }
    match ReadTurn(path, o, cap, s, w)
    case Return(r) =>
    case Again(s', w') => ReadTimeoutErrors(path, o, cap, s', w');
  }

  /** The read-or-wait part of a turn returns only the idle timeout, and only when its timer can arm. */
  lemma ReadOrWaitTimeoutErrors(path: Path, o: Options, cap: nat, size: nat, s: State, w: World)
    ensures var t := ReadOrWait(path, o, cap, size, s, w);
      t.Return? ==>
        && t.r.status != Failure(WaitTimeout)
        && (t.r.status == Failure(IdleTimeout) ==> !o.treatTimeoutsAsEOF && o.idleTimeout > 0)
  {
    var fetched := if s.offset < size then Fetch(path, w.fs, cap, s) else NoData(s);
    if fetched.FetchFailed? {
      assert fetched.err != WaitTimeout && fetched.err != IdleTimeout;
    }
  }
}
