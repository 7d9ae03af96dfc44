# tailreader in Dafny

A model of the tailing reader of `maurice2k/tailreader`. It is an
`io.Reader` over a file that another process keeps appending to, and
possibly truncates, deletes or recreates. It holds an optional file handle
and an offset, the number of bytes delivered through that handle. It turns
file-system notifications into blocking reads. The model covers:

- the configuration record and its option constructors
  (`config.dfy`, module `Config`). An option is a value naming the
  fields it sets. Building the record is a left fold over the zero record.
  The default list is used only when no option is given.
- the environment (`env.dfy`, module `Env`). The file system maps paths
  to inodes and inodes to their bytes. An open handle keeps its inode, so
  it still reads the old file after a rotation. Flags make every open,
  read or close of a file fail. The notification channel is a finite
  sequence of deliveries. Each delivery is an event (name and fsnotify op
  bits), a watcher error or a timer firing, and it may carry the next state
  of the file system. Stat, open and read are functions of that state.
- the event wait (`events.dfy`, module `Events`). It models the filter
  and timer logic of `waitForEventWithTimeout`.
- the state machine as functions over the handle/offset state and the
  environment (`tailing.dfy`, module `Tailing`). This covers `openFile`,
  `closeFile`, `waitForFile` and `Read`, with the properties of `Read`'s
  returns collected in `Delivered`.
- properties of those functions (`tailing_props.dfy`, module
  `TailingProps`). They cover the fast read path, reads that concatenate,
  truncation, a missing file, timeouts, watcher errors and deletion.
- the reader as a class (`reader.dfy`, module `Reader`, class
  `TailingReader`). The fields `handle`, `offset` and `watching` are
  updated in place. The loops of `waitForEventWithTimeout`, `waitForFile`,
  `Read` and the option fold are `while`/`for` loops. Each method is proved
  to produce exactly the result and the new state of its specifying
  function: `OpenFile`, `AwaitFile`, `WaitForFile` and `Read` match
  `Tailing.OpenFile`, `Tailing.AwaitFile` and `Tailing.Read`;
  `WaitForEvent` matches `Events.Wait`; the constructor's loop computes
  `Config.Configured`. `CloseFile` leaves the state `Tailing.CloseFile`
  gives and reports a failed close of an open file; `Close` closes the
  watcher and then the file, and has its contract stated directly.

A blocking call cannot be finished when the deliveries run out. The wait
then reports `Exhausted`, and `Read`/`WaitForFile` return `Blocked`. This
keeps every loop finite and leaves the rest of the behaviour exact.

Four behaviours of the code that the model keeps as they are:

- A missing file without WaitForFile is an error at once, even when a handle
  is open; the deletion rule is never reached (tailreader.go:137-140).
- With a handle open, the file gone and CloseOnDelete off, the handle is
  kept and the reader waits for a create event (tailreader.go:142-152).
- Read's event wait does not include create events (tailreader.go:203).
- `WaitForFile()` returns only an error, not the file's size
  (tailreader.go:122-125).

## Model

| member | source | states |
|---|---|---|
| Config.Apply | options.go:33-62 | each option sets the values it was built with, and every field outside its own field(s) keeps its value; WithWaitForFile sets both WaitForFile and WaitForFileTimeout |
| Config.ApplyIdempotent | options.go:33-62 | applying the same option twice gives the record that applying it once gives |
| Config.ApplyWritesOwnValue | options.go:33-62 | the value an option writes into its own field does not depend on the record it is applied to |
| Config.ApplyAllAppend | tailreader.go:55-57 | folding a concatenated option list is folding the first part, then the second |
| Config.ApplyAllRepeatLast | tailreader.go:55-57 | repeating the last option of a list changes nothing |
| Config.ApplyAllKeepsUntouched | tailreader.go:55-57 | a field that no option in the list writes keeps its starting value |
| Config.ApplyAllLastWriterWins | tailreader.go:55-57 | the last option in the list that writes a field decides its value |
| Config.ApplyAll | tailreader.go:55-57 | after the fold the last option of a non-empty list is in force |
| Config.Configured | tailreader.go:27-57 | an empty option list yields the defaults: WaitForFile true, WaitForFileTimeout 0, CloseOnDelete false and every other field zero/false; otherwise the last option given is in force |
| Config.ConfiguredNonEmptyDoesNotWait | tailreader.go:47-57 | a non-empty list is folded over the zero record, so without a WithWaitForFile option the reader does not wait for the file |
| Config.ConfiguredNonEmptyZeroElsewhere | tailreader.go:47-57 | with a non-empty list, every field no given option writes holds its zero value |
| Env.Stat | tailreader.go:114-120 | the file is present exactly when opening it does not report it missing, and its size is the length of the linked inode's bytes |
| Env.OpenPath | tailreader.go:87-90 | a success names the inode linked at the path; a permission failure happens only when opens are denied |
| Env.ReadAt | tailreader.go:191-194 | an empty buffer reads nothing and never fails; a fault delivers nothing; bytes read are the inode's bytes from the position on, at most the buffer's size, and stop short only at the end of the file |
| Events.AcceptedBitsRequested | tailreader.go:235 | an accepted event is for the watched path and each of its bits is a requested one |
| Events.CreateWaitAcceptsOnlyCreate | tailreader.go:152 | the wait for the file accepts exactly a create event (or one without bits) for the watched path |
| Events.Wait | tailreader.go:225-244 | a wait consumes deliveries; a match carries an op inside the mask for the watched path; a timeout needs a positive timeout; running out leaves no deliveries |
| Events.WaitIsFirstDeciding | tailreader.go:232-243 | the wait returns the verdict of the first deciding delivery and leaves exactly the deliveries after it; it runs out exactly when no delivery decides |
| Events.SiblingEventSkipped | tailreader.go:235 | an event for another name in the watched directory is skipped |
| Events.UnrequestedEventSkipped | tailreader.go:235 | an event with an op bit outside the mask is skipped |
| Events.UnarmedWaitNeverTimesOut | tailreader.go:226-230 | with a timeout of 0 or less no timer is armed and the wait never times out |
| Tailing.TimeoutStatus | tailreader.go:153-158 | a timed-out wait always fails, with EOF or the given timeout error, and the timeout error only when timeouts are not treated as end of stream |
| Tailing.OpenFile | tailreader.go:82-96 | an open handle is kept unchanged; otherwise a success opens the linked inode at offset 0, and a failure leaves the state alone; handle and offset stay consistent |
| Tailing.CloseFile | tailreader.go:98-112 | afterwards there is no handle, and from a consistent state the offset is 0 |
| Tailing.AwaitFile | tailreader.go:127-164 | a success reports the current size of the file in the world it returns; every failure reports size 0; the state is unchanged except when a lost handle with CloseOnDelete is closed and EOF returned |
| Tailing.Fetch | tailreader.go:183-200 | a read that gets bytes gets between 1 and cap of them, exactly the inode's bytes ending at the new position, which is the old offset plus n (or n after a fresh open) |
| Tailing.AfterWait | tailreader.go:203-221 | a returning wait has no bytes, is not a success and leaves the state alone; a continuing one keeps the state or resets it |
| Tailing.ReadFound | tailreader.go:173-221 | after the stat: a turn that goes on consumed a delivery and keeps the state consistent; a turn that returns satisfies Delivered |
| Tailing.ReadOrWait | tailreader.go:183-221 | the same for the read-or-wait part of a turn |
| Tailing.ReadTurn | tailreader.go:167-221 | the same for one whole turn of Read's loop |
| Tailing.Read | tailreader.go:166-223 | every return satisfies Delivered: an error or end of stream has n 0 and no bytes; a success has 0 < n <= cap and the bytes of the open file ending at the new offset, which starts either at the old offset or at 0 (ReadAppendOnly says when it must be the old offset) |
| TailingProps.ReadFastPath | tailreader.go:183-199 | with new data on the linked file, Read opens it if needed, returns min(cap, size - offset) bytes from the offset, advances the offset by that amount and consumes no delivery |
| TailingProps.ReadFromOffset | tailreader.go:183-199 | the fast path succeeds and delivers the file's bytes from the old offset to the new one |
| TailingProps.ReadsConcatenate | tailreader.go:183-199 | two successive reads that each find new data already present, with appends in between, deliver the file's bytes from the first offset on in order, with nothing lost or repeated |
| TailingProps.WaitAppendOnly | tailreader.go:232-243 | a wait on a file that only grows leaves it growing, and an event it returns is no removal |
| TailingProps.AfterWaitAppendOnly | tailreader.go:203-221 | on a growing file the wait at the end of a turn either returns a non-success or goes round again with the state unchanged |
| TailingProps.FetchOnLinked | tailreader.go:183-200 | reading the inode the path is linked to: new bytes continue exactly at the offset, and no data or a failed open or read keeps the offset and the inode |
| TailingProps.TurnAppendOnly | tailreader.go:167-221 | one turn on a growing file sees no truncation and drops no handle: every return, success or not, continues at the old offset plus n with exactly the bytes in between, and another turn keeps the offset |
| TailingProps.ReadAppendOnly | tailreader.go:166-223 | a Read on a file that only grows while it waits and is never removed or renamed leaves the offset at the old one plus n and hands over exactly the file's bytes in between; a timeout, watcher error or block has n 0 and so leaves offset and inode as they were; the file in the returned world still begins with the one it started from |
| TailingProps.ReadManyAppendOnly | tailreader.go:166-223 | any number of Reads in a row on such a file, with failed ones among them, hand over together exactly the file's bytes from the first offset to the last, in order, with nothing lost or repeated |
| TailingProps.ReadsConcatenateAppendOnly | tailreader.go:166-223 | two Reads in a row on such a file, each of which may wait for write events first, hand over the file's bytes from the first offset on, in order, with nothing lost or repeated |
| TailingProps.ReadTruncatedEndsStream | tailreader.go:173-180 | a size below the offset with CloseOnTruncate closes the handle, resets the offset and returns (0, EOF) |
| TailingProps.ReadTruncatedRestarts | tailreader.go:173-199 | without CloseOnTruncate the same call reads the new content from offset 0 |
| TailingProps.ReadTruncatedToEmptyThenWritten | tailreader.go:173-199 | a file emptied below the offset, without CloseOnTruncate: the handle is closed, and after a write delivery the same call reads the new bytes from offset 0 |
| TailingProps.ReadMissingFails | tailreader.go:137-140 | a missing file without WaitForFile makes Read return the stat error with nothing consumed and the state unchanged, even with a handle open |
| TailingProps.AwaitFileMissingFails | tailreader.go:137-140 | the same check inside an unforced waitForFile |
| TailingProps.AwaitFileLostHandleEndsStream | tailreader.go:142-148 | an open handle whose file is gone, with CloseOnDelete: closeFile runs and EOF is returned, nothing consumed |
| TailingProps.AwaitFilePresent | tailreader.go:129-133 | a file that is there is reported with its size and nothing changes |
| TailingProps.AwaitFileTimesOut | tailreader.go:152-161 | a timer firing while waiting for the file gives EOF with TreatTimeoutsAsEOF and ErrWaitTimeout otherwise |
| TailingProps.AwaitFileWatcherErrorPassesThrough | tailreader.go:160-162 | a watcher error while waiting for the file is returned unchanged, with the state unchanged |
| TailingProps.AwaitFileNotExistOnlyUnforced | tailreader.go:137-140 | waitForFile returns the stat error only when it neither waits for files nor is forced, so WaitForFile never returns it |
| TailingProps.ReadIdleTimesOut | tailreader.go:203-214 | a timer firing while Read waits gives EOF with TreatTimeoutsAsEOF and ErrIdleTimeout otherwise, state unchanged |
| TailingProps.ReadWatcherErrorPassesThrough | tailreader.go:212-214 | a watcher error during Read's wait is returned unchanged |
| TailingProps.ReadRemovalEndsStream | tailreader.go:216-219 | a Remove or Rename event with CloseOnDelete returns (0, EOF) and does not touch the handle |
| TailingProps.ReadRemovalReopens | tailreader.go:216-221 | without CloseOnDelete the handle is closed, the offset reset and the loop goes on from there |
| TailingProps.ReadWaitFilter | tailreader.go:203 | Read's wait accepts writes, removals, renames and attribute changes of the watched path, and never an event with the create bit |
| TailingProps.RemovalClassification | tailreader.go:216 | an op counts as a removal exactly when it has the remove or the rename bit |
| TailingProps.ReadOrWaitTimeoutErrors | tailreader.go:203-210 | the read-or-wait part of a turn never returns ErrWaitTimeout, and returns ErrIdleTimeout only with a positive idle timeout and TreatTimeoutsAsEOF off |
| TailingProps.AwaitFileTimeoutErrors | tailreader.go:152-161 | waitForFile never returns ErrIdleTimeout, and returns ErrWaitTimeout only without TreatTimeoutsAsEOF and with a positive wait timeout |
| TailingProps.ReadTimeoutErrors | tailreader.go:153-210 | Read returns ErrIdleTimeout only with a positive idle timeout, and ErrWaitTimeout only with WaitForFile and a positive wait timeout, never with TreatTimeoutsAsEOF |
| Reader.TailingReader.constructor | tailreader.go:44-57 | the option loop leaves the record Configured gives (defaults only for an empty list); no handle, offset 0 |
| Reader.TailingReader.Close | tailreader.go:73-80 | the watcher is gone; a failed watcher close is returned with the file left alone; otherwise there is no handle, offset 0, and a failed file close is reported |
| Reader.TailingReader.OpenFile | tailreader.go:82-96 | the new state and status are those Tailing.OpenFile gives |
| Reader.TailingReader.CloseFile | tailreader.go:98-112 | the new state is Tailing.CloseFile of the old one, and a failed close of an open file is reported |
| Reader.TailingReader.WaitForEvent | tailreader.go:225-244 | the loop returns exactly what Events.Wait gives |
| Reader.TailingReader.AwaitFile | tailreader.go:127-164 | the loop returns the size, status, state and world Tailing.AwaitFile gives, and keeps the state consistent |
| Reader.TailingReader.WaitForFile | tailreader.go:122-125 | a forced waitForFile, with its status, state and world |
| Reader.TailingReader.ReadOneTurn | tailreader.go:167-221 | one pass of the loop body does what Tailing.ReadTurn says |
| Reader.TailingReader.ReadOrWaitOnce | tailreader.go:183-221 | the read-or-wait part of a pass does what Tailing.ReadOrWait says |
| Reader.TailingReader.Read | tailreader.go:166-223 | returns what Tailing.Read gives, keeps handle and offset consistent, and its bytes are those of the open file ending at the new offset |

## Left out

- Setting up the watcher (`fsnotify.NewWatcher`, `watcher.Add` on the parent directory, tailreader.go:59-68), a foreign library call. The constructor starts with a working watcher, and setup errors are not modelled.
- Channels, `select` and `time.NewTimer` (tailreader.go:226-243) are concurrency and wall-clock time. They are replaced by the finite delivery sequence. An armed timer fires where its delivery stands in that sequence.
- Elapsed time: `time.Duration` is an `int` that is only compared with 0.
- A wait that would block forever is cut off when the deliveries run out and reported as `Blocked`. What the Go implementation does after that point is not modelled.
- `os.Stat`, `os.Open`, `File.Read` and `File.Close` as real I/O. They are functions of the abstract file system, and their errors are tagged outcomes (missing, permission denied, read fault, close fault).
- Reader.TailingReader.Read: the caller's buffer `p` is a capacity plus the returned bytes, not an array written in place. A read returns as many bytes as both the buffer and the file allow, so the short reads an operating system may give are not modelled.
- Tailing.Read: the offset is an unbounded integer, so the int64 overflow of `offset` that a file larger than 2^63 bytes would cause is not modelled.
- Calls after `Close` are excluded, because `Read`, `WaitForFile` and `Close` require a live watcher. The Go implementation uses the nil watcher only when a call reaches an event wait or a second `Close` (tailreader.go:74, 234): a `Read` after `Close` that finds new data reopens the file and returns bytes, which the model does not cover.
- Tailing.Read: the file system changes only when a delivery is consumed, so the stat, the open and the read of one turn see the same snapshot. An append, a deletion or a truncation between the stat and the read is not modelled: the read cannot return more than size - offset bytes (which `ReadFastPath` uses), and the open after a successful stat cannot report a missing file (tailreader.go:186-189).
- Env.Stat: every stat failure is the file's absence, reported as NotExist. The Go implementation treats every stat error as absence too, but returns the error it got, which may be another one (tailreader.go:115-118, 139).
- Tailing.Read: `Delivered` allows a success to start at 0 instead of the old offset, without saying that only a truncation or a removal close leads there. `ReadAppendOnly` proves the exact continuation for a file that only grows and is not removed; the other cases are covered by `ReadTruncatedRestarts`, `ReadTruncatedToEmptyThenWritten` and `ReadRemovalReopens`.
- Options are only the five `With*` constructors. The exported type `Option` (options.go:31) is any function on `*Options`, and for an arbitrary one the idempotence (`ApplyIdempotent`) and last-writer (`ApplyAllLastWriterWins`) properties need not hold.
- Concurrent calls on one reader, which the library does not support.
- example/main.go is a demo loop with logging. tailreader_test.go depends on a real file system, so it is not part of this model.
