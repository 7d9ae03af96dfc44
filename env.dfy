/**
  The operating system as the tailing reader sees it: a file system that maps
  paths to inodes and inodes to their bytes, and a finite stream of
  notifications, each of which may come with a new state of the file system.
  Stat, open and read are functions of this state.
 */
module Env {

  newtype byte = b: int | 0 <= b < 256

  type Path = string

  /** Operation bits of a change notification (the values fsnotify uses). */
  type Op = bv32

  const Create: Op := 1
  const Write: Op := 2
  const Remove: Op := 4
  const Rename: Op := 8
  const Chmod: Op := 16

  /** `op` has at least one of the bits of `h`. */
  predicate Has(op: Op, h: Op) {
    op & h != 0
  }

  /**
    A snapshot of the file system. An open handle keeps its inode, so it can
    outlive the name it was opened under. `openDenied` makes every open fail
    (a permission error); `readFault` makes every read fail and `closeFault`
    every close of a file (I/O errors).
   */
  datatype Fs = Fs(names: map<Path, nat>, inodes: map<nat, seq<byte>>, openDenied: bool, readFault: bool, closeFault: bool)

  /** What the watcher can deliver: an event, an error, or the firing of an armed timer. */
  datatype Outcome =
    | Event(name: Path, op: Op)
    | WatchErr(code: int)
    | TimerFired

  /** One delivery; `after` is the file system from the moment it is delivered on. */
  datatype Tick = Tick(outcome: Outcome, after: Fs)

  /** The current file system and the deliveries still to come. */
  datatype World = World(fs: Fs, ticks: seq<Tick>)

  /** Consumes the first pending delivery. */
  function Next(w: World): (r: World)
    requires |w.ticks| > 0
    ensures |r.ticks| == |w.ticks| - 1
  {
    World(w.ticks[0].after, w.ticks[1..])
  }

  datatype StatResult = Present(size: nat) | Missing

  /** os.Stat: the size of the file linked at `path`, or a failure. */
  function Stat(fs: Fs, path: Path): (r: StatResult)
    ensures r.Present? <==> !OpenPath(fs, path).OpenMissing?
    ensures r.Present? ==> r.size == |Content(fs, fs.names[path])|
  {
    if path in fs.names && fs.names[path] in fs.inodes then Present(|fs.inodes[fs.names[path]]|) else Missing
  }

  datatype OpenResult = OpenOk(inode: nat) | OpenMissing | OpenDenied

  /** os.Open: the inode linked at `path`, or why it cannot be opened. */
  function OpenPath(fs: Fs, path: Path): (r: OpenResult)
    ensures r.OpenOk? ==> path in fs.names && r.inode == fs.names[path] && r.inode in fs.inodes
    ensures r.OpenDenied? ==> fs.openDenied
  {
    if !(path in fs.names && fs.names[path] in fs.inodes) then OpenMissing
    else if fs.openDenied then OpenDenied
    else OpenOk(fs.names[path])
  }

  /** The bytes of an inode; an inode the file system no longer has reads as empty. */
  function Content(fs: Fs, inode: nat): (r: seq<byte>) {
    if inode in fs.inodes then fs.inodes[inode] else []
  }

  /** The result of one read: bytes delivered, or a fault (end of file is a read of 0 bytes). */
  datatype FileRead = FileRead(n: nat, bytes: seq<byte>, fault: bool)

  /**
    File.Read into a buffer of `cap` bytes from position `pos` of an inode:
    as many bytes as both the buffer and the file allow. A read into an empty
    buffer returns at once without touching the file, so it cannot fail.
   */
  function ReadAt(fs: Fs, inode: nat, pos: nat, cap: nat): (r: FileRead)
    ensures cap == 0 ==> r == FileRead(0, [], false)
    ensures r.fault ==> r.n == 0 && r.bytes == [] && fs.readFault
    ensures !r.fault && r.n == 0 ==> r.bytes == [] && (cap == 0 || pos >= |Content(fs, inode)|)
    ensures r.n > 0 ==> r.n <= cap && pos + r.n <= |Content(fs, inode)| && r.bytes == Content(fs, inode)[pos..pos + r.n]
    ensures r.n > 0 ==> r.n == cap || pos + r.n == |Content(fs, inode)|
  {
    var data := Content(fs, inode);
    if cap == 0 then FileRead(0, [], false)
    else if fs.readFault then FileRead(0, [], true)
    else if pos >= |data| then FileRead(0, [], false)
    else
      var n := if cap < |data| - pos then cap else |data| - pos;
      FileRead(n, data[pos..pos + n], false)
  }
}
