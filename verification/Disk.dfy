/**
 The file system as the store sees it. Every file has the bytes that are certainly on the
 device and the bytes its readers see; a rename or unlink is pending until the directory
 is synced. A crash may keep any prefix of unsynced bytes and of pending directory
 operations; truncation to empty either reaches the device or does not.
 */
module Disks {
  import opened Bytes

  datatype File = File(durable: bytes, current: bytes)

  datatype DirOp = Link(id: nat, file: File) | Unlink(id: nat)

  /** wal.log, the *.sst.tmp files, the durable *.sst entries and the directory changes not yet synced. */
  datatype DiskState = DiskState(wal: File, tmp: map<nat, File>, dir: map<nat, File>, pending: seq<DirOp>)

  function ApplyOp(dir: map<nat, File>, op: DirOp): map<nat, File> {
    match op
    case Link(id, file) => dir[id := file]
    case Unlink(id) => dir - {id}
  }

  function ApplyOps(dir: map<nat, File>, ops: seq<DirOp>): map<nat, File>
    decreases |ops|
  {
    if ops == [] then dir else ApplyOp(ApplyOps(dir, ops[..|ops| - 1]), ops[|ops| - 1])
  }

  // ---- system calls ------------------------------------------------------------------

  function Synced(b: bytes): File { File(b, b) }

  function AppendWal(d: DiskState, b: bytes): DiskState {
    d.(wal := d.wal.(current := d.wal.current + b))
  }

  function SyncWal(d: DiskState): DiskState {
    d.(wal := Synced(d.wal.current))
  }

  function TruncateWal(d: DiskState): DiskState {
    d.(wal := d.wal.(current := []))
  }

  /** File::create: a stale temporary file of the same name is truncated, not yet durably. */
  function CreateTmp(d: DiskState, id: nat): DiskState {
    d.(tmp := d.tmp[id := File(if id in d.tmp then d.tmp[id].durable else [], [])])
  }

  function WriteTmp(d: DiskState, id: nat, b: bytes): DiskState
    requires id in d.tmp
  {
    d.(tmp := d.tmp[id := d.tmp[id].(current := b)])
  }

  function SyncTmp(d: DiskState, id: nat): DiskState
    requires id in d.tmp
  {
    d.(tmp := d.tmp[id := Synced(d.tmp[id].current)])
  }

  function RenameTmp(d: DiskState, id: nat): DiskState
    requires id in d.tmp
  {
    d.(tmp := d.tmp - {id}, pending := d.pending + [Link(id, d.tmp[id])])
  }

  function UnlinkSst(d: DiskState, id: nat): DiskState {
    d.(pending := d.pending + [Unlink(id)])
  }

  function SyncDir(d: DiskState): DiskState {
    d.(dir := ApplyOps(d.dir, d.pending), pending := [])
  }

  // ---- crashes -----------------------------------------------------------------------

  /** What is found after a restart. */
  datatype Image = Image(wal: bytes, tmp: map<nat, bytes>, ssts: map<nat, bytes>)

  predicate FileOutcome(f: File, c: bytes) {
    c == f.durable || (c <= f.current && (f.durable <= f.current ==> f.durable <= c))
  }

  predicate DirOutcome(dir: map<nat, File>, ssts: map<nat, bytes>) {
    && ssts.Keys == dir.Keys
    && forall id :: id in dir ==> FileOutcome(dir[id], ssts[id])
  }

  ghost predicate CrashImage(d: DiskState, c: Image) {
    && FileOutcome(d.wal, c.wal)
    && exists k :: 0 <= k <= |d.pending| && DirOutcome(ApplyOps(d.dir, d.pending[..k]), c.ssts)
  }

  function Reboot(c: Image): DiskState {
    DiskState(Synced(c.wal), map id | id in c.tmp :: Synced(c.tmp[id]), map id | id in c.ssts :: Synced(c.ssts[id]), [])
  }

  // ---- the device as an object --------------------------------------------------------

  /** One mounted directory; `history` records the state after every system call. */
  class Disk {
    var now: DiskState
    ghost var history: seq<DiskState>

    constructor (image: Image)
      ensures now == Reboot(image) && history == []
    {
      now := Reboot(image);
      history := [];
    }

    method Append(b: bytes)
      modifies this
      ensures now == AppendWal(old(now), b) && history == old(history) + [now]
    {
      now := AppendWal(now, b);
      history := history + [now];
    }

    method SyncLog()
      modifies this
      ensures now == SyncWal(old(now)) && history == old(history) + [now]
    {
      now := SyncWal(now);
      history := history + [now];
    }

    method SetLogLen0()
      modifies this
      ensures now == TruncateWal(old(now)) && history == old(history) + [now]
    {
      now := TruncateWal(now);
      history := history + [now];
    }

    method Create(id: nat)
      modifies this
      ensures now == CreateTmp(old(now), id) && history == old(history) + [now]
    {
      now := CreateTmp(now, id);
      history := history + [now];
    }

    method WriteAll(id: nat, b: bytes)
      requires id in now.tmp
      modifies this
      ensures now == WriteTmp(old(now), id, b) && history == old(history) + [now]
    {
      now := WriteTmp(now, id, b);
      history := history + [now];
    }

    method SyncFile(id: nat)
      requires id in now.tmp
      modifies this
      ensures now == SyncTmp(old(now), id) && history == old(history) + [now]
    {
      now := SyncTmp(now, id);
      history := history + [now];
    }

    method Rename(id: nat)
      requires id in now.tmp
      modifies this
      ensures now == RenameTmp(old(now), id) && history == old(history) + [now]
    {
      now := RenameTmp(now, id);
      history := history + [now];
    }

    method Remove(id: nat)
      modifies this
      ensures now == UnlinkSst(old(now), id) && history == old(history) + [now]
    {
      now := UnlinkSst(now, id);
      history := history + [now];
    }

    method SyncDirectory()
      modifies this
      ensures now == SyncDir(old(now)) && history == old(history) + [now]
    {
      now := SyncDir(now);
      history := history + [now];
    }
  }

  /** A crash may keep any prefix of the unsynced log bytes together with any prefix of the pending directory changes. */
  lemma AnyPrefixIsPossible(d: DiskState, n: nat, k: nat, c: Image)
    requires d.wal.durable <= d.wal.current && |d.wal.durable| <= n <= |d.wal.current| && k <= |d.pending|
    requires c.wal == d.wal.current[..n]
    requires c.ssts == map id | id in ApplyOps(d.dir, d.pending[..k]) :: ApplyOps(d.dir, d.pending[..k])[id].current
    ensures CrashImage(d, c)
  {
    hide ApplyOps;
    assert DirOutcome(ApplyOps(d.dir, d.pending[..k]), c.ssts);
  }
}
