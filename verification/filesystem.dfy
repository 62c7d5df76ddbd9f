/** An abstract file system: a map from path to file contents, with the
    three calls the store makes (`os.ReadFile`, `os.WriteFile`, `os.Rename`).
    Whether a call fails is not decided here: each call takes a fault
    parameter, so every failure the operating system could report is an
    input the store's laws range over. */
module FileSystem {
  import opened Errors
  import opened Codecs

  type Path = string

  datatype Disk = Disk(files: map<Path, Bytes>)

  /** What `os.ReadFile` reports: a missing file (`os.ErrNotExist`), some other
      failure, or the file's bytes. */
  datatype ReadResult = NotExist | ReadFailed | Contents(bytes: Bytes)

  /** How a write ends. A failed write may still have created or truncated
      its target, leaving `residue` behind. */
  datatype WriteFault = WriteOk | WriteFails(residue: Option<Bytes>)

  /** The error of a file-system call, together with the disk it leaves. */
  datatype Effect = Effect(outcome: Outcome, disk: Disk)

  function ReadFile(d: Disk, p: Path, fails: bool): (r: ReadResult)
    ensures r.Contents? ==> Lookup(d.files, p) == Some(r.bytes)
    ensures r.NotExist? ==> Lookup(d.files, p) == None
    ensures fails ==> r == ReadFailed
    ensures !fails ==> !r.ReadFailed?
  {
    if fails then ReadFailed
    else if p in d.files then Contents(d.files[p])
    else NotExist
  }

  /** Writes `b` to `p`, creating or truncating the file. Only `p` can change. */
  function WriteFile(d: Disk, p: Path, b: Bytes, fault: WriteFault): (r: Effect)
    ensures r.outcome.Pass? <==> fault.WriteOk?
    ensures r.outcome.Pass? ==> Lookup(r.disk.files, p) == Some(b)
    ensures r.outcome.Fail? ==> r.outcome.error == IoError(WriteOp)
    ensures r.disk.files - {p} == d.files - {p}
  {
    match fault
    case WriteOk => Effect(Pass, Disk(d.files[p := b]))
    case WriteFails(None) => Effect(Fail(IoError(WriteOp)), d)
    case WriteFails(Some(left)) => Effect(Fail(IoError(WriteOp)), Disk(d.files[p := left]))
  }

  /** Moves the file at `src` onto `dst`, replacing whatever `dst` held. This
      is the atomic step: it either happens entirely or leaves the disk as
      it was. */
  function Rename(d: Disk, src: Path, dst: Path, fails: bool): (r: Effect)
    ensures r.outcome.Pass? <==> !fails && src in d.files
    ensures r.outcome.Pass? ==> Lookup(r.disk.files, dst) == Lookup(d.files, src)
    ensures r.outcome.Pass? && src != dst ==> Lookup(r.disk.files, src) == None
    ensures r.outcome.Fail? ==> r == Effect(Fail(IoError(RenameOp)), d)
    ensures r.disk.files - {src, dst} == d.files - {src, dst}
  {
    if fails || src !in d.files then Effect(Fail(IoError(RenameOp)), d)
    else Effect(Pass, Disk((d.files - {src})[dst := d.files[src]]))
  }
}
