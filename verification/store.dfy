/** The generic key-value store `Store[T]`: a mapping from string key to that
    key's encoded value, bound to one backing file. Each operation is a
    transition over the in-memory store and the disk. The reader/writer lock
    is not modelled: every operation is one atomic step. */
module JsonStore {
  import opened Errors
  import opened Codecs
  import opened FileSystem

  /** The store's state: the bound path and the encoded entries. */
  datatype Store = Store(path: Path, data: Entries)

  /** The failures the disk may inflict on one operation: the read in
      `load`, the one write the operation makes, and the rename in `persist`. */
  datatype Faults = Faults(readFails: bool, write: WriteFault, renameFails: bool)

  const NoFaults := Faults(false, WriteOk, false)

  /** The result of a mutating operation: its error, and the store and disk after it. */
  datatype Step = Step(outcome: Outcome, store: Store, disk: Disk)

  /** The result of `NewStore`: the store or the error, and the disk after it. */
  datatype Opened = Opened(result: Result<Store>, disk: Disk)

  /** The result of `Get`: the value and the error, Go style. */
  datatype Fetched<T> = Fetched(value: T, outcome: Outcome)

  /** The staging file `persist` writes before the rename. */
  function TmpPath(p: Path): (t: Path)
    ensures t != p
  {
    p + ".tmp"
  }

  /** `NewStore` with its `load`: bootstrap a store from the file at `path`.
      A missing file is created holding `{}`; a zero-length file gives an
      empty store and is left as it is; any other file must decode to a
      mapping, which becomes the store's entries. */
  function NewStore(dc: DocCodec, path: Path, d: Disk, f: Faults): (r: Opened)
    ensures r.result.Ok? ==> r.result.value.path == path
    ensures f.readFails ==> r == Opened(Err(IoError(ReadOp)), d)
    ensures !f.readFails && path !in d.files ==>
              && (r.result.Ok? <==> f.write.WriteOk?)
              && (r.result.Ok? ==> r.result.value.data == map[] && Lookup(r.disk.files, path) == Some(EmptyDocument))
              && (r.result.Err? ==> r.result.error == IoError(WriteOp))
              && r.disk.files - {path} == d.files - {path}
    ensures !f.readFails && path in d.files && |d.files[path]| == 0 ==>
              r == Opened(Ok(Store(path, map[])), d)
    ensures !f.readFails && path in d.files && |d.files[path]| > 0 ==>
              && r.disk == d
              && (r.result.Ok? <==> dc.decode(d.files[path]).Some?)
              && (r.result.Ok? ==> Some(r.result.value.data) == dc.decode(d.files[path]))
              && (r.result.Err? ==> r.result.error == DecodeError)
  {
    match ReadFile(d, path, f.readFails)
    case ReadFailed => Opened(Err(IoError(ReadOp)), d)
    case NotExist =>
      var w := WriteFile(d, path, EmptyDocument, f.write);
      if w.outcome.Pass? then Opened(Ok(Store(path, map[])), w.disk)
      else Opened(Err(w.outcome.error), w.disk)
    case Contents(b) =>
      if |b| == 0 then Opened(Ok(Store(path, map[])), d)
      else match dc.decode(b)
        case None => Opened(Err(DecodeError), d)
        case Some(m) => Opened(Ok(Store(path, m)), d)
  }

  /** `persist`: serialise the whole mapping, write it to the staging file,
      then rename the staging file over the backing file. The backing file
      either receives the new document or keeps its old contents; nothing
      but the backing and staging files is touched. */
  function Persist(dc: DocCodec, s: Store, d: Disk, f: Faults): (r: Effect)
    ensures r.outcome.Pass? <==> dc.encode(s.data).Some? && f.write.WriteOk? && !f.renameFails
    ensures r.outcome.Pass? ==> Lookup(r.disk.files, s.path) == dc.encode(s.data) && Lookup(r.disk.files, TmpPath(s.path)) == None
    ensures r.outcome.Fail? ==> Lookup(r.disk.files, s.path) == Lookup(d.files, s.path)
    ensures dc.encode(s.data).None? ==> r == Effect(Fail(EncodeError), d)
    ensures dc.encode(s.data).Some? && f.write.WriteFails? ==> r.outcome == Fail(IoError(WriteOp))
    ensures dc.encode(s.data).Some? && f.write.WriteOk? && f.renameFails ==> r.outcome == Fail(IoError(RenameOp))
    ensures r.disk.files - {s.path, TmpPath(s.path)} == d.files - {s.path, TmpPath(s.path)}
  {
    match dc.encode(s.data)
    case None => Effect(Fail(EncodeError), d)
    case Some(b) =>
      var tmp := TmpPath(s.path);
      var w := WriteFile(d, tmp, b, f.write);
      if w.outcome.Fail? then w
      else Rename(w.disk, tmp, s.path, f.renameFails)
  }

  /** `Set`: encode `v`, store it under `key`, persist. An encoding failure
      is reported before anything changes. Once encoding succeeds the entry
      is in memory whatever persisting does; a failed persist leaves the
      backing file's old contents. Only the entry for `key` changes. */
  function Set<T>(c: Codec<T>, dc: DocCodec, s: Store, d: Disk, f: Faults, key: string, v: T): (r: Step)
    ensures r.store.path == s.path
    ensures c.encode(v).None? ==> r == Step(Fail(EncodeError), s, d)
    ensures c.encode(v).Some? ==>
              && key in r.store.data && Some(r.store.data[key]) == c.encode(v)
              && r.store.data.Keys == s.data.Keys + {key}
              && (forall k :: k in s.data && k != key ==> r.store.data[k] == s.data[k])
    ensures c.encode(v).Some? ==>
              (r.outcome.Pass? <==> dc.encode(r.store.data).Some? && f.write.WriteOk? && !f.renameFails)
    ensures c.encode(v).Some? && dc.encode(r.store.data).None? ==> r.outcome == Fail(EncodeError)
    ensures c.encode(v).Some? && dc.encode(r.store.data).Some? && f.write.WriteFails? ==>
              r.outcome == Fail(IoError(WriteOp))
    ensures c.encode(v).Some? && dc.encode(r.store.data).Some? && f.write.WriteOk? && f.renameFails ==>
              r.outcome == Fail(IoError(RenameOp))
    ensures c.encode(v).Some? && r.outcome.Fail? ==> Lookup(r.disk.files, s.path) == Lookup(d.files, s.path)
    ensures r.outcome.Pass? ==> Lookup(r.disk.files, s.path) == dc.encode(r.store.data)
    ensures r.outcome.Pass? ==> Lookup(r.disk.files, TmpPath(s.path)) == None
    ensures r.disk.files - {s.path, TmpPath(s.path)} == d.files - {s.path, TmpPath(s.path)}
  {
    match c.encode(v)
    case None => Step(Fail(EncodeError), s, d)
    case Some(b) =>
      var s' := s.(data := s.data[key := b]);
      var e := Persist(dc, s', d, f);
      Step(e.outcome, s', e.disk)
  }

  /** `Get`: look `key` up and decode its entry. A missing key is
      `ErrNotFound`; on any error the value is the zero value. */
  function Get<T>(c: Codec<T>, s: Store, key: string): (r: Fetched<T>)
    ensures r.outcome == Fail(NotFound) <==> key !in s.data
    ensures r.outcome.Fail? ==> r.value == c.zero
    ensures r.outcome.Pass? ==> key in s.data && c.decode(s.data[key]) == Some(r.value)
    ensures key in s.data && r.outcome.Fail? ==> r.outcome.error == DecodeError && c.decode(s.data[key]) == None
  {
    if key !in s.data then Fetched(c.zero, Fail(NotFound))
    else match c.decode(s.data[key])
      case None => Fetched(c.zero, Fail(DecodeError))
      case Some(v) => Fetched(v, Pass)
  }

  /** `Delete`: remove `key`, which need not be present, then persist the
      whole mapping in every case. Only the entry for `key` changes. */
  function Delete(dc: DocCodec, s: Store, d: Disk, f: Faults, key: string): (r: Step)
    ensures r.store.path == s.path
    ensures r.store.data.Keys == s.data.Keys - {key}
    ensures forall k :: k in r.store.data ==> r.store.data[k] == s.data[k]
    ensures key !in s.data ==> r.store == s
    ensures r.outcome.Pass? <==> dc.encode(r.store.data).Some? && f.write.WriteOk? && !f.renameFails
    ensures dc.encode(r.store.data).None? ==> r.outcome == Fail(EncodeError)
    ensures dc.encode(r.store.data).Some? && f.write.WriteFails? ==> r.outcome == Fail(IoError(WriteOp))
    ensures dc.encode(r.store.data).Some? && f.write.WriteOk? && f.renameFails ==> r.outcome == Fail(IoError(RenameOp))
    ensures r.outcome.Fail? ==> Lookup(r.disk.files, s.path) == Lookup(d.files, s.path)
    ensures r.outcome.Pass? ==> Lookup(r.disk.files, s.path) == dc.encode(r.store.data)
    ensures r.outcome.Pass? ==> Lookup(r.disk.files, TmpPath(s.path)) == None
    ensures r.disk.files - {s.path, TmpPath(s.path)} == d.files - {s.path, TmpPath(s.path)}
  {
    var s' := s.(data := s.data - {key});
    var e := Persist(dc, s', d, f);
    Step(e.outcome, s', e.disk)
  }

  /** Whether a sequence lists no element twice. */
  ghost predicate NoDuplicates<X>(xs: seq<X>)
  {
    forall i, j :: 0 <= i < j < |xs| ==> xs[i] != xs[j]
  }

  /** `Keys`: a snapshot of the key set, in no particular order, listing each
      key once. It never fails. */
  method Keys(s: Store) returns (keys: seq<string>, err: Outcome)
    ensures err == Pass
    ensures NoDuplicates(keys)
    ensures forall k :: k in keys <==> k in s.data
    ensures |keys| == |s.data|
  {
    keys := [];
    var rest := s.data.Keys;
    while rest != {}
      invariant rest <= s.data.Keys
      invariant forall k :: k in keys <==> k in s.data && k !in rest
      invariant NoDuplicates(keys)
      invariant |keys| + |rest| == |s.data|
      decreases |rest|
    {
      var k :| k in rest;
      keys := keys + [k];
      rest := rest - {k};
    }
    err := Pass;
  }
}
