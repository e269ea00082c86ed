/**
 The cache protocol on values: what each FUSE callback and one collector pass do to the path
 table, the cache directory, the descriptors and the remote store (src/open.c, src/create.c,
 src/read.c, src/write.c, src/release.c, src/getattr.c, src/gc.c, src/hash.c, src/file.c).

 These functions are the specification of the methods in `DropletFs`. Outcomes of foreign
 calls are fields of the `...Env` records.
 */
module Cache {
  import opened Common
  import opened Codec
  import opened Metadata
  import opened Transfer

  type Path = string

  datatype OnDisk = Local | Remote | Unset

  /** O_ACCMODE; `Neither` is the fourth bit pattern. */
  datatype Access = RdOnly | WrOnly | RdWr | Neither

  datatype Flags = Flags(append: bool, creat: bool, acc: Access)

  datatype Mode = ModeRdOnly | ModeWrOnly | ModeRdWr | ModeCreat

  /** get_mode_from_flags: note that a plain open for writing is a truncating one. */
  function GetMode(f: Flags): Mode {
    if f.append then ModeRdWr
    else if f.creat then ModeCreat
    else match f.acc
      case RdOnly => ModeRdOnly
      case WrOnly => ModeCreat
      case RdWr => ModeCreat
      case Neither => ModeRdWr
  }

  /** tpath_entry */
  datatype Entry = Entry(fd: int, onDisk: OnDisk, dirty: bool, usermd: Option<Dict>, digest: Bytes,
                         mdHeld: bool, held: bool, refcount: nat, exclude: bool)

  /** pentry_new */
  const NEW_ENTRY: Entry := Entry(-1, Unset, true, None, [], false, false, 0, false)

  /** An open descriptor of a cache file. */
  datatype Desc = Desc(path: Path, offset: nat, writable: bool)

  /** What FUSE keeps for an open file: `info->fh` and `info->flags`. */
  datatype Handle = Handle(path: Path, flags: Flags)

  /**
   `leaks` and `tainted` are history. `leaks[p]` counts the references to `p` that no callback
   will give back. `tainted` holds the paths whose cache file and remote object were left
   different by a failure, an exclusion or a truncation that is never uploaded.
   */
  datatype State = State(table: map<Path, Entry>, cache: map<Path, Bytes>, fds: map<int, Desc>,
                         remote: map<Path, Object>, handles: map<nat, Handle>,
                         leaks: map<Path, nat>, tainted: set<Path>)

  /** A callback that waits for ever on a mutex or a semaphore. */
  const BLOCKED: int := -1000

  /** `-errno` after a failed call */
  type Failure = x: int | -1000 < x < 0 witness -1

  /** dpl_status_t: 0 for success, negative otherwise. */
  type DplStatus = x: int | -1000 < x <= 0

  function Tmp(p: Path): (t: Path)
    ensures t != p
  {
    assert |p + ".tmp"| == |p| + 4;
    p + ".tmp"
  }

  function Leaks(s: State, p: Path): nat { if p in s.leaks then s.leaks[p] else 0 }

  function SetEntry(s: State, p: Path, e: Entry): State { s.(table := s.table[p := e]) }

  function Leak(s: State, p: Path): State { s.(leaks := s.leaks[p := Leaks(s, p) + 1]) }

  function Taint(s: State, p: Path, bad: bool): State {
    s.(tainted := if bad then s.tainted + {p} else s.tainted - {p})
  }

  function CacheOf(s: State, p: Path): Option<Bytes> { if p in s.cache then Some(s.cache[p]) else None }

  /** The entry that the lookup finds, or that populate_hash inserts. */
  function EntryAt(s: State, p: Path): Entry { if p in s.table then s.table[p] else NEW_ENTRY }

  // ---- open ----

  datatype DownloadEnv = DownloadEnv(
    headersOk: bool,       // download_headers did not return -1
    extractOk: bool,       // dpl_get_metadata_from_headers
    meta: Dict,
    etag: Option<Bytes>,
    unlinkOk: bool,
    localOpens: bool,
    fchmodOk: bool,
    readOk: bool,          // dpl_openread, with every write of its callback
    partial: Bytes,        // what a failed dpl_openread left behind
    unzip: UnzipEnv,
    closeOk: bool,
    reopens: bool)

  /** `fd` is the descriptor the kernel hands out if it hands one out. */
  datatype OpenEnv = OpenEnv(localOpens: bool, fd: int, dl: DownloadEnv)

  /** compare_digests: does the local copy match, and the entry afterwards. */
  function CompareDigests(e: Entry, etag: Option<Bytes>): (bool, Entry) {
    if e.onDisk != Local || etag.None? then (false, e)
    else if etag.value == e.digest then (true, e)
    else (false, e.(digest := etag.value))
  }

  /** The part of dfs_get_local_copy that makes a new cache file. */
  function Fetch(parse: Parser, s: State, p: Path, writable: bool, env: OpenEnv): (State, int) {
    var dl := env.dl;
    var s1 := if p in s.cache && dl.unlinkOk then s.(cache := s.cache - {p}) else s;
    if !dl.localOpens then (s1, -1)
    else if !dl.fchmodOk then (s1.(cache := s1.cache[p := []]), -1)
    else if !dl.readOk || p !in s1.remote then (s1.(cache := s1.cache[p := dl.partial]), -1)
    else Install(s1, p, HandleCompression(parse, s1.remote[p], CacheOf(s1, Tmp(p)), dl.unzip), writable, env)
  }

  /** The end of dfs_get_local_copy: the cache file as decoding left it, and its descriptor. */
  function Install(s: State, p: Path, u: Unpacked, writable: bool, env: OpenEnv): (State, int) {
    var s1 := s.(cache := Put(s.cache[p := u.file], Tmp(p), u.scratch));
    if u.ret == -1 || !env.dl.closeOk || !env.dl.reopens then (s1, -1)
    else (s1.(fds := s1.fds[env.fd := Desc(p, 0, writable)]), env.fd)
  }

  /** What a function that works on one entry gives back: the rest of the state, the entry, the return value. */
  datatype OpenResult = OpenResult(s: State, e: Entry, ret: int)

  /** dfs_get_local_copy: the return value is a descriptor, -1, or BLOCKED. */
  function LocalCopy(parse: Parser, s: State, e: Entry, p: Path, writable: bool, env: OpenEnv): OpenResult {
    if !env.dl.headersOk || !env.dl.extractOk then OpenResult(s, e, -1)
    else if e.mdHeld then OpenResult(s, e, BLOCKED)
    else
      var (same, e1) := CompareDigests(e.(usermd := Some(env.dl.meta)), env.dl.etag);
      if same then OpenResult(s, e1, e1.fd)
      else
        var (s1, fd) := Fetch(parse, s, p, writable, env);
        OpenResult(s1, e1, fd)
  }

  function OpenCreat(s: State, e: Entry, p: Path, env: OpenEnv): OpenResult {
    if !env.localOpens then OpenResult(s, e, -1)
    else OpenResult(s.(cache := s.cache[p := []], fds := s.fds[env.fd := Desc(p, 0, true)]),
                    e.(fd := env.fd, dirty := true), 0)
  }

  function OpenExisting(parse: Parser, s: State, e: Entry, p: Path, writable: bool, env: OpenEnv): OpenResult {
    if e.fd >= 0 then OpenResult(s, e, 0)
    else
      var r := LocalCopy(parse, s, e, p, writable, env);
      if r.ret == BLOCKED then r
      else OpenResult(r.s, r.e.(fd := r.ret), if r.ret == -1 then -1 else 0)
  }

  /** A compressed object was downloaded and the decoded file could not be put in place. */
  predicate StaysPacked(s: State, p: Path, env: OpenEnv) {
    p in s.remote && !Plain(s.remote[p]) && !env.dl.unzip.renameOk
  }

  /** The function that the mode selects, then the entry is marked local. */
  function OpenMode(parse: Parser, s: State, e: Entry, p: Path, flags: Flags, env: OpenEnv): OpenResult {
    var mode := GetMode(flags);
    if mode == ModeCreat then
      var r := OpenCreat(s, e, p, env);
      if r.ret != 0 then r
      else OpenResult(if flags.acc == RdOnly then Taint(r.s, p, true) else r.s, r.e.(onDisk := Local), 0)
    else
      var writable := mode != ModeRdOnly;
      var r := OpenExisting(parse, s, e, p, writable, env);
      if r.ret != 0 then r
      else OpenResult(if e.fd < 0 then Taint(r.s, p, StaysPacked(s, p, env)) else r.s,
                      r.e.(onDisk := Local, dirty := r.e.dirty || writable), 0)
  }

  /** pentry_inc_refcount */
  function Referenced(e: Entry): Entry { e.(refcount := e.refcount + 1) }

  /** dfs_open, up to the registration of the handle. */
  function OpenCore(parse: Parser, s: State, p: Path, flags: Flags, env: OpenEnv): OpenResult {
    OpenMode(parse, s, Referenced(EntryAt(s, p)), p, flags, env)
  }

  /** FUSE keeps a handle only when the callback succeeds. */
  function Register(r: OpenResult, p: Path, flags: Flags, h: nat): (State, int) {
    var t := SetEntry(r.s, p, r.e);
    if r.ret == 0 then (t.(handles := t.handles[h := Handle(p, flags)]), 0)
    else if r.ret == BLOCKED then (t, BLOCKED)
    else (Leak(t, p), r.ret)
  }

  /** dfs_open */
  function Open(parse: Parser, s: State, p: Path, flags: Flags, h: nat, env: OpenEnv): (State, int) {
    Register(OpenCore(parse, s, p, flags, env), p, flags, h)
  }

  // ---- create ----

  datatype CreateEnv = CreateEnv(
    isReg: bool, exclude: bool, nameiOk: bool,
    open: OpenEnv,
    fchmod: Option<Failure>, fstat: Option<Failure>,   // None when the call works
    st: Stat, mode: u32,
    mknodOk: bool,
    left: Option<Object>)   // what a failed dpl_mknod left in the remote store

  const EMPTY_OBJECT: Object := Object([], 0, map[])

  /** dfs_create */
  function Create(parse: Parser, s: State, p: Path, flags: Flags, h: nat, env: CreateEnv): (State, int) {
    if !env.isReg || (!env.exclude && !env.nameiOk) then (s, -1)
    else CreateOpened(OpenCore(parse, s, p, flags, env.open), p, flags, h, env)
  }

  /** dfs_create after its call of dfs_open. */
  function CreateOpened(r: OpenResult, p: Path, flags: Flags, h: nat, env: CreateEnv): (State, int) {
    if r.ret == BLOCKED then (SetEntry(r.s, p, r.e), BLOCKED)
    else if r.ret != 0 then (Leak(SetEntry(r.s, p, r.e), p), -1)
    else
      var e := r.e.(exclude := env.exclude);
      if CreateFault(e, env) != 0 then
        (Leak(Taint(SetEntry(r.s, p, e), p, true), p), CreateFault(e, env))
      else if e.mdHeld then (SetEntry(r.s, p, e), BLOCKED)
      else CreateRemote(SetEntry(r.s, p, e.(usermd := Some(CreateMeta(e, env)))), p, flags, h, env)
  }

  /** The first local call of dfs_create that fails, as a return value; 0 when none does. */
  function CreateFault(e: Entry, env: CreateEnv): (ret: int)
    ensures BLOCKED < ret <= 0
    ensures ret == 0 <==> e.fd != -1 && env.fchmod.None? && env.fstat.None?
  {
    if e.fd == -1 then -1
    else if env.fchmod.Some? then env.fchmod.value
    else if env.fstat.Some? then env.fstat.value
    else 0
  }

  /** The dictionary that dfs_create fills: the stat record, then the requested mode. */
  function CreateMeta(e: Entry, env: CreateEnv): Dict {
    FillMetadataFromStat(if e.usermd.Some? then e.usermd.value else map[], env.st)
    ["mode" := ToText(ToULong(env.mode))]
  }

  /** The end of dfs_create: dfs_mknod_timeout unless the path is excluded. */
  function CreateRemote(s: State, p: Path, flags: Flags, h: nat, env: CreateEnv): (State, int) {
    if env.exclude then (Taint(s, p, true).(handles := s.handles[h := Handle(p, flags)]), 0)
    else if !env.mknodOk then (Leak(Taint(s, p, true), p).(remote := Put(s.remote, p, env.left)), -1)
    else (Taint(s, p, false).(remote := s.remote[p := EMPTY_OBJECT],
                              handles := s.handles[h := Handle(p, flags)]), 0)
  }

  // ---- read and write ----

  const EBADF: int := 9
  const EBADFD: int := 77

  /** pread(2) */
  function Pread(content: Bytes, size: nat, offset: nat): Bytes {
    From(content, offset)[..Min(size, |From(content, offset)|)]
  }

  /** pwrite(2): a gap is filled with zeros, and writing nothing changes nothing. */
  function Pwrite(content: Bytes, buf: Bytes, offset: nat): Bytes {
    if buf == [] then content
    else if offset <= |content| then content[..offset] + buf + From(content, offset + |buf|)
    else content + seq(offset - |content|, _ => 0) + buf
  }

  /** The file behind a descriptor, if both are there. */
  function Behind(s: State, fd: int): Option<Bytes> {
    if fd in s.fds then CacheOf(s, s.fds[fd].path) else None
  }

  /** dfs_read: the return value and the bytes; `fault` is what pread fails with, if it does. */
  function Read(s: State, h: nat, size: nat, offset: nat, fault: Option<Failure>): (int, Bytes)
    requires h in s.handles && s.handles[h].path in s.table
  {
    var fd := s.table[s.handles[h].path].fd;
    if fd < 0 then (-EBADFD, [])
    else if fault.Some? then (fault.value, [])
    else if Behind(s, fd).None? then (-EBADF, [])
    else
      var data := Pread(Behind(s, fd).value, size, offset);
      (|data|, data)
  }

  /** dfs_write: `fault` and `n` are the outcome of pwrite, which refuses a read-only descriptor. */
  function Write(s: State, h: nat, buf: Bytes, offset: nat, fault: Option<Failure>, n: nat): (State, int)
    requires h in s.handles && s.handles[h].path in s.table
  {
    var fd := s.table[s.handles[h].path].fd;
    if fd < 0 then (s, EBADF)
    else if fault.Some? then (s, fault.value)
    else if Behind(s, fd).None? || !s.fds[fd].writable then (s, -EBADF)
    else
      var k := Min(n, |buf|);
      (s.(cache := s.cache[s.fds[fd].path := Pwrite(Behind(s, fd).value, buf[..k], offset)]), k)
  }

  // ---- release ----

  datatype ReleaseEnv = ReleaseEnv(
    fstatOk: bool, st: Stat,
    zlib: bool,              // the configured compression method is "zlib"
    comp: CompressEnv,
    openwriteOk: bool, send: SendEnv, closeOk: bool,
    left: Option<Object>,    // what a failed upload left in the remote store
    lseekOk: bool,
    scratch: Option<Bytes>)  // the scratch file afterwards: None when unlink worked

  function Seek(s: State, fd: int, offset: nat): State {
    if fd in s.fds then s.(fds := s.fds[fd := s.fds[fd].(offset := offset)]) else s
  }

  /** The payload that dfs_release would send now. */
  function Outgoing(s: State, fd: int, env: ReleaseEnv): Option<Payload> {
    if Behind(s, fd).None? then None
    else Prepare(Behind(s, fd).value, s.fds[fd].offset, env.st, env.zlib, env.comp)
  }

  /** The copy loop on the descriptor that is sent, which is the scratch file of a packed payload. */
  function Transmit(s: State, fd: int, out: Payload, env: ReleaseEnv): Sending
    requires Behind(s, fd).Some?
  {
    if out.packed then SendBlocks(out.data, 0, env.send, 0)
    else SendBlocks(Behind(s, fd).value, s.fds[fd].offset, env.send, 0)
  }

  /** Upload, or what a failure leaves. Sending the cache file moves its descriptor. */
  function Sent(s: State, p: Path, fd: int, env: ReleaseEnv): (State, int) {
    var out := Outgoing(s, fd, env);
    if out.None? then (Taint(s, p, true), -1)
    else if !env.openwriteOk then (Taint(s, p, true).(remote := Put(s.remote, p, env.left)), -1)
    else
      var x := Transmit(s, fd, out.value, env);
      var s1 := if out.value.packed then s else Seek(s, fd, x.offset);
      if x.ret == 0 && env.closeOk then
        (Taint(s1, p, false).(remote := s.remote[p := Object(x.sent, out.value.declared, out.value.meta)]), 0)
      else (Taint(s1, p, true).(remote := Put(s.remote, p, env.left)), -1)
  }

  /** The labels `err` and `exc` of dfs_release: rewind, drop the scratch file, mark clean. */
  function Conclude(s: State, p: Path, h: nat, e: Entry, env: ReleaseEnv, scratch: bool): State {
    var s1 := if env.lseekOk then Seek(s, e.fd, 0) else s;
    SetEntry(s1, p, e.(dirty := false, held := false))
    .(cache := if scratch then Put(s.cache, Tmp(p), env.scratch) else s.cache, handles := s.handles - {h})
  }

  /** dfs_release; FUSE forgets the handle whatever is returned. */
  function Release(s: State, h: nat, env: ReleaseEnv): (State, int)
    requires h in s.handles && s.handles[h].path in s.table
  {
    var p, acc := s.handles[h].path, s.handles[h].flags.acc;
    var e := s.table[p];
    if e.fd < 0 || !env.fstatOk then
      (Conclude(Leak(if acc == RdOnly then s else Taint(s, p, true), p), p, h, e, env, false), -1)
    else if e.refcount == 0 then (s, BLOCKED)
    else
      var e1 := e.(refcount := e.refcount - 1);
      if acc == RdOnly then (SetEntry(s, p, e1).(handles := s.handles - {h}), 0)
      else if e.exclude then
        (SetEntry(Taint(s, p, true), p, e1.(dirty := false, held := false)).(handles := s.handles - {h}), 0)
      else
        var (s1, ret) := Sent(s, p, e.fd, env);
        (Conclude(s1, p, h, e1, env, env.zlib), ret)
  }

  // ---- getattr ----

  datatype GetattrEnv = GetattrEnv(
    namei: DplStatus, // dfs_namei_timeout
    headersOk: bool,  // dfs_getattr_all_headers_timeout and the prefix filter
    dict: Dict,
    fstatOk: bool)

  /** getattr_remote: the error path leaves the metadata mutex locked. */
  function GetattrRemote(e: Entry): (Entry, int) {
    if e.mdHeld then (e, BLOCKED)
    else if e.usermd.None? then (e.(mdHeld := true), -1)
    else (e, 0)
  }

  function GetattrLocal(e: Entry, env: GetattrEnv): (Entry, int) {
    (e, if e.fd < 0 || !env.fstatOk then -1 else 0)
  }

  function GetattrUnset(e: Entry, env: GetattrEnv): (Entry, int) {
    if env.namei != 0 then (e, env.namei)
    else if !env.headersOk then (e, -1)
    else if e.mdHeld then (e, BLOCKED)
    else (e.(usermd := Some(env.dict), onDisk := Remote), 0)
  }

  /** The function that the state of the entry selects. */
  function GetattrEntry(e: Entry, env: GetattrEnv): (Entry, int) {
    match e.onDisk
    case Remote => GetattrRemote(e)
    case Local => GetattrLocal(e, env)
    case Unset => GetattrUnset(e, env)
  }

  /** dfs_getattr, its effect on the entry. */
  function Getattr(s: State, p: Path, env: GetattrEnv): (State, int) {
    if p == "/" then (s, 0)
    else
      var (e, ret) := GetattrEntry(EntryAt(s, p), env);
      (SetEntry(s, p, e), ret)
  }

  // ---- the collector ----

  /** What one pass finds out about a path: fstat, the clock, unlink. */
  datatype Probe = Probe(fstatOk: bool, atime: int, mtime: int, ctime: int, now: int, unlinkOk: bool)

  datatype GcEnv = GcEnv(threshold: int, probe: Path -> Probe)

  predicate Fresh(pr: Probe, threshold: int) {
    pr.now < pr.atime + threshold && pr.now < pr.mtime + threshold && pr.now < pr.ctime + threshold
  }

  /** The early returns of gc_callback. */
  predicate Survives(e: Entry, pr: Probe, threshold: int) {
    || e.refcount != 0
    || e.held
    || e.fd == -1
    || (pr.fstatOk && Fresh(pr, if e.exclude then threshold * 10 else threshold))
  }

  function Evicted(s: State, env: GcEnv): set<Path> {
    set p | p in s.table && !Survives(s.table[p], env.probe(p), env.threshold)
  }

  /** One pass over the whole table. */
  function Gc(s: State, env: GcEnv): State {
    var gone := Evicted(s, env);
    s.(table := s.table - gone,
       cache := s.cache - (set p | p in gone && env.probe(p).unlinkOk),
       fds := s.fds - (set p | p in gone :: s.table[p].fd))
  }
}
