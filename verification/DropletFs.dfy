/**
 The file system as the source keeps it: a table of mutable path entries, a cache directory,
 descriptors and a remote store. Each callback is proved to do exactly what its specification
 in `Cache` says to the abstract state `Abs`.
 */
module DropletFs {
  import opened Common
  import opened Codec
  import opened Metadata
  import opened Transfer
  import opened Cache
  import opened CacheInvariant
  import opened CacheRuns
  import opened CacheExact

  /** tpath_entry */
  class PathEntry {
    const path: Path
    var fd: int
    var onDisk: OnDisk
    var dirty: bool
    var usermd: Option<Dict>
    var digest: Bytes
    var mdHeld: bool
    var held: bool
    var refcount: nat
    var exclude: bool

    function Value(): Entry
      reads this
    {
      Entry(fd, onDisk, dirty, usermd, digest, mdHeld, held, refcount, exclude)
    }

    /** pentry_new and pentry_set_path */
    constructor (path: Path)
      ensures Value() == NEW_ENTRY && this.path == path
      ensures fd == -1 && onDisk == Unset && usermd.None? && refcount == 0 && !mdHeld && !held && !exclude
    {
      this.path := path;
      fd, onDisk, dirty, usermd, digest := -1, Unset, true, None, [];
      mdHeld, held, refcount, exclude := false, false, 0, false;
    }

    /** pentry_inc_refcount */
    method IncRefcount()
      modifies this`refcount
      ensures Value() == old(Value()).(refcount := old(refcount) + 1)
    {
      refcount := refcount + 1;
    }

    /** pentry_dec_refcount: sem_wait blocks at zero. */
    method DecRefcount() returns (blocked: bool)
      modifies this`refcount
      ensures blocked <==> old(refcount) == 0
      ensures Value() == if blocked then old(Value()) else old(Value()).(refcount := old(refcount) - 1)
    {
      blocked := refcount == 0;
      if !blocked {
        refcount := refcount - 1;
      }
    }

    /** pentry_md_lock: a mutex that is held blocks. */
    method MdLock() returns (blocked: bool)
      modifies this`mdHeld
      ensures blocked <==> old(mdHeld)
      ensures Value() == old(Value()).(mdHeld := true)
    {
      blocked := mdHeld;
      mdHeld := true;
    }

    /** pentry_md_unlock */
    method MdUnlock()
      modifies this`mdHeld
      ensures Value() == old(Value()).(mdHeld := false)
    {
      mdHeld := false;
    }

    /** pentry_set_usermd */
    method SetUsermd(dict: Dict)
      modifies this`usermd
      ensures Value() == old(Value()).(usermd := Some(dict))
    {
      usermd := Some(dict);
    }

    /** getattr_remote: its error path leaves the mutex locked. */
    method GetattrRemote() returns (ret: int)
      modifies this
      ensures (Value(), ret) == Cache.GetattrRemote(old(Value()))
      ensures ret == 0 <==> !old(mdHeld) && usermd.Some?
      ensures ret == -1 <==> !old(mdHeld) && usermd.None?
      ensures mdHeld <==> old(mdHeld) || ret == -1
    {
      var blocked := MdLock();
      if blocked {
        return BLOCKED;
      }
      if usermd.None? {
        return -1;
      }
      MdUnlock();
      ret := 0;
    }

    /** getattr_unset */
    method GetattrUnset(env: GetattrEnv) returns (ret: int)
      modifies this
      ensures (Value(), ret) == Cache.GetattrUnset(old(Value()), env)
      ensures ret == 0 <==> env.namei == 0 && env.headersOk && !old(mdHeld)
      ensures ret == 0 ==> usermd == Some(env.dict) && onDisk == Remote && !mdHeld
      ensures ret != 0 ==> usermd == old(usermd) && onDisk == old(onDisk)
    {
      if env.namei != 0 {
        return env.namei;
      }
      if !env.headersOk {
        return -1;
      }
      var blocked := MdLock();
      if blocked {
        return BLOCKED;
      }
      SetUsermd(env.dict);
      onDisk := Remote;
      MdUnlock();
      ret := 0;
    }

    /** getattr_local */
    method GetattrLocal(env: GetattrEnv) returns (ret: int)
      ensures (Value(), ret) == Cache.GetattrLocal(Value(), env)
    {
      ret := if fd < 0 || !env.fstatOk then -1 else 0;
    }

    /** The function that the state of the entry selects in dfs_getattr. */
    method GetattrByState(env: GetattrEnv) returns (ret: int)
      modifies this
      ensures (Value(), ret) == GetattrEntry(old(Value()), env)
    {
      match onDisk {
        case Remote => ret := GetattrRemote();
        case Local => ret := GetattrLocal(env);
        case Unset => ret := GetattrUnset(env);
      }
    }

    /** compare_digests: 0 when the local copy is the remote one. */
    method CompareDigest(etag: Option<Bytes>) returns (ret: int)
      modifies this`digest
      ensures (ret == 0, Value()) == CompareDigests(old(Value()), etag)
      ensures ret == 0 <==> onDisk == Local && etag == Some(old(digest))
      ensures digest == if onDisk == Local && etag.Some? then etag.value else old(digest)
    {
      if onDisk != Local {
        return -1;
      }
      ret := -1;
      if etag.Some? {
        if digest == etag.value {
          ret := 0;
        } else {
          digest := etag.value;
        }
      }
    }
  }

  // ---- the functions that work on one entry read no other part of the table ----

  function RestOf(s: State): State { State(map[], s.cache, s.fds, s.remote, map[], map[], s.tainted) }

  /** `t` is `s` with the cache directory, the descriptors and the history that `r` has. */
  function Within(s: State, r: State): State {
    s.(cache := r.cache, fds := r.fds, tainted := r.tainted)
  }

  lemma InstallWithin(s: State, p: Path, u: Unpacked, writable: bool, env: OpenEnv)
    ensures var (r, fd) := Install(RestOf(s), p, u, writable, env);
            Install(s, p, u, writable, env) == (Within(s, r), fd)
  {
  }

  lemma FetchWithin(parse: Parser, s: State, p: Path, writable: bool, env: OpenEnv)
    ensures var (r, fd) := Fetch(parse, RestOf(s), p, writable, env);
            Fetch(parse, s, p, writable, env) == (Within(s, r), fd)
  {
    if env.dl.localOpens && env.dl.fchmodOk && env.dl.readOk && p in s.remote {
      var s1 := if p in s.cache && env.dl.unlinkOk then s.(cache := s.cache - {p}) else s;
      assert CacheOf(s1, Tmp(p)) == CacheOf(RestOf(s1), Tmp(p));
      FetchForm(parse, s, p, writable, env);
      FetchForm(parse, RestOf(s), p, writable, env);
      InstallWithin(s1, p, HandleCompression(parse, s.remote[p], CacheOf(s1, Tmp(p)), env.dl.unzip), writable, env);
    }
  }

  /** What the cache file held before decoding plays no part. */
  lemma InstallOver(s: State, p: Path, file: Bytes, u: Unpacked, writable: bool, env: OpenEnv)
    ensures var t := s.(cache := s.cache[p := file]);
            && Install(t, p, u, writable, env) == Install(s, p, u, writable, env)
            && CacheOf(t, Tmp(p)) == CacheOf(s, Tmp(p))
  {
    assert s.cache[p := file][p := u.file] == s.cache[p := u.file];
  }

  lemma LocalCopyWithin(parse: Parser, s: State, e: Entry, p: Path, writable: bool, env: OpenEnv)
    ensures var r := LocalCopy(parse, RestOf(s), e, p, writable, env);
            LocalCopy(parse, s, e, p, writable, env) == r.(s := Within(s, r.s))
  {
    FetchWithin(parse, s, p, writable, env);
  }

  lemma OpenExistingWithin(parse: Parser, s: State, e: Entry, p: Path, writable: bool, env: OpenEnv)
    ensures var r := OpenExisting(parse, RestOf(s), e, p, writable, env);
            OpenExisting(parse, s, e, p, writable, env) == r.(s := Within(s, r.s))
  {
    LocalCopyWithin(parse, s, e, p, writable, env);
  }

  lemma OpenModeWithin(parse: Parser, s: State, e: Entry, p: Path, flags: Flags, env: OpenEnv, r: OpenResult)
    requires r == OpenMode(parse, RestOf(s), e, p, flags, env)
    ensures OpenMode(parse, s, e, p, flags, env) == OpenResult(Within(s, r.s), r.e, r.ret)
  {
    if GetMode(flags) != ModeCreat {
      OpenExistingWithin(parse, s, e, p, GetMode(flags) != ModeRdOnly, env);
    }
  }

  lemma OpenCoreWithin(parse: Parser, s: State, p: Path, flags: Flags, env: OpenEnv, r: OpenResult)
    requires r == OpenMode(parse, RestOf(s), Referenced(EntryAt(s, p)), p, flags, env)
    ensures OpenCore(parse, s, p, flags, env) == OpenResult(Within(s, r.s), r.e, r.ret)
  {
    OpenModeWithin(parse, s, Referenced(EntryAt(s, p)), p, flags, env, r);
  }

  /** The ways dfs_create ends, from the return values of dfs_open and of the local calls after it. */
  function EndCreate(s: State, p: Path, openRet: int, local: int, flags: Flags, h: nat, env: CreateEnv): (State, int)
  {
    if local == BLOCKED then (s, BLOCKED)
    else if openRet != 0 then (Leak(s, p), -1)
    else if local != 0 then (Leak(Taint(s, p, true), p), local)
    else CreateRemote(s, p, flags, h, env)
  }

  /** The local calls of dfs_create on the new file. */
  function LocalCreate(e0: Entry, env: CreateEnv): (Entry, int) {
    var e := e0.(exclude := env.exclude);
    if CreateFault(e, env) != 0 then (e, CreateFault(e, env))
    else if e.mdHeld then (e, BLOCKED)
    else (e.(usermd := Some(CreateMeta(e, env))), 0)
  }

  lemma CreateInParts(r: OpenResult, p: Path, flags: Flags, h: nat, env: CreateEnv)
    ensures var (e, local) := if r.ret == 0 then LocalCreate(r.e, env) else (r.e, r.ret);
            CreateOpened(r, p, flags, h, env) == EndCreate(SetEntry(r.s, p, e), p, r.ret, local, flags, h, env)
  {
  }

  /** `s` with the remote store, the descriptors and the history that an upload left in `r`. */
  function Uploaded(s: State, r: State): State {
    s.(remote := r.remote, fds := r.fds, tainted := r.tainted)
  }

  /** The state after the copy loop and dpl_close. */
  function AfterCopy(s: State, p: Path, fd: int, out: Payload, x: Sending, env: ReleaseEnv): State {
    var s1 := if out.packed then s else Seek(s, fd, x.offset);
    if x.ret == 0 && env.closeOk then
      Taint(s1, p, false).(remote := s.remote[p := Object(x.sent, out.declared, out.meta)])
    else Taint(s1, p, true).(remote := Put(s.remote, p, env.left))
  }

  lemma AfterCopyWithin(s: State, p: Path, fd: int, out: Payload, x: Sending, env: ReleaseEnv)
    ensures AfterCopy(s, p, fd, out, x, env) == Uploaded(s, AfterCopy(RestOf(s), p, fd, out, x, env))
  {
    var offset := x.offset;
    SeekWithin(s, fd, offset);
    var s1 := if out.packed then s else Seek(s, fd, offset);
    var r1 := if out.packed then RestOf(s) else Seek(RestOf(s), fd, offset);
    assert s1.fds == r1.fds && s1.tainted == r1.tainted;
  }

  lemma SeekWithin(s: State, fd: int, offset: nat)
    ensures Seek(s, fd, offset) == s.(fds := Seek(RestOf(s), fd, offset).fds)
    ensures Seek(RestOf(s), fd, offset).tainted == s.tainted
  {
  }

  lemma SentWithin(s: State, p: Path, fd: int, env: ReleaseEnv, r: State, ret: int)
    requires (r, ret) == Sent(RestOf(s), p, fd, env)
    ensures Sent(s, p, fd, env) == (Uploaded(s, r), ret)
  {
    assert Behind(s, fd) == Behind(RestOf(s), fd);
    var out := Outgoing(s, fd, env);
    if out.None? || !env.openwriteOk {
      SentRefused(s, p, fd, env);
      SentRefused(RestOf(s), p, fd, env);
    } else {
      AfterCopyWithin(s, p, fd, out.value, Transmit(s, fd, out.value, env), env);
    }
  }

  lemma ConcludeOver(s: State, p: Path, h: nat, e: Entry, e0: Entry, env: ReleaseEnv, scratch: bool)
    ensures Conclude(SetEntry(s, p, e0), p, h, e, env, scratch) == Conclude(s, p, h, e, env, scratch)
  {
    assert s.table[p := e0][p := e.(dirty := false, held := false)] == s.table[p := e.(dirty := false, held := false)];
  }

  /** dfs_release once the reference is given back and `e` is stored. */
  function EndRelease(s: State, p: Path, e: Entry, acc: Access, h: nat, env: ReleaseEnv): (State, int) {
    if acc == RdOnly then (s.(handles := s.handles - {h}), 0)
    else if e.exclude then
      (SetEntry(Taint(s, p, true), p, e.(dirty := false, held := false)).(handles := s.handles - {h}), 0)
    else
      var (t, ret) := Sent(s, p, e.fd, env);
      (Conclude(t, p, h, e, env, env.zlib), ret)
  }

  /** The upload sees the same files whether or not the reference has been given back. */
  lemma ReleaseInParts(s: State, h: nat, env: ReleaseEnv)
    requires h in s.handles && s.handles[h].path in s.table
    requires var e := s.table[s.handles[h].path]; 0 <= e.fd && 0 < e.refcount && env.fstatOk
    ensures var p := s.handles[h].path;
            var e := s.table[p].(refcount := s.table[p].refcount - 1);
            Release(s, h, env) == EndRelease(SetEntry(s, p, e), p, e, s.handles[h].flags.acc, h, env)
  {
    var p, acc := s.handles[h].path, s.handles[h].flags.acc;
    var e := s.table[p].(refcount := s.table[p].refcount - 1);
    if acc != RdOnly && e.exclude {
      ExcludedAlike(s, p, e, h);
    } else if acc != RdOnly {
      UploadsAlike(s, p, h, e, env);
    }
  }

  lemma ExcludedAlike(s: State, p: Path, e: Entry, h: nat)
    ensures var clean := e.(dirty := false, held := false);
            SetEntry(Taint(s, p, true), p, clean).(handles := s.handles - {h}) ==
            SetEntry(Taint(SetEntry(s, p, e), p, true), p, clean).(handles := SetEntry(s, p, e).handles - {h})
  {
    var clean := e.(dirty := false, held := false);
    assert s.table[p := e][p := clean] == s.table[p := clean];
  }

  lemma UploadsAlike(s: State, p: Path, h: nat, e: Entry, env: ReleaseEnv)
    requires p in s.table
    ensures var (t0, r0) := Sent(SetEntry(s, p, e), p, e.fd, env);
            var (t, r) := Sent(s, p, e.fd, env);
            (Conclude(t0, p, h, e, env, env.zlib), r0) == (Conclude(t, p, h, e, env, env.zlib), r)
  {
    var q := Sent(RestOf(s), p, e.fd, env);
    SentWithin(s, p, e.fd, env, q.0, q.1);
    SentWithin(SetEntry(s, p, e), p, e.fd, env, q.0, q.1);
    ConcludeOver(Sent(s, p, e.fd, env).0, p, h, e, e, env, env.zlib);
  }

  /** What FUSE keeps for an open file. */
  datatype OpenFile = OpenFile(pe: PathEntry, flags: Flags)

  class DropletFs {
    const parse: Parser
    var table: map<Path, PathEntry>
    var cache: map<Path, Bytes>
    var fds: map<int, Desc>
    var remote: map<Path, Object>
    var handles: map<nat, OpenFile>
    ghost var leaks: map<Path, nat>
    ghost var tainted: set<Path>

    /** The table maps a path to its own entry, and no handle points to a freed entry. */
    ghost predicate WellFormed()
      reads this
    {
      && (forall p :: p in table ==> table[p].path == p)
      && (forall h :: h in handles ==>
            handles[h].pe.path in table && table[handles[h].pe.path] == handles[h].pe)
    }

    ghost function Abs(): State
      reads this, table.Values
    {
      State(Entries(), cache, fds, remote, OpenHandles(), leaks, tainted)
    }

    ghost function Entries(): map<Path, Entry>
      reads this`table, table.Values
    {
      map p | p in table :: table[p].Value()
    }

    ghost function OpenHandles(): map<nat, Handle>
      reads this`handles
    {
      map h | h in handles :: Handle(handles[h].pe.path, handles[h].flags)
    }

    /** The abstract state without the table, the handles and the history of references. */
    ghost function Rest(): State
      reads this
    {
      State(map[], cache, fds, remote, map[], map[], tainted)
    }

    /** Sound in memory, and in a state that keeps the invariant of the protocol. */
    ghost predicate Valid()
      reads this, table.Values
    {
      WellFormed() && Inv(parse, Abs())
    }

    /** The content that a reader of `p` is entitled to. */
    ghost function Content(p: Path): Option<Bytes>
      reads this, table.Values
    {
      View(parse, Abs(), p)
    }

    constructor (parse: Parser, remote: map<Path, Object>)
      ensures Valid() && Abs() == Mounted(remote)
      ensures fresh(this) && this.parse == parse
    {
      this.parse := parse;
      table, cache, fds, this.remote, handles := map[], map[], map[], remote, map[];
      leaks, tainted := map[], {};
      new;
      MountedInv(parse, remote);
    }

    // ---- below one entry: only the cache directory and the descriptors ----

    /** handle_compression on the file just downloaded for `p`. */
    method Decompress(p: Path, o: Object, env: UnzipEnv) returns (ret: int)
      requires p in cache && cache[p] == o.data
      modifies this`cache
      ensures var u := HandleCompression(parse, o, CacheOf(old(Rest()), Tmp(p)), env);
              ret == u.ret && cache == Put(old(cache)[p := u.file], Tmp(p), u.scratch)
    {
      if COMPRESSION !in o.meta || HasPrefix(o.meta[COMPRESSION], NONE) {
        return 0;
      }
      if !HasPrefix(o.meta[COMPRESSION], ZLIB) || !env.srcOpens || !env.dstOpens {
        return -1;
      }
      var verdict := parse(cache[p]);
      if env.fault || !verdict.Complete? {
        cache := cache[Tmp(p) := env.partial];
        return -1;
      }
      cache := cache[Tmp(p) := verdict.out];
      if !env.tagOk {
        return -1;
      }
      if !env.renameOk {
        return 1;
      }
      cache := cache[p := cache[Tmp(p)]] - {Tmp(p)};
      ret := if env.reopenOk then 0 else -1;
    }

    /** The end of dfs_get_local_copy: make a new cache file from the remote object. */
    method Download(p: Path, writable: bool, env: OpenEnv) returns (fd: int)
      modifies this`cache, this`fds
      ensures (Rest(), fd) == Fetch(parse, old(Rest()), p, writable, env)
    {
      if p in cache && env.dl.unlinkOk {
        cache := cache - {p};
      }
      if !env.dl.localOpens {
        return -1;
      }
      ghost var unlinked := cache;
      cache := cache[p := []];
      if !env.dl.fchmodOk {
        return -1;
      }
      if !env.dl.readOk || p !in remote {
        cache := cache[p := env.dl.partial];
        assert cache == unlinked[p := env.dl.partial];
        return -1;
      }
      var _, file := ReceiveChunks([remote[p].data], []);
      assert file == remote[p].data;
      cache := cache[p := file];
      ghost var u := HandleCompression(parse, remote[p], CacheOf(Rest(), Tmp(p)), env.dl.unzip);
      assert cache == unlinked[p := file];
      InstallOver(old(Rest()).(cache := unlinked), p, file, u, writable, env);
      fd := Unpack(p, remote[p], writable, env);
    }

    /** handle_compression, then the descriptor that is returned. */
    method Unpack(p: Path, o: Object, writable: bool, env: OpenEnv) returns (fd: int)
      requires p in cache && cache[p] == o.data
      modifies this`cache, this`fds
      ensures (Rest(), fd) ==
              Install(old(Rest()), p, HandleCompression(parse, o, CacheOf(old(Rest()), Tmp(p)), env.dl.unzip),
                      writable, env)
    {
      var ret := Decompress(p, o, env.dl.unzip);
      if ret == -1 || !env.dl.closeOk || !env.dl.reopens {
        return -1;
      }
      fds := fds[env.fd := Desc(p, 0, writable)];
      fd := env.fd;
    }

    /** dfs_get_local_copy */
    method GetLocalCopy(pe: PathEntry, writable: bool, env: OpenEnv) returns (fd: int)
      modifies this`cache, this`fds, pe
      ensures OpenResult(Rest(), pe.Value(), fd)
              == LocalCopy(parse, old(Rest()), old(pe.Value()), pe.path, writable, env)
    {
      if !env.dl.headersOk || !env.dl.extractOk {
        return -1;
      }
      var blocked := pe.MdLock();
      if blocked {
        return BLOCKED;
      }
      pe.SetUsermd(env.dl.meta);
      pe.MdUnlock();
      var same := pe.CompareDigest(env.dl.etag);
      if same == 0 {
        return pe.fd;
      }
      fd := Download(pe.path, writable, env);
    }

    /** open_creat */
    method OpenNew(pe: PathEntry, env: OpenEnv) returns (ret: int)
      modifies this`cache, this`fds, pe
      ensures OpenResult(Rest(), pe.Value(), ret) == OpenCreat(old(Rest()), old(pe.Value()), pe.path, env)
    {
      if !env.localOpens {
        return -1;
      }
      cache := cache[pe.path := []];
      fds := fds[env.fd := Desc(pe.path, 0, true)];
      pe.fd := env.fd;
      pe.dirty := true;
      ret := 0;
    }

    /** open_existing */
    method OpenOld(pe: PathEntry, writable: bool, env: OpenEnv) returns (ret: int)
      modifies this`cache, this`fds, pe
      ensures OpenResult(Rest(), pe.Value(), ret)
              == OpenExisting(parse, old(Rest()), old(pe.Value()), pe.path, writable, env)
    {
      if pe.fd < 0 {
        var fd := GetLocalCopy(pe, writable, env);
        if fd == BLOCKED {
          return BLOCKED;
        }
        pe.fd := fd;
        if fd == -1 {
          return -1;
        }
      }
      ret := 0;
    }

    /** The dispatch on the mode in dfs_open. */
    method OpenByMode(pe: PathEntry, flags: Flags, env: OpenEnv) returns (ret: int)
      modifies this`cache, this`fds, this`tainted, pe
      ensures OpenResult(Rest(), pe.Value(), ret)
              == OpenMode(parse, old(Rest()), old(pe.Value()), pe.path, flags, env)
    {
      var mode := GetMode(flags);
      ghost var packed := StaysPacked(Rest(), pe.path, env);
      ghost var absent := pe.fd < 0;
      if mode == ModeCreat {
        ret := OpenNew(pe, env);
      } else {
        ret := OpenOld(pe, mode != ModeRdOnly, env);
      }
      if ret != 0 {
        return;
      }
      if mode == ModeWrOnly || mode == ModeRdWr {
        pe.dirty := true;
      }
      pe.onDisk := Local;
      if mode == ModeCreat {
        if flags.acc == RdOnly { tainted := tainted + {pe.path}; }
      } else if absent {
        tainted := if packed then tainted + {pe.path} else tainted - {pe.path};
      }
    }

    // ---- each callback does to the abstract state what its specification says ----

    /** The lookup of a callback, with populate_hash when it finds nothing. */
    method FindOrPopulate(p: Path) returns (pe: PathEntry)
      requires WellFormed()
      modifies this`table
      ensures WellFormed() && pe.path == p && pe.Value() == EntryAt(old(Abs()), p)
      ensures table == old(table)[p := pe]
      ensures p in old(table) ==> pe == old(table)[p]
      ensures p !in old(table) ==> fresh(pe)
    {
      if p in table {
        pe := table[p];
      } else {
        pe := new PathEntry(p);
        table := table[p := pe];
      }
    }

    /** `pe` is stored under `p`, and the other entries are as they were. */
    twostate predicate Stored(p: Path, new pe: PathEntry)
      reads this, table.Values
    {
      && pe.path == p
      && table == old(table)[p := pe]
      && (forall q :: q in old(table) && q != p ==> table[q].Value() == old(table[q].Value()))
    }

    twostate lemma StoredEntries(p: Path, new pe: PathEntry)
      requires Stored(p, pe)
      ensures Entries() == old(Entries())[p := pe.Value()]
    {
    }

    twostate lemma StoredWellFormed(p: Path, new pe: PathEntry)
      requires old(WellFormed()) && Stored(p, pe) && handles == old(handles)
      requires p in old(table) ==> pe == old(table)[p]
      ensures WellFormed()
    {
    }

    /** The abstract state after a callback that stored one entry. */
    twostate lemma StoredAbs(p: Path, new pe: PathEntry)
      requires Stored(p, pe) && handles == old(handles)
      ensures Abs() == SetEntry(Within(old(Abs()), Rest()), p, pe.Value()).(remote := remote, leaks := leaks)
    {
      StoredEntries(p, pe);
      assert OpenHandles() == old(OpenHandles());
    }

    /** The lookup and the reference of dfs_open. */
    method Acquire(p: Path) returns (pe: PathEntry)
      requires WellFormed()
      modifies this`table, table.Values
      ensures WellFormed() && Stored(p, pe)
      ensures p in old(table) ==> pe == old(table)[p]
      ensures p !in old(table) ==> fresh(pe)
      ensures pe.Value() == Referenced(EntryAt(old(Abs()), p))
    {
      pe := FindOrPopulate(p);
      pe.IncRefcount();
    }

    /** dfs_open, up to the registration of the handle. */
    method AcquireAndOpen(p: Path, flags: Flags, env: OpenEnv) returns (pe: PathEntry, ret: int)
      requires WellFormed()
      modifies this`table, this`cache, this`fds, this`tainted, table.Values
      ensures Stored(p, pe)
      ensures if p in old(table) then pe == old(table)[p] else fresh(pe)
      ensures OpenResult(Rest(), pe.Value(), ret)
              == OpenMode(parse, RestOf(old(Abs())), Referenced(EntryAt(old(Abs()), p)), p, flags, env)
    {
      pe := Acquire(p);
      assert Rest() == RestOf(old(Abs()));
      ret := OpenByMode(pe, flags, env);
    }

    /** FUSE keeps the handle of a callback that succeeded. */
    method KeepHandle(h: nat, pe: PathEntry, flags: Flags)
      requires WellFormed() && pe.path in table && table[pe.path] == pe
      modifies this`handles
      ensures WellFormed()
      ensures Abs() == old(Abs()).(handles := old(Abs()).handles[h := Handle(pe.path, flags)])
    {
      handles := handles[h := OpenFile(pe, flags)];
      assert OpenHandles() == old(OpenHandles())[h := Handle(pe.path, flags)];
    }

    /** dfs_open */
    method OpenPath(p: Path, flags: Flags, h: nat, env: OpenEnv) returns (ret: int)
      requires WellFormed()
      modifies this, table.Values
      ensures WellFormed()
      ensures (Abs(), ret) == Open(parse, old(Abs()), p, flags, h, env)
    {
      var pe;
      pe, ret := AcquireAndOpen(p, flags, env);
      StoredAbs(p, pe);
      StoredWellFormed(p, pe);
      ghost var r := OpenResult(Within(old(Abs()), Rest()), pe.Value(), ret);
      OpenCoreWithin(parse, old(Abs()), p, flags, env, OpenResult(Rest(), pe.Value(), ret));
      assert Abs() == SetEntry(r.s, p, r.e);
      if ret == 0 {
        KeepHandle(h, pe, flags);
      } else if ret != BLOCKED {
        leaks := Leak(Abs(), p).leaks;
      }
      assert (Abs(), ret) == Register(r, p, flags, h);
    }

    /** dfs_create, once dfs_open has succeeded, up to dfs_mknod_timeout. */
    method PrepareNew(pe: PathEntry, env: CreateEnv) returns (ret: int)
      modifies pe
      ensures (pe.Value(), ret) == LocalCreate(old(pe.Value()), env)
    {
      pe.exclude := env.exclude;
      if pe.fd == -1 {
        return -1;
      }
      if env.fchmod.Some? {
        return env.fchmod.value;
      }
      if env.fstat.Some? {
        return env.fstat.value;
      }
      var md := CreateMeta(pe.Value(), env);
      var blocked := pe.MdLock();
      if blocked {
        return BLOCKED;
      }
      pe.SetUsermd(md);
      pe.MdUnlock();
      ret := 0;
    }

    /** dpl_mknod failed: what it left stays, and nobody gives the reference back. */
    method AbandonNew(p: Path, env: CreateEnv)
      requires WellFormed()
      modifies this`remote, this`tainted, this`leaks
      ensures WellFormed()
      ensures Abs() == Leak(Taint(old(Abs()), p, true), p).(remote := Put(old(remote), p, env.left))
    {
      ghost var s := Abs();
      leaks := Leak(s, p).leaks;
      assert Abs() == Leak(s, p);
      remote, tainted := Put(remote, p, env.left), tainted + {p};
      assert Abs() == Leak(s, p).(remote := Put(s.remote, p, env.left), tainted := s.tainted + {p});
    }

    /** The end of dfs_create. */
    method MakeRemote(pe: PathEntry, flags: Flags, h: nat, env: CreateEnv) returns (ret: int)
      requires WellFormed() && pe.path in table && table[pe.path] == pe
      modifies this
      ensures WellFormed()
      ensures (Abs(), ret) == CreateRemote(old(Abs()), pe.path, flags, h, env)
    {
      var p := pe.path;
      ghost var s := Abs();
      if env.exclude {
        tainted := tainted + {p};
        assert Abs() == Taint(s, p, true);
        KeepHandle(h, pe, flags);
        return 0;
      }
      if !env.mknodOk {
        AbandonNew(p, env);
        return -1;
      }
      remote, tainted := remote[p := EMPTY_OBJECT], tainted - {p};
      assert Abs() == Taint(s, p, false).(remote := s.remote[p := EMPTY_OBJECT]);
      KeepHandle(h, pe, flags);
      ret := 0;
    }

    /** dfs_create up to dfs_mknod_timeout: the return values of dfs_open and of the calls after it. */
    method OpenAndPrepare(p: Path, flags: Flags, env: CreateEnv) returns (pe: PathEntry, openRet: int, local: int)
      requires WellFormed()
      modifies this`table, this`cache, this`fds, this`tainted, table.Values
      ensures WellFormed() && pe.path == p && p in table && table[p] == pe
      ensures var r := OpenCore(parse, old(Abs()), p, flags, env.open);
              && openRet == r.ret
              && (pe.Value(), local) == (if r.ret == 0 then LocalCreate(r.e, env) else (r.e, r.ret))
              && Abs() == SetEntry(r.s, p, pe.Value())
    {
      pe, openRet := AcquireAndOpen(p, flags, env.open);
      OpenCoreWithin(parse, old(Abs()), p, flags, env.open, OpenResult(Rest(), pe.Value(), openRet));
      local := openRet;
      if openRet == 0 {
        local := PrepareNew(pe, env);
      }
      StoredAbs(p, pe);
      StoredWellFormed(p, pe);
    }

    /** dfs_create */
    method CreateFile(p: Path, flags: Flags, h: nat, env: CreateEnv) returns (ret: int)
      requires WellFormed()
      modifies this, table.Values
      ensures WellFormed()
      ensures (Abs(), ret) == Create(parse, old(Abs()), p, flags, h, env)
    {
      if !env.isReg || (!env.exclude && !env.nameiOk) {
        return -1;
      }
      var pe, openRet, local := OpenAndPrepare(p, flags, env);
      ret := FinishCreate(pe, openRet, local, flags, h, env);
      CreateInParts(OpenCore(parse, old(Abs()), p, flags, env.open), p, flags, h, env);
    }

    method FinishCreate(pe: PathEntry, openRet: int, local: int, flags: Flags, h: nat, env: CreateEnv)
      returns (ret: int)
      requires WellFormed() && pe.path in table && table[pe.path] == pe
      modifies this
      ensures WellFormed()
      ensures (Abs(), ret) == EndCreate(old(Abs()), pe.path, openRet, local, flags, h, env)
    {
      if local == BLOCKED {
        return BLOCKED;
      }
      if openRet != 0 {
        leaks := Leak(Abs(), pe.path).leaks;
        return -1;
      }
      if local != 0 {
        tainted := tainted + {pe.path};
        leaks := Leak(Abs(), pe.path).leaks;
        return local;
      }
      ret := MakeRemote(pe, flags, h, env);
    }

    /** dfs_getattr, its effect on the entry. */
    method GetattrPath(p: Path, env: GetattrEnv) returns (ret: int)
      requires WellFormed()
      modifies this`table, table.Values
      ensures WellFormed()
      ensures (Abs(), ret) == Getattr(old(Abs()), p, env)
    {
      if p == "/" {
        return 0;
      }
      var pe := FindOrPopulate(p);
      ret := pe.GetattrByState(env);
      StoredAbs(p, pe);
      StoredWellFormed(p, pe);
      assert Within(old(Abs()), Rest()) == old(Abs());
    }

    /** dfs_read */
    method ReadFile(h: nat, size: nat, offset: nat, fault: Option<Failure>) returns (ret: int, data: Bytes)
      requires WellFormed() && h in handles
      ensures (ret, data) == Read(Abs(), h, size, offset, fault)
    {
      var pe := handles[h].pe;
      if pe.fd < 0 {
        return -EBADFD, [];
      }
      if fault.Some? {
        return fault.value, [];
      }
      if pe.fd !in fds || fds[pe.fd].path !in cache {
        return -EBADF, [];
      }
      data := Pread(cache[fds[pe.fd].path], size, offset);
      ret := |data|;
    }

    /** dfs_write */
    method WriteFile(h: nat, buf: Bytes, offset: nat, fault: Option<Failure>, n: nat) returns (ret: int)
      requires WellFormed() && h in handles
      modifies this`cache
      ensures WellFormed()
      ensures (Abs(), ret) == Write(old(Abs()), h, buf, offset, fault, n)
    {
      var pe := handles[h].pe;
      if pe.fd < 0 {
        return EBADF;
      }
      if fault.Some? {
        return fault.value;
      }
      if pe.fd !in fds || fds[pe.fd].path !in cache || !fds[pe.fd].writable {
        return -EBADF;
      }
      var k := Min(n, |buf|);
      var file := fds[pe.fd].path;
      cache := cache[file := Pwrite(cache[file], buf[..k], offset)];
      ret := k;
    }

    /** What dfs_release is going to send, and from which descriptor: None when it gives up. */
    method ChoosePayload(pe: PathEntry, env: ReleaseEnv) returns (out: Option<Payload>)
      ensures out == Outgoing(Rest(), pe.fd, env)
      ensures out.Some? ==> Describes(out.value.meta, env.st)
    {
      if pe.fd !in fds || fds[pe.fd].path !in cache {
        return None;
      }
      var size := ToULong(env.st.size);
      var dict := FillMetadataFromStat(map[], env.st);
      var toSend := From(cache[fds[pe.fd].path], fds[pe.fd].offset);
      UploadDescribes(cache[fds[pe.fd].path], fds[pe.fd].offset, env.st, env.zlib, env.comp);
      var packed := false;
      if env.zlib {
        if !env.comp.srcOpens {
          return None;
        }
        if env.comp.dstOpens {
          var (zfd, zsize, tagged) := CompressBeforeSending(dict, env.comp);
          dict := tagged;
          if zfd < 0 {
            return None;
          }
          if zfd > 0 && env.comp.zipped.Some? {
            size, toSend, packed := zsize, env.comp.zipped.value, true;
          }
        }
      }
      out := Some(Payload(toSend, size, dict, packed));
    }

    /** read_write_all_vfile on the descriptor that is sent; the one of the cache file moves. */
    method CopyOut(pe: PathEntry, out: Payload, env: ReleaseEnv) returns (ret: int, sent: Bytes)
      requires pe.fd in fds && fds[pe.fd].path in cache
      modifies this`fds
      ensures var x := Transmit(old(Rest()), pe.fd, out, env);
              && (ret, sent) == (x.ret, x.sent)
              && Rest() == if out.packed then old(Rest()) else Seek(old(Rest()), pe.fd, x.offset)
    {
      var offset;
      if out.packed {
        ret, sent, offset := ReadWriteAll(out.data, 0, env.send);
      } else {
        ret, sent, offset := ReadWriteAll(cache[fds[pe.fd].path], fds[pe.fd].offset, env.send);
        fds := fds[pe.fd := fds[pe.fd].(offset := offset)];
      }
    }

    /** Compress or not, then dpl_openwrite, read_write_all_vfile and dpl_close. */
    method SendFile(pe: PathEntry, env: ReleaseEnv) returns (ret: int)
      modifies this`remote, this`fds, this`tainted
      ensures (Rest(), ret) == Sent(old(Rest()), pe.path, pe.fd, env)
    {
      var p := pe.path;
      var out := ChoosePayload(pe, env);
      if out.None? {
        tainted := tainted + {p};
        return -1;
      }
      if !env.openwriteOk {
        remote, tainted := Put(remote, p, env.left), tainted + {p};
        return -1;
      }
      var sent;
      ret, sent := CopyOut(pe, out.value, env);
      if ret == 0 && env.closeOk {
        remote, tainted := remote[p := Object(sent, out.value.declared, out.value.meta)], tainted - {p};
      } else {
        remote, tainted := Put(remote, p, env.left), tainted + {p};
        ret := -1;
      }
    }

    /** FUSE forgets a handle. */
    method DropHandle(h: nat)
      requires WellFormed()
      modifies this`handles
      ensures WellFormed()
      ensures Abs() == old(Abs()).(handles := old(Abs()).handles - {h})
    {
      handles := handles - {h};
      assert OpenHandles() == old(OpenHandles()) - {h};
    }

    /** The label `exc` of dfs_release. */
    method MarkClean(pe: PathEntry)
      requires WellFormed() && pe.path in table && table[pe.path] == pe
      modifies pe
      ensures WellFormed()
      ensures Abs() == SetEntry(old(Abs()), pe.path, old(pe.Value()).(dirty := false, held := false))
    {
      pe.dirty := false;
      pe.held := false;
      assert Stored(pe.path, pe);
      StoredAbs(pe.path, pe);
    }

    /** The label `err` of dfs_release: lseek, then unlink of the scratch file. */
    method RewindAndUnlink(pe: PathEntry, env: ReleaseEnv, scratch: bool)
      modifies this`fds, this`cache
      ensures fds == if env.lseekOk then Seek(old(Rest()), pe.fd, 0).fds else old(fds)
      ensures cache == if scratch then Put(old(cache), Tmp(pe.path), env.scratch) else old(cache)
    {
      if env.lseekOk && pe.fd in fds {
        fds := fds[pe.fd := fds[pe.fd].(offset := 0)];
      }
      if scratch {
        cache := Put(cache, Tmp(pe.path), env.scratch);
      }
    }

    /** The labels `err` and `exc` of dfs_release; FUSE forgets the handle. */
    method WindUp(pe: PathEntry, h: nat, env: ReleaseEnv, scratch: bool)
      requires WellFormed() && pe.path in table && table[pe.path] == pe
      modifies this`fds, this`cache, this`handles, pe
      ensures WellFormed()
      ensures Abs() == Conclude(old(Abs()), pe.path, h, old(pe.Value()), env, scratch)
    {
      RewindAndUnlink(pe, env, scratch);
      MarkClean(pe);
      DropHandle(h);
    }

    /** dfs_release when the descriptor is unusable or fstat fails: no reference is given back. */
    method FailRelease(pe: PathEntry, acc: Access, h: nat, env: ReleaseEnv)
      requires WellFormed() && pe.path in table && table[pe.path] == pe
      modifies this`fds, this`cache, this`handles, this`tainted, this`leaks, pe
      ensures WellFormed()
      ensures var s := old(Abs());
              Abs() == Conclude(Leak(if acc == RdOnly then s else Taint(s, pe.path, true), pe.path),
                                pe.path, h, old(pe.Value()), env, false)
    {
      ghost var s := Abs();
      if acc != RdOnly {
        tainted := tainted + {pe.path};
      }
      leaks := Leak(Abs(), pe.path).leaks;
      assert Abs() == Leak(if acc == RdOnly then s else Taint(s, pe.path, true), pe.path);
      WindUp(pe, h, env, false);
    }

    /** dfs_release of a file that is uploaded. */
    method UploadAndWindUp(pe: PathEntry, h: nat, env: ReleaseEnv) returns (ret: int)
      requires WellFormed() && pe.path in table && table[pe.path] == pe
      modifies this, pe
      ensures WellFormed()
      ensures var (t, r) := Sent(old(Abs()), pe.path, old(pe.fd), env);
              (Abs(), ret) == (Conclude(t, pe.path, h, old(pe.Value()), env, env.zlib), r)
    {
      assert Rest() == RestOf(old(Abs()));
      ret := SendFile(pe, env);
      SentWithin(old(Abs()), pe.path, pe.fd, env, Rest(), ret);
      assert Abs() == Sent(old(Abs()), pe.path, pe.fd, env).0;
      WindUp(pe, h, env, env.zlib);
    }

    /** dfs_release after the reference is given back. */
    method FinishRelease(pe: PathEntry, acc: Access, h: nat, env: ReleaseEnv) returns (ret: int)
      requires WellFormed() && pe.path in table && table[pe.path] == pe
      modifies this, pe
      ensures WellFormed()
      ensures (Abs(), ret) == EndRelease(old(Abs()), pe.path, old(pe.Value()), acc, h, env)
    {
      ghost var s := Abs();
      if acc == RdOnly {
        DropHandle(h);
        return 0;
      }
      if pe.exclude {
        tainted := tainted + {pe.path};
        assert Abs() == Taint(s, pe.path, true);
        MarkClean(pe);
        DropHandle(h);
        return 0;
      }
      ret := UploadAndWindUp(pe, h, env);
    }

    /** The reference of an open file is given back. */
    method GiveBack(pe: PathEntry) returns (blocked: bool)
      requires WellFormed() && pe.path in table && table[pe.path] == pe
      modifies pe`refcount
      ensures WellFormed() && (blocked <==> old(pe.refcount) == 0)
      ensures pe.Value() == old(pe.Value()).(refcount := if blocked then 0 else old(pe.refcount) - 1)
      ensures Abs() == SetEntry(old(Abs()), pe.path, pe.Value())
    {
      blocked := pe.DecRefcount();
      assert Stored(pe.path, pe);
      StoredAbs(pe.path, pe);
    }

    /** dfs_release on a usable descriptor. */
    method SettleRelease(h: nat, env: ReleaseEnv) returns (ret: int)
      requires WellFormed() && h in handles && 0 <= handles[h].pe.fd && env.fstatOk
      modifies this, table.Values
      ensures WellFormed()
      ensures (Abs(), ret) == Release(old(Abs()), h, env)
    {
      var pe, acc := handles[h].pe, handles[h].flags.acc;
      var blocked := GiveBack(pe);
      if blocked {
        assert old(Abs()).table[pe.path := pe.Value()] == old(Abs()).table;
        return BLOCKED;
      }
      ReleaseInParts(old(Abs()), h, env);
      ret := FinishRelease(pe, acc, h, env);
    }

    /** dfs_release */
    method ReleaseFile(h: nat, env: ReleaseEnv) returns (ret: int)
      requires WellFormed() && h in handles
      modifies this, table.Values
      ensures WellFormed()
      ensures (Abs(), ret) == Release(old(Abs()), h, env)
    {
      var pe, acc := handles[h].pe, handles[h].flags.acc;
      if pe.fd < 0 || !env.fstatOk {
        FailRelease(pe, acc, h, env);
        ret := -1;
      } else {
        ret := SettleRelease(h, env);
      }
    }

    /** gc_callback on one key of the snapshot. */
    method GcCallback(p: Path, env: GcEnv)
      requires p in table
      modifies this`table, this`cache, this`fds, table[p]
      ensures var pr := env.probe(p);
              if Stays(old(table[p].Value()), pr, env.threshold) then
                && table == old(table) && table[p].Value() == old(table[p].Value())
                && cache == old(cache) && fds == old(fds)
              else
                table == old(table) - {p} && fds == old(fds) - {old(table[p].fd)}
                && cache == if pr.unlinkOk then old(cache) - {p} else old(cache)
    {
      var pe, pr := table[p], env.probe(p);
      if pe.refcount != 0 {
        return;
      }
      if pe.held {
        return;
      }
      pe.held := true;
      if pe.fd == -1 {
        pe.held := false;
        return;
      }
      if pr.fstatOk {
        var threshold := if pe.exclude then env.threshold * 10 else env.threshold;
        if Fresh(pr, threshold) {
          pe.held := false;
          return;
        }
      }
      if pr.unlinkOk {
        cache := cache - {p};
      }
      // the destroy function of the table closes the descriptor
      table, fds := table - {p}, fds - {pe.fd};
    }

    /** The entries still in the table have the values they have in `s`. */
    ghost predicate Holds(s: State)
      reads this, table.Values
    {
      forall p :: p in table ==> p in s.table && table[p].path == p && table[p].Value() == s.table[p]
    }

    /** The callback on the next key, when the keys `done` have been dealt with. */
    method SweepKey(p: Path, env: GcEnv, ghost s: State, ghost done: set<Path>)
      requires p in table && p !in done && Holds(s) && Swept(s, env, done, table.Keys, cache, fds)
      modifies this`table, this`cache, this`fds, table[p]
      ensures Holds(s) && Swept(s, env, done + {p}, table.Keys, cache, fds)
      ensures old(table).Keys - {p} <= table.Keys <= old(table).Keys
      ensures forall q :: q in table ==> table[q] == old(table)[q]
    {
      ghost var ks, c, f := table.Keys, cache, fds;
      SurvivesIff(s.table[p], env.probe(p), env.threshold);
      GcCallback(p, env);
      SweepOne(s, env, done, p, ks, c, f, table.Keys, cache, fds);
    }

    /** g_hash_table_foreach over a snapshot of the keys, in any order. */
    method SweepTable(env: GcEnv, ghost s: State)
      requires Holds(s) && table.Keys == s.table.Keys && cache == s.cache && fds == s.fds
      modifies this`table, this`cache, this`fds, table.Values
      ensures Holds(s) && Swept(s, env, s.table.Keys, table.Keys, cache, fds)
      ensures forall p :: p in table ==> p in old(table) && table[p] == old(table)[p]
    {
      var keys := table.Keys;
      ghost var done: set<Path> := {};
      SweepNone(s, env);
      while keys != {}
        invariant keys <= table.Keys && done !! keys && done + keys == s.table.Keys
        invariant Holds(s) && Swept(s, env, done, table.Keys, cache, fds)
        invariant forall p :: p in table ==> p in old(table) && table[p] == old(table)[p]
        decreases keys
      {
        var p :| p in keys;
        SweepKey(p, env, s, done);
        keys, done := keys - {p}, done + {p};
      }
      assert done == s.table.Keys;
    }

    /** A pass over a snapshot of the keys. No entry behind an open handle is freed, because it is counted. */
    method RunPass(env: GcEnv)
      requires WellFormed()
      requires forall h :: h in handles ==> 0 < handles[h].pe.refcount
      modifies this`table, this`cache, this`fds, table.Values
      ensures WellFormed()
      ensures Abs() == Gc(old(Abs()), env)
    {
      ghost var s := Abs();
      SweepTable(env, s);
      SweepAll(s, env, table.Keys, cache, fds);
      CountedSurvive(s, env);
      assert Entries() == Gc(s, env).table;
    }

    /** In every valid state the entry behind an open handle is counted. */
    lemma HandlesAreCounted()
      requires Valid()
      ensures forall h :: h in handles ==> 0 < handles[h].pe.refcount
    {
      forall h | h in handles
        ensures 0 < handles[h].pe.refcount
      {
        LiveHandleUsable(parse, Abs(), h);
      }
    }

    // ---- the callbacks under the guarantees of the kernel ----

    /** The descriptor behind an open file lets writes through. */
    ghost predicate Writable(h: nat)
      requires h in handles
      reads this, handles[h].pe
    {
      handles[h].pe.fd in fds && fds[handles[h].pe.fd].writable
    }

    /** dfs_open */
    method FuseOpen(p: Path, flags: Flags, h: nat, env: OpenEnv) returns (ret: int)
      requires Valid() && Enabled(parse, Abs(), OpOpen(p, flags, h, env))
      modifies this, table.Values
      ensures Valid() && (Abs(), ret) == Open(parse, old(Abs()), p, flags, h, env)
      ensures ret == 0 || ret == -1
      ensures forall q :: q != p ==> Content(q) == old(Content(q))
      ensures ret == 0 && Truncates(flags) ==> Content(p) == Some([])
      ensures !(ret == 0 && Truncates(flags)) && p !in tainted ==> Content(p) == old(Content(p))
      ensures OpenedBy(parse, old(Abs()), p, flags, h, env, Abs(), ret)
      ensures Truncates(flags) ==> (ret == 0 <==> env.localOpens)
      ensures ret == 0 && Truncates(flags) ==> h in handles && Writable(h)
    {
      OpenKeeps(parse, Abs(), p, flags, h, env);
      OpenExactly(parse, Abs(), p, flags, h, env);
      TruncatesIff(flags);
      ghost var s := Abs();
      ret := OpenPath(p, flags, h, env);
      if ret == 0 && Truncates(flags) {
        TruncatedIsWritable(parse, s, p, flags, h, env, Abs(), ret);
        WritableHandle(h);
      }
    }

    /** An open file and its descriptor are those of the abstract state. */
    lemma WritableHandle(h: nat)
      requires WellFormed() && h in Abs().handles && Abs().handles[h].path in Abs().table
      requires Abs().table[Abs().handles[h].path].fd in fds && fds[Abs().table[Abs().handles[h].path].fd].writable
      ensures h in handles && Writable(h)
    {
      assert h in handles && Abs().handles[h].path == handles[h].pe.path;
    }

    /** dfs_create */
    method FuseCreate(p: Path, flags: Flags, h: nat, env: CreateEnv) returns (ret: int)
      requires Valid() && Enabled(parse, Abs(), OpCreate(p, flags, h, env))
      modifies this, table.Values
      ensures Valid() && (Abs(), ret) == Create(parse, old(Abs()), p, flags, h, env)
      ensures BLOCKED < ret <= 0
      ensures forall q :: q != p ==> Content(q) == old(Content(q))
      ensures ret == 0 ==> Content(p) == Some([])
      ensures ret != 0 && p !in tainted ==> Content(p) == old(Content(p))
      ensures CreatedBy(old(Abs()), p, flags, h, env, Abs(), ret)
    {
      CreateKeeps(parse, Abs(), p, flags, h, env);
      CreateExactly(parse, Abs(), p, flags, h, env);
      ret := CreateFile(p, flags, h, env);
    }

    /** dfs_read */
    method FuseRead(h: nat, size: nat, offset: nat, fault: Option<Failure>) returns (ret: int, data: Bytes)
      requires Valid() && Enabled(parse, Abs(), OpRead(h, size, offset, fault))
      ensures fault.Some? ==> ret == fault.value && data == []
      ensures fault.None? ==> Content(handles[h].pe.path).Some?
      ensures fault.None? ==> IsRange(data, Content(handles[h].pe.path).value, size, offset) && ret == |data|
    {
      LiveHandleUsable(parse, Abs(), h);
      ReadKeeps(parse, Abs(), h, size, offset, fault);
      ret, data := ReadFile(h, size, offset, fault);
    }

    /** dfs_write */
    method FuseWrite(h: nat, buf: Bytes, offset: nat, fault: Option<Failure>, n: nat) returns (ret: int)
      requires Valid() && Enabled(parse, Abs(), OpWrite(h, buf, offset, fault, n))
      modifies this`cache
      ensures Valid()
      ensures ret == if fault.Some? then fault.value else if !old(Writable(h)) then -EBADF else Min(n, |buf|)
      ensures forall q :: q != handles[h].pe.path ==> Content(q) == old(Content(q))
      ensures var before := old(Content(handles[h].pe.path));
              && before.Some?
              && Content(handles[h].pe.path) ==
                 if ret < 0 then before else Some(Pwrite(before.value, buf[..ret], offset))
    {
      LiveHandleUsable(parse, Abs(), h);
      WriteKeeps(parse, Abs(), h, buf, offset, fault, n);
      ret := WriteFile(h, buf, offset, fault, n);
    }

    /** Releasing the handle uploads the file. */
    ghost predicate Uploads(h: nat)
      requires h in handles
      reads this, handles[h].pe
    {
      Writes(handles[h].flags) && !handles[h].pe.exclude
    }

    /** dfs_release */
    method FuseRelease(h: nat, env: ReleaseEnv) returns (ret: int)
      requires Valid() && Enabled(parse, Abs(), OpRelease(h, env))
      modifies this, table.Values
      ensures Valid() && (Abs(), ret) == Release(old(Abs()), h, env)
      ensures ret == 0 || ret == -1
      ensures forall q :: Content(q) == old(Content(q))
      ensures ret == 0 && old(Uploads(h)) ==>
                old(handles[h].pe.path) !in tainted && Synced(parse, Abs(), old(handles[h].pe.path))
      ensures ReleasedBy(old(Abs()), h, env, Abs(), ret)
    {
      ReleaseExactly(parse, Abs(), h, env);
      LiveHandleUsable(parse, Abs(), h);
      ReleaseKeeps(parse, Abs(), h, env);
      if Uploads(h) {
        ReleaseSyncs(parse, Abs(), h, env);
      }
      ret := ReleaseFile(h, env);
    }

    /** dfs_getattr */
    method FuseGetattr(p: Path, env: GetattrEnv) returns (ret: int)
      requires Valid() && Enabled(parse, Abs(), OpGetattr(p, env))
      modifies this`table, table.Values
      ensures Valid() && (Abs(), ret) == Getattr(old(Abs()), p, env)
      ensures BLOCKED < ret <= 0
      ensures forall q :: Content(q) == old(Content(q))
      ensures LookedUpBy(old(Abs()), p, env, Abs(), ret)
    {
      GetattrKeeps(parse, Abs(), p, env);
      GetattrExactly(parse, Abs(), p, env);
      ret := GetattrPath(p, env);
    }

    /** One pass of thread_gc */
    method CollectGarbage(env: GcEnv)
      requires Valid()
      modifies this`table, this`cache, this`fds, table.Values
      ensures Valid() && Abs() == Gc(old(Abs()), env)
      ensures forall h :: h in handles ==> handles[h].pe.path in table && table[handles[h].pe.path] == handles[h].pe
      ensures forall q :: !(q in Evicted(old(Abs()), env) && q in tainted) ==> Content(q) == old(Content(q))
      ensures forall p :: p in old(Abs()).table ==> Passed(old(Abs()), env, Abs(), p)
    {
      PassExactly(parse, Abs(), env);
      HandlesAreCounted();
      GcKeeps(parse, Abs(), env);
      RunPass(env);
    }
  }

  lemma CountedSurvive(s: State, env: GcEnv)
    ensures forall p :: p in s.table && 0 < s.table[p].refcount ==> p in Gc(s, env).table
  {
  }

  /** The pass has dealt with exactly the paths `ps`. */
  ghost predicate Swept(s: State, env: GcEnv, ps: set<Path>, keys: set<Path>, cache: map<Path, Bytes>,
                        fds: map<int, Desc>)
  {
    var gone := Evicted(s, env) * ps;
    && keys == s.table.Keys - gone
    && cache == s.cache - (set p | p in gone && env.probe(p).unlinkOk)
    && fds == s.fds - (set p | p in gone :: s.table[p].fd)
  }

  lemma SweepNone(s: State, env: GcEnv)
    ensures Swept(s, env, {}, s.table.Keys, s.cache, s.fds)
  {
  }

  lemma SweepOne(s: State, env: GcEnv, ps: set<Path>, p: Path, keys: set<Path>, cache: map<Path, Bytes>,
                 fds: map<int, Desc>, keys': set<Path>, cache': map<Path, Bytes>, fds': map<int, Desc>)
    requires Swept(s, env, ps, keys, cache, fds) && p in s.table && p !in ps
    requires if Survives(s.table[p], env.probe(p), env.threshold)
             then keys' == keys && cache' == cache && fds' == fds
             else keys' == keys - {p} && fds' == fds - {s.table[p].fd}
                  && cache' == if env.probe(p).unlinkOk then cache - {p} else cache
    ensures Swept(s, env, ps + {p}, keys', cache', fds')
  {
    var gone := Evicted(s, env) * ps;
    if Survives(s.table[p], env.probe(p), env.threshold) {
      assert Evicted(s, env) * (ps + {p}) == gone;
    } else {
      assert Evicted(s, env) * (ps + {p}) == gone + {p};
      assert (set q | q in gone + {p} :: s.table[q].fd) == (set q | q in gone :: s.table[q].fd) + {s.table[p].fd};
      assert (set q | q in gone + {p} && env.probe(q).unlinkOk)
             == (set q | q in gone && env.probe(q).unlinkOk) + if env.probe(p).unlinkOk then {p} else {};
    }
  }

  lemma SweepAll(s: State, env: GcEnv, keys: set<Path>, cache: map<Path, Bytes>, fds: map<int, Desc>)
    requires Swept(s, env, s.table.Keys, keys, cache, fds)
    ensures keys == Gc(s, env).table.Keys && cache == Gc(s, env).cache && fds == Gc(s, env).fds
  {
    assert Evicted(s, env) * s.table.Keys == Evicted(s, env);
  }
}
