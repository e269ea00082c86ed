/**
 What each callback does, told exactly and without the functions that compute it: when it succeeds,
 what it returns otherwise, and what it leaves in the entry, the descriptors, the cache file and
 the remote object.
 */
module CacheExact {
  import opened Common
  import opened Codec
  import opened Metadata
  import opened Transfer
  import opened Cache
  import opened CacheInvariant
  import opened CacheRuns

  /** The handle that a successful open or create registers; a failed one registers none. */
  ghost predicate Registers(s: State, p: Path, flags: Flags, h: nat, t: State, ret: int) {
    t.handles == if ret == 0 then s.handles[h := Handle(p, flags)] else s.handles
  }

  /** No other entry of the table is touched. */
  ghost predicate OnlyEntry(s: State, p: Path, t: State) { p in t.table && t.table == s.table[p := t.table[p]] }

  // ---- open ----

  /** A truncating open succeeds exactly when the cache file can be opened, on a new writable descriptor. */
  ghost predicate TruncatedBy(s: State, p: Path, env: OpenEnv, t: State, ret: int) {
    var e := EntryAt(s, p).(refcount := EntryAt(s, p).refcount + 1);
    && ret == (if env.localOpens then 0 else -1)
    && p in t.table
    && (ret == 0 ==>
          && t.table[p] == e.(fd := env.fd, dirty := true, onDisk := Local)
          && t.fds == s.fds[env.fd := Desc(p, 0, true)]
          && t.cache == s.cache[p := []])
    && (ret != 0 ==> t.table[p] == e && t.fds == s.fds && t.cache == s.cache)
  }

  /** Any other open of a local file keeps its file and its descriptor, and always succeeds. */
  ghost predicate ReusedBy(s: State, p: Path, readOnly: bool, t: State, ret: int)
    requires p in s.table
  {
    && ret == 0 && p in t.table && t.fds == s.fds && t.cache == s.cache
    && t.table[p] == s.table[p].(refcount := s.table[p].refcount + 1, dirty := s.table[p].dirty || !readOnly)
  }

  /** Every foreign call of a download works, and the object can be decoded. */
  ghost predicate Downloads(parse: Parser, s: State, p: Path, env: OpenEnv) {
    && env.dl.headersOk && env.dl.extractOk && env.dl.localOpens && env.dl.fchmodOk && env.dl.readOk
    && p in s.remote && env.dl.closeOk && env.dl.reopens
    && (Transfer.Plain(s.remote[p])
        || (Unzips(parse, s.remote[p], env.dl.unzip) && (env.dl.unzip.renameOk ==> env.dl.unzip.reopenOk)))
  }

  /**
   An open of a file that is not local succeeds exactly when the download does. The entry then has
   a new descriptor, writable unless the open is read-only, and the metadata of the object.
   */
  ghost predicate DownloadedBy(parse: Parser, s: State, p: Path, readOnly: bool, env: OpenEnv, t: State, ret: int) {
    var e, e' := EntryAt(s, p).(refcount := EntryAt(s, p).refcount + 1), EntryAt(t, p);
    && ret == (if Downloads(parse, s, p, env) then 0 else -1)
    && p in t.table
    && (ret == 0 ==>
          && e' == e.(fd := env.fd, onDisk := Local, dirty := e.dirty || !readOnly, usermd := Some(env.dl.meta))
          && t.fds == s.fds[env.fd := Desc(p, 0, !readOnly)]
          && p in t.cache
          && (env.dl.unzip.renameOk ==> Decode(parse, s.remote[p]) == Some(t.cache[p])))
    && (ret != 0 ==>
          && e' == e.(usermd := if env.dl.headersOk && env.dl.extractOk then Some(env.dl.meta) else e.usermd)
          && t.fds == s.fds)
  }

  ghost predicate OpenedBy(parse: Parser, s: State, p: Path, flags: Flags, h: nat, env: OpenEnv, t: State, ret: int) {
    var readOnly := flags.acc == RdOnly && !flags.append;
    && Registers(s, p, flags, h, t, ret) && OnlyEntry(s, p, t)
    && t.remote == s.remote
    && (if Truncates(flags) then TruncatedBy(s, p, env, t, ret)
        else if EntryAt(s, p).onDisk == Local then p in s.table && ReusedBy(s, p, readOnly, t, ret)
        else DownloadedBy(parse, s, p, readOnly, env, t, ret))
  }

  /** Which state an open leaves around its entry. */
  lemma RegisterForm(r: OpenResult, p: Path, flags: Flags, h: nat)
    ensures var (t, ret) := Register(r, p, flags, h);
            && ret == r.ret && p in t.table && t.table == r.s.table[p := r.e]
            && t.fds == r.s.fds && t.cache == r.s.cache && t.remote == r.s.remote
            && t.handles == if ret == 0 then r.s.handles[h := Handle(p, flags)] else r.s.handles
  {
  }

  lemma TruncatingCore(parse: Parser, s: State, p: Path, flags: Flags, env: OpenEnv)
    requires Truncates(flags)
    ensures var r := OpenCore(parse, s, p, flags, env);
            && r.s.table == s.table && r.s.handles == s.handles && r.s.remote == s.remote
            && TruncatedBy(s, p, env, SetEntry(r.s, p, r.e), r.ret)
  {
  }

  lemma ReusingCore(parse: Parser, s: State, p: Path, flags: Flags, env: OpenEnv)
    requires PathInv(parse, s, p) && !Truncates(flags) && EntryAt(s, p).onDisk == Local
    ensures var r := OpenCore(parse, s, p, flags, env);
            && r.s.table == s.table && r.s.handles == s.handles && r.s.remote == s.remote && p in s.table
            && ReusedBy(s, p, flags.acc == RdOnly && !flags.append, SetEntry(r.s, p, r.e), r.ret)
  {
    TruncatesIff(flags);
  }

  /** The making of a new cache file succeeds exactly when its calls do and the object can be decoded. */
  lemma FetchSucceedsIff(parse: Parser, s: State, p: Path, writable: bool, env: OpenEnv)
    requires FreshFd(s, env.fd) && env.dl.headersOk && env.dl.extractOk
    ensures Fetch(parse, s, p, writable, env).1 == env.fd <==> Downloads(parse, s, p, env)
  {
    FetchForm(parse, s, p, writable, env);
    if p in s.remote {
      var s1 := if p in s.cache && env.dl.unlinkOk then s.(cache := s.cache - {p}) else s;
      DecompressExactly(parse, s.remote[p], CacheOf(s1, Tmp(p)), env.dl.unzip);
    }
  }

  /** The two ends of a download around the files that it leaves. */
  lemma DownloadedExactly(parse: Parser, s: State, p: Path, readOnly: bool, env: OpenEnv, t: State, fd: int)
    requires PathInv(parse, s, p) && FreshFd(s, env.fd) && EntryAt(s, p).fd < 0
    requires env.dl.headersOk && env.dl.extractOk && (t, fd) == Fetch(parse, s, p, !readOnly, env)
    ensures var e := Referenced(EntryAt(s, p)).(usermd := Some(env.dl.meta));
            var r := AfterDownload(t, e, p, fd, !readOnly, StaysPacked(s, p, env));
            && r.s.table == s.table && r.s.handles == s.handles && r.s.remote == s.remote
            && DownloadedBy(parse, s, p, readOnly, env, SetEntry(r.s, p, r.e), r.ret)
  {
    FetchSucceedsIff(parse, s, p, !readOnly, env);
    FetchKeeps(parse, s, p, !readOnly, env);
  }

  lemma NotDownloadedExactly(parse: Parser, s: State, p: Path, readOnly: bool, env: OpenEnv)
    requires PathInv(parse, s, p) && EntryAt(s, p).fd < 0 && !(env.dl.headersOk && env.dl.extractOk)
    ensures DownloadedBy(parse, s, p, readOnly, env, SetEntry(s, p, Referenced(EntryAt(s, p)).(fd := -1)), -1)
  {
  }

  /** What a download needs to know about the entry. */
  lemma NotLocal(parse: Parser, s: State, p: Path)
    requires PathInv(parse, s, p) && EntryAt(s, p).onDisk != Local
    ensures EntryAt(s, p).fd < 0 && !EntryAt(s, p).mdHeld
  {
  }

  lemma DownloadingCore(parse: Parser, s: State, p: Path, flags: Flags, env: OpenEnv)
    requires PathInv(parse, s, p) && FreshFd(s, env.fd) && !Truncates(flags) && EntryAt(s, p).onDisk != Local
    ensures var r := OpenCore(parse, s, p, flags, env);
            && r.s.table == s.table && r.s.handles == s.handles && r.s.remote == s.remote
            && DownloadedBy(parse, s, p, flags.acc == RdOnly && !flags.append, env, SetEntry(r.s, p, r.e), r.ret)
  {
    TruncatesIff(flags);
    NotLocal(parse, s, p);
    var readOnly := flags.acc == RdOnly && !flags.append;
    DownloadForm(parse, s, Referenced(EntryAt(s, p)), p, flags, env);
    if env.dl.headersOk && env.dl.extractOk {
      var (t, fd) := Fetch(parse, s, p, !readOnly, env);
      DownloadedExactly(parse, s, p, readOnly, env, t, fd);
    } else {
      NotDownloadedExactly(parse, s, p, readOnly, env);
    }
  }

  /** dfs_open, exactly. */
  lemma OpenExactly(parse: Parser, s: State, p: Path, flags: Flags, h: nat, env: OpenEnv)
    requires Inv(parse, s) && Enabled(parse, s, OpOpen(p, flags, h, env))
    ensures var (t, ret) := Open(parse, s, p, flags, h, env); OpenedBy(parse, s, p, flags, h, env, t, ret)
  {
    InvAt(parse, s, p);
    RegisterForm(OpenCore(parse, s, p, flags, env), p, flags, h);
    if Truncates(flags) {
      TruncatingCore(parse, s, p, flags, env);
    } else if EntryAt(s, p).onDisk == Local {
      ReusingCore(parse, s, p, flags, env);
    } else {
      DownloadingCore(parse, s, p, flags, env);
    }
  }

  /** After a truncating open every write gets through that pwrite accepts. */
  lemma TruncatedWritesIff(parse: Parser, s: State, p: Path, flags: Flags, h: nat, env: OpenEnv,
                           buf: Bytes, offset: nat, fault: Option<Failure>, n: nat)
    requires Inv(parse, s) && Enabled(parse, s, OpOpen(p, flags, h, env)) && Truncates(flags)
    ensures var (t, ret) := Open(parse, s, p, flags, h, env);
            && (ret == 0 <==> env.localOpens)
            && (ret == 0 ==>
                  && h in t.handles && t.handles[h].path in t.table
                  && (0 <= Write(t, h, buf, offset, fault, n).1 <==> fault.None?))
  {
    OpenExactly(parse, s, p, flags, h, env);
  }

  lemma TruncatedIsWritable(parse: Parser, s: State, p: Path, flags: Flags, h: nat, env: OpenEnv, t: State, ret: int)
    requires OpenedBy(parse, s, p, flags, h, env, t, ret) && Truncates(flags)
    ensures ret == 0 <==> env.localOpens
    ensures ret == 0 ==>
              && h in t.handles && t.handles[h].path == p && p in t.table
              && t.table[p].fd in t.fds && t.fds[t.table[p].fd].writable
  {
  }

  // ---- create ----

  /** The return value of dfs_create: the first thing that fails. */
  function CreateReturns(flags: Flags, env: CreateEnv): int {
    if !env.isReg then -1
    else if !env.exclude && !env.nameiOk then -1
    else if !Truncates(flags) || !env.open.localOpens then -1
    else if env.fchmod.Some? then env.fchmod.value
    else if env.fstat.Some? then env.fstat.value
    else if !env.exclude && !env.mknodOk then -1
    else 0
  }

  /**
   A created file: an empty cache file behind a new writable descriptor, an entry with the metadata of
   the file under the requested mode, and an empty object unless the path is excluded.
   */
  ghost predicate CreatedBy(s: State, p: Path, flags: Flags, h: nat, env: CreateEnv, t: State, ret: int) {
    && ret == CreateReturns(flags, env)
    && Registers(s, p, flags, h, t, ret)
    && (ret == 0 ==>
          && OnlyEntry(s, p, t) && t.table[p].usermd.Some?
          && t.table[p] == NEW_ENTRY.(refcount := EntryAt(s, p).refcount + 1, fd := env.open.fd, onDisk := Local,
                                      exclude := env.exclude, digest := EntryAt(s, p).digest,
                                      usermd := t.table[p].usermd)
          && Describes(t.table[p].usermd.value, env.st.(mode := env.mode))
          && t.fds == s.fds[env.open.fd := Desc(p, 0, true)] && t.cache == s.cache[p := []]
          && t.remote == if env.exclude then s.remote else s.remote[p := Object([], 0, map[])])
    && (ret != 0 ==>
          t.remote == if MknodFails(flags, env) then Put(s.remote, p, env.left) else s.remote)
  }

  /** Everything before dpl_mknod works, and dpl_mknod fails. */
  predicate MknodFails(flags: Flags, env: CreateEnv) {
    && env.isReg && !env.exclude && env.nameiOk && Truncates(flags) && env.open.localOpens
    && env.fchmod.None? && env.fstat.None? && !env.mknodOk
  }

  lemma CreateMetaDescribes(e: Entry, env: CreateEnv)
    requires e.usermd.None?
    ensures Describes(CreateMeta(e, env), env.st.(mode := env.mode))
  {
    MetaWithMode(env.st, env.mode);
    FieldsRoundTrip(map[], env.st.(mode := env.mode));
  }

  lemma MetaWithMode(st: Stat, mode: u32)
    ensures FillMetadataFromStat(map[], st)["mode" := ToText(ToULong(mode))]
            == FillMetadataFromStat(map[], st.(mode := mode))
  {
    FilledNames(map[], st);
    FilledNames(map[], st.(mode := mode));
  }

  /** The end of dfs_create on the state that dfs_open left. */
  lemma CreateRemoteExactly(s: State, p: Path, flags: Flags, h: nat, env: CreateEnv)
    ensures var (t, ret) := CreateRemote(s, p, flags, h, env);
            && ret == (if !env.exclude && !env.mknodOk then -1 else 0)
            && t.table == s.table && t.fds == s.fds && t.cache == s.cache
            && t.handles == (if ret == 0 then s.handles[h := Handle(p, flags)] else s.handles)
            && t.remote == (if ret != 0 then Put(s.remote, p, env.left)
                            else if env.exclude then s.remote else s.remote[p := Object([], 0, map[])])
  {
  }

  lemma CreateOpenedExactly(r: OpenResult, p: Path, flags: Flags, h: nat, env: CreateEnv)
    requires r.ret == 0 && r.e.fd != -1 && !r.e.mdHeld
    ensures var (t, ret) := CreateOpened(r, p, flags, h, env);
            && t.handles == (if ret == 0 then r.s.handles[h := Handle(p, flags)] else r.s.handles)
            && ret == (if env.fchmod.Some? then env.fchmod.value else if env.fstat.Some? then env.fstat.value
                       else if !env.exclude && !env.mknodOk then -1 else 0)
            && (ret == 0 ==>
                  && t.table == r.s.table[p := r.e.(exclude := env.exclude, usermd := Some(CreateMeta(r.e, env)))]
                  && t.fds == r.s.fds && t.cache == r.s.cache
                  && t.remote == if env.exclude then r.s.remote else r.s.remote[p := Object([], 0, map[])])
            && (ret != 0 ==>
                  t.remote == if env.fchmod.None? && env.fstat.None? && !env.exclude && !env.mknodOk
                              then Put(r.s.remote, p, env.left) else r.s.remote)
  {
    var e := r.e.(exclude := env.exclude);
    if CreateFault(e, env) == 0 {
      CreateRemoteExactly(SetEntry(r.s, p, e.(usermd := Some(CreateMeta(e, env)))), p, flags, h, env);
    }
  }

  /** dfs_create, once dfs_open has made an empty file. */
  lemma CreatedExactly(parse: Parser, s: State, p: Path, flags: Flags, h: nat, env: CreateEnv, r: OpenResult)
    requires PathInv(parse, s, p) && Absent(s, p) && FreshFd(s, env.open.fd)
    requires env.isReg && (env.exclude || env.nameiOk) && Truncates(flags) && r.ret == 0
    requires r.s.table == s.table && r.s.handles == s.handles && r.s.remote == s.remote
    requires TruncatedBy(s, p, env.open, SetEntry(r.s, p, r.e), r.ret)
    ensures var (t, ret) := CreateOpened(r, p, flags, h, env); CreatedBy(s, p, flags, h, env, t, ret)
  {
    CreateOpenedExactly(r, p, flags, h, env);
    CreateMetaDescribes(r.e, env);
  }

  /** dfs_create, exactly. */
  lemma CreateExactly(parse: Parser, s: State, p: Path, flags: Flags, h: nat, env: CreateEnv)
    requires Inv(parse, s) && Enabled(parse, s, OpCreate(p, flags, h, env))
    ensures var (t, ret) := Create(parse, s, p, flags, h, env); CreatedBy(s, p, flags, h, env, t, ret)
  {
    InvAt(parse, s, p);
    var r := OpenCore(parse, s, p, flags, env.open);
    OpenCoreKeeps(parse, s, p, flags, env.open);
    CreateTruncates(parse, s, p, flags, env.open);
    TruncatesIff(flags);
    if Truncates(flags) {
      TruncatingCore(parse, s, p, flags, env.open);
    }
    if env.isReg && (env.exclude || env.nameiOk) && r.ret == 0 {
      CreatedExactly(parse, s, p, flags, h, env, r);
    } else {
      CreateNotOpened(r, p, flags, h, env);
    }
  }

  lemma CreateNotOpened(r: OpenResult, p: Path, flags: Flags, h: nat, env: CreateEnv)
    ensures var (t, ret) := CreateOpened(r, p, flags, h, env);
            r.ret == -1 ==> ret == -1 && t.handles == r.s.handles && t.remote == r.s.remote
  {
  }

  // ---- getattr ----

  /**
   dfs_getattr succeeds on the root, on a local file whose descriptor can be examined, on a remote
   one, and on a path that is looked up and found; only the last of these changes the entry, which
   keeps the metadata from then on. A failed lookup returns its own status.
   */
  ghost predicate LookedUpBy(s: State, p: Path, env: GetattrEnv, t: State, ret: int) {
    var e := EntryAt(s, p);
    && (ret == 0 <==>
          || p == "/"
          || (e.onDisk == Local && env.fstatOk)
          || e.onDisk == Remote
          || (e.onDisk == Unset && env.namei == 0 && env.headersOk))
    && (ret != 0 ==> ret == if e.onDisk == Unset && env.namei != 0 then env.namei else -1)
    && (p == "/" ==> t == s)
    && (p != "/" ==>
          && OnlyEntry(s, p, t) && t == s.(table := t.table)
          && t.table[p] == if e.onDisk == Unset && ret == 0 then e.(usermd := Some(env.dict), onDisk := Remote) else e)
  }

  /** dfs_getattr, exactly. */
  lemma GetattrExactly(parse: Parser, s: State, p: Path, env: GetattrEnv)
    requires Inv(parse, s)
    ensures var (t, ret) := Getattr(s, p, env); LookedUpBy(s, p, env, t, ret)
  {
    InvAt(parse, s, p);
  }

  // ---- release ----

  /** A release that uploads. */
  predicate Uploading(s: State, h: nat, env: ReleaseEnv)
    requires h in s.handles && s.handles[h].path in s.table
  {
    env.fstatOk && s.handles[h].flags.acc != RdOnly && !s.table[s.handles[h].path].exclude
  }

  /** What is uploaded: the stream if compressing worked, else the file; tagged accordingly and described. */
  ghost predicate UploadOf(o: Object, content: Bytes, env: ReleaseEnv) {
    var packed := Compresses(env.zlib, env.comp);
    && Some(o.data) == (if packed then env.comp.zipped else Some(content))
    && o.declared == |o.data|
    && (Tagged(o.meta) <==> packed) && (COMPRESSION in o.meta ==> packed)
    && Describes(o.meta, env.st)
  }

  /** Nothing that stands between the file and its object fails. */
  predicate GetsThrough(content: Bytes, env: ReleaseEnv) {
    && !(env.zlib && !env.comp.srcOpens) && env.openwriteOk && env.closeOk
    && var data := if Compresses(env.zlib, env.comp) then env.comp.zipped.value else content;
       CallsWork(env.send, 0, Blocks(data, 0, env.send, 0))
  }

  /**
   dfs_release: when it returns 0; the handle, the reference and the mark of the entry; the scratch
   file; the object, or what a failure left of it. The descriptors are as they were.
   */
  ghost predicate ReleasedBy(s: State, h: nat, env: ReleaseEnv, t: State, ret: int) {
    && h in s.handles && s.handles[h].path in s.table && s.handles[h].path in s.cache
    && var p := s.handles[h].path;
    var e, content, writer := s.table[p], s.cache[p], s.handles[h].flags.acc != RdOnly;
    && ret == (if !env.fstatOk || (Uploading(s, h, env) && !GetsThrough(content, env)) then -1 else 0)
    && t.handles == s.handles - {h}
    && OnlyEntry(s, p, t) && 0 < e.refcount
    && t.table[p] == e.(refcount := if env.fstatOk then e.refcount - 1 else e.refcount,
                        dirty := e.dirty && env.fstatOk && !writer)
    && t.fds == s.fds
    && t.cache == (if Uploading(s, h, env) && env.zlib then Put(s.cache, Tmp(p), env.scratch) else s.cache)
    && (if !Uploading(s, h, env) || (env.zlib && !env.comp.srcOpens) then t.remote == s.remote
        else if ret == 0 then
          p in t.remote && t.remote == s.remote[p := t.remote[p]] && UploadOf(t.remote[p], content, env)
        else t.remote == Put(s.remote, p, env.left))
  }

  /** The payload is the one that the local calls allow, with its metadata. */
  lemma PayloadExactly(parse: Parser, content: Bytes, env: ReleaseEnv)
    requires HonestZip(parse, content, env.comp) && 0 != env.comp.fileno && -1 <= env.comp.fileno
    requires env.st.size == |content|
    ensures var out := Prepare(content, 0, env.st, env.zlib, env.comp);
            && (out.None? <==> env.zlib && !env.comp.srcOpens)
            && (out.Some? ==>
                  UploadOf(Upload(out.value), content, env)
                  && (out.value.packed <==> Compresses(env.zlib, env.comp)))
  {
    TagTellsTruth(parse, content, env.st, env.zlib, env.comp);
    SizeTellsTruth(content, 0, env.st, env.zlib, env.comp);
    UploadDescribes(content, 0, env.st, env.zlib, env.comp);
  }

  lemma ArrivesIff(parse: Parser, s: State, p: Path, fd: int, env: ReleaseEnv)
    requires HonestUpload(parse, s, p, env) && env.fstatOk
    requires fd in s.fds && s.fds[fd].path == p && s.fds[fd].offset == 0 && p in s.cache
    ensures Outgoing(s, fd, env).None? <==> env.zlib && !env.comp.srcOpens
    ensures Arrives(s, fd, env) <==> GetsThrough(s.cache[p], env)
    ensures Arrives(s, fd, env) ==> UploadOf(Upload(Outgoing(s, fd, env).value), s.cache[p], env)
  {
    PayloadExactly(parse, s.cache[p], env);
    if Outgoing(s, fd, env).Some? {
      SendSucceedsIff(Outgoing(s, fd, env).value.data, 0, env.send, 0);
    }
  }

  lemma ReleaseSendingExactly(parse: Parser, s: State, h: nat, env: ReleaseEnv)
    requires Inv(parse, s) && Enabled(parse, s, OpRelease(h, env)) && s.handles[h].path in s.table
    requires s.handles[h].path in s.cache && Uploading(s, h, env)
    ensures var (t, ret) := Release(s, h, env); ReleasedBy(s, h, env, t, ret)
  {
    LiveHandleUsable(parse, s, h);
    var p, e := s.handles[h].path, s.table[s.handles[h].path];
    assert EntryInv(parse, s, p);
    ArrivesIff(parse, s, p, e.fd, env);
    var offset := SentForm(s, p, e.fd, env);
    SeekBack(s, e.fd, offset);
    var (r, ret) := Sent(s, p, e.fd, env);
    ReleaseSendingForm(s, h, env, r, ret);
  }

  lemma ReleaseIdleExactly(parse: Parser, s: State, h: nat, env: ReleaseEnv)
    requires Inv(parse, s) && Enabled(parse, s, OpRelease(h, env)) && s.handles[h].path in s.table
    requires s.handles[h].path in s.cache && !Uploading(s, h, env)
    ensures var (t, ret) := Release(s, h, env); ReleasedBy(s, h, env, t, ret)
  {
    BeforeRelease(parse, s, h);
    if env.fstatOk {
      var r, e := ReleaseIdleForm(s, h, env);
    } else {
      ReleaseFailedForm(s, h, env);
    }
  }

  /** dfs_release, exactly. */
  lemma ReleaseExactly(parse: Parser, s: State, h: nat, env: ReleaseEnv)
    requires Inv(parse, s) && Enabled(parse, s, OpRelease(h, env))
    ensures s.handles[h].path in s.table
    ensures var (t, ret) := Release(s, h, env); ReleasedBy(s, h, env, t, ret)
  {
    HandleIsLocal(parse, s, h);
    if Uploading(s, h, env) {
      ReleaseSendingExactly(parse, s, h, env);
    } else {
      ReleaseIdleExactly(parse, s, h, env);
    }
  }
}
