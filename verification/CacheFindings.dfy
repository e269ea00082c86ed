/**
 Exact conditions: when an eviction, a release, a create or an append does what a caller of the
 file system expects, and what happens when it does not.
 */
module CacheFindings {
  import opened Common
  import opened Codec
  import opened Metadata
  import opened Transfer
  import opened Cache
  import opened CacheInvariant
  import opened CacheRuns
  import opened CacheExact

  // ---- eviction ----

  /** A read-only open of a path without recorded failure shows a reader what the path contained before. */
  lemma OpenShowsContent(parse: Parser, s: State, p: Path, flags: Flags, h: nat, env: OpenEnv, size: nat, offset: nat)
    requires Inv(parse, s) && Enabled(parse, s, OpOpen(p, flags, h, env)) && p !in s.tainted
    requires GetMode(flags) == ModeRdOnly && env.dl.unzip.renameOk && Open(parse, s, p, flags, h, env).1 == 0
    ensures var u := Open(parse, s, p, flags, h, env).0;
            && h in u.handles && u.handles[h].path == p && p in u.table && View(parse, s, p).Some?
            && Read(u, h, size, offset, None).1 == Pread(View(parse, s, p).value, size, offset)
  {
    OpenKeeps(parse, s, p, flags, h, env);
    StepTaints(parse, s, OpOpen(p, flags, h, env), p);
    var u := Open(parse, s, p, flags, h, env).0;
    LiveHandleUsable(parse, u, h);
    ReadKeeps(parse, u, h, size, offset, None);
  }

  /** Evicting an idle file and opening it again for reading gives a reader the same bytes. */
  lemma EvictionIsInvisible(parse: Parser, s: State, genv: GcEnv, p: Path, flags: Flags, h: nat, oenv: OpenEnv,
                            size: nat, offset: nat)
    requires Inv(parse, s) && p in Evicted(s, genv) && p !in s.tainted
    ensures var (u, ret) := Open(parse, Gc(s, genv), p, flags, h, oenv);
            && Enabled(parse, Gc(s, genv), OpOpen(p, flags, h, oenv))
            && GetMode(flags) == ModeRdOnly && oenv.dl.unzip.renameOk && ret == 0
            ==>
              && h in u.handles && u.handles[h].path in u.table && p in s.cache
              && Read(u, h, size, offset, None).1 == Pread(s.cache[p], size, offset)
  {
    EvictedAreIdle(parse, s, genv, p);
    GcKeeps(parse, s, genv);
    if && Enabled(parse, Gc(s, genv), OpOpen(p, flags, h, oenv))
       && GetMode(flags) == ModeRdOnly && oenv.dl.unzip.renameOk
       && Open(parse, Gc(s, genv), p, flags, h, oenv).1 == 0 {
      OpenShowsContent(parse, Gc(s, genv), p, flags, h, oenv, size, offset);
    }
  }

  /** For an evicted file the content survives exactly when it agreed with the remote object. */
  lemma EvictionKeepsExactly(parse: Parser, s: State, env: GcEnv, p: Path)
    requires Inv(parse, s) && p in Evicted(s, env)
    ensures View(parse, Gc(s, env), p) == View(parse, s, p) <==> Synced(parse, s, p)
  {
    EvictedAreIdle(parse, s, env, p);
  }

  /** The source file could not be opened for compression, and nothing is sent. */
  predicate Unsendable(env: ReleaseEnv) { env.zlib && !env.comp.srcOpens }

  lemma UnsendableIff(parse: Parser, s: State, p: Path, fd: int, env: ReleaseEnv)
    requires HonestUpload(parse, s, p, env) && p in s.cache
    requires fd in s.fds && s.fds[fd].path == p && s.fds[fd].offset == 0
    ensures Outgoing(s, fd, env).None? <==> Unsendable(env)
  {
    TagTellsTruth(parse, s.cache[p], env.st, env.zlib, env.comp);
  }

  /** What a release that uploads leaves in the remote store and in the cache under its own path. */
  lemma ReleasedObject(parse: Parser, s: State, h: nat, env: ReleaseEnv)
    requires Inv(parse, s) && h in s.handles && s.handles[h].path in s.table
    requires env.fstatOk && Writes(s.handles[h].flags) && !s.table[s.handles[h].path].exclude
    requires HonestRelease(parse, s, s.handles[h].path, env)
    ensures var p := s.handles[h].path;
            var fd, t := s.table[p].fd, Release(s, h, env).0;
            && p in s.cache && CacheOf(t, p) == CacheOf(s, p)
            && t.remote == (if Arrives(s, fd, env) then s.remote[p := Upload(Outgoing(s, fd, env).value)]
                            else if Unsendable(env) then s.remote
                            else Put(s.remote, p, env.left))
  {
    LiveHandleUsable(parse, s, h);
    var p, e := s.handles[h].path, s.table[s.handles[h].path];
    assert EntryInv(parse, s, p);
    UnsendableIff(parse, s, p, e.fd, env);
    var offset := SentForm(s, p, e.fd, env);
    var (r, ret) := Sent(s, p, e.fd, env);
    ReleaseSendingForm(s, h, env, r, ret);
  }

  /**
   When a file survives: its last handle is released with an upload, and a later pass evicts it.
   The content is still there exactly when the upload got through or what it left happens to
   decode to the file; if nothing could be sent at all, when the object was up to date before.
   */
  lemma ReleasedContentKeptIff(parse: Parser, s: State, h: nat, renv: ReleaseEnv, genv: GcEnv)
    requires Inv(parse, s) && h in s.handles && s.handles[h].path in s.table
    requires renv.fstatOk && Writes(s.handles[h].flags) && !s.table[s.handles[h].path].exclude
    requires HonestRelease(parse, s, s.handles[h].path, renv)
    requires s.handles[h].path in Evicted(Release(s, h, renv).0, genv)
    ensures var p := s.handles[h].path;
            View(parse, Gc(Release(s, h, renv).0, genv), p) == View(parse, s, p) <==>
            if Unsendable(renv) then Synced(parse, s, p)
            else
              || Arrives(s, s.table[p].fd, renv)
              || (renv.left.Some? && Decode(parse, renv.left.value) == View(parse, s, p))
  {
    var p := s.handles[h].path;
    var t := Release(s, h, renv).0;
    LiveHandleUsable(parse, s, h);
    ReleaseSendingKeeps(parse, s, h, renv);
    ReleasedObject(parse, s, h, renv);
    EvictionKeepsExactly(parse, t, genv, p);
  }

  /** The end of a release: the entry, the descriptor, the handles, the remote store, the cache file. */
  lemma ConcludeFacts(s: State, p: Path, h: nat, e: Entry, env: ReleaseEnv, scratch: bool)
    requires e.fd in s.fds
    ensures var t := Conclude(s, p, h, e, env, scratch);
            && p in t.table && t.table[p] == e.(dirty := false, held := false)
            && t.handles == s.handles - {h} && t.remote == s.remote && CacheOf(t, p) == CacheOf(s, p)
            && e.fd in t.fds && t.fds[e.fd] == s.fds[e.fd].(offset := if env.lseekOk then 0 else s.fds[e.fd].offset)
  {
  }

  /** A release that uploads is the upload, from `r`, and then the end of a release on the entry `e`. */
  lemma ReleaseSends(parse: Parser, s: State, h: nat, env: ReleaseEnv) returns (r: State, e: Entry, offset: nat)
    requires Inv(parse, s) && h in s.handles && s.handles[h].path in s.table
    requires env.fstatOk && Writes(s.handles[h].flags) && !s.table[s.handles[h].path].exclude
    ensures var p := s.handles[h].path;
            var e0 := s.table[p];
            && Release(s, h, env) == (Conclude(r, p, h, e, env, env.zlib), Sent(s, p, e0.fd, env).1)
            && r == Sent(s, p, e0.fd, env).0
            && 0 < e0.refcount && e == e0.(refcount := e0.refcount - 1)
            && r == Taint(Seek(s, e0.fd, offset), p, Sent(s, p, e0.fd, env).1 != 0).(remote := r.remote)
            && 0 <= e.fd && e.fd in s.fds && s.fds[e.fd] == Desc(p, 0, s.fds[e.fd].writable)
            && p in s.cache && e0.refcount == Live(s.handles, p) + Leaks(s, p) && !e.held
            && (offset == 0 <==> !Drains(s, e0.fd, env))
  {
    LiveHandleUsable(parse, s, h);
    var p, e0 := s.handles[h].path, s.table[s.handles[h].path];
    assert EntryInv(parse, s, p);
    e := e0.(refcount := e0.refcount - 1);
    offset := SentForm(s, p, e0.fd, env);
    r := Sent(s, p, e0.fd, env).0;
  }

  /** After the last handle is released, and no reference was lost, an old file is evicted. */
  lemma LastReleaseEvicts(parse: Parser, s: State, h: nat, renv: ReleaseEnv, genv: GcEnv)
    requires Inv(parse, s) && h in s.handles && s.handles[h].path in s.table
    requires renv.fstatOk && Writes(s.handles[h].flags) && !s.table[s.handles[h].path].exclude
    requires var p := s.handles[h].path;
             && HandlesOf(s.handles, p) == {h} && Leaks(s, p) == 0
             && genv.probe(p).fstatOk && !Fresh(genv.probe(p), genv.threshold)
    ensures s.handles[h].path in Evicted(Release(s, h, renv).0, genv)
  {
    var p := s.handles[h].path;
    var r, e, offset := ReleaseSends(parse, s, h, renv);
    ConcludeFacts(r, p, h, e, renv, renv.zlib);
    assert e.refcount == 0;
  }

  /**
   An instance: the upload fails and leaves no object. The reference is given back all the same,
   and the next pass over a file that is too old drops the only copy.
   */
  lemma FailedUploadIsLost(parse: Parser, s: State, h: nat, renv: ReleaseEnv, genv: GcEnv)
    requires Inv(parse, s) && h in s.handles && s.handles[h].path in s.table
    requires renv.fstatOk && Writes(s.handles[h].flags) && !s.table[s.handles[h].path].exclude
    requires HonestRelease(parse, s, s.handles[h].path, renv)
    requires var p := s.handles[h].path;
             && HandlesOf(s.handles, p) == {h} && Leaks(s, p) == 0
             && genv.probe(p).fstatOk && !Fresh(genv.probe(p), genv.threshold)
    requires !Unsendable(renv) && !renv.openwriteOk && renv.left.None?
    ensures var p := s.handles[h].path;
            var t := Release(s, h, renv).0;
            && View(parse, s, p).Some? && View(parse, t, p) == View(parse, s, p)
            && p in Evicted(t, genv) && View(parse, Gc(t, genv), p) != View(parse, s, p)
  {
    LiveHandleUsable(parse, s, h);
    ReleaseKeeps(parse, s, h, renv);
    LastReleaseEvicts(parse, s, h, renv, genv);
    ReleasedContentKeptIff(parse, s, h, renv, genv);
  }

  // ---- the offset of a descriptor ----

  /** A release that reads the cache file through the descriptor of its entry. */
  predicate ReadsDescriptor(s: State, h: nat, env: ReleaseEnv)
    requires h in s.handles && s.handles[h].path in s.table
  {
    var e := s.table[s.handles[h].path];
    env.fstatOk && s.handles[h].flags.acc != RdOnly && !e.exclude && Drains(s, e.fd, env)
  }

  /** After a release the descriptor is rewound exactly when lseek worked or nothing was read from it. */
  lemma RewoundIff(parse: Parser, s: State, h: nat, env: ReleaseEnv)
    requires Inv(parse, s) && h in s.handles && s.handles[h].path in s.table
    ensures var t, fd := Release(s, h, env).0, s.table[s.handles[h].path].fd;
            fd in t.fds && (t.fds[fd].offset == 0 <==> env.lseekOk || !ReadsDescriptor(s, h, env))
  {
    LiveHandleUsable(parse, s, h);
    var p, e := s.handles[h].path, s.table[s.handles[h].path];
    if !env.fstatOk {
      ConcludeFacts(Leak(if s.handles[h].flags.acc == RdOnly then s else Taint(s, p, true), p), p, h, e, env, false);
    } else if Writes(s.handles[h].flags) && !e.exclude {
      var r, e', offset := ReleaseSends(parse, s, h, env);
      ConcludeFacts(r, p, h, e', env, env.zlib);
    }
  }

  /** An uncompressed upload from an offset inside the file succeeds, and stores what is left of it. */
  lemma SentFromOffset(s: State, p: Path, fd: int, env: ReleaseEnv)
    requires fd in s.fds && s.fds[fd].path == p && p in s.cache && 0 < s.fds[fd].offset <= |s.cache[p]| < TWO63
    requires !env.zlib && env.openwriteOk && env.closeOk && NeverFails(env.send) && env.st.size == |s.cache[p]|
    ensures var (t, ret) := Sent(s, p, fd, env);
            && ret == 0 && p in t.remote && COMPRESSION !in t.remote[p].meta
            && t.remote[p].data == s.cache[p][s.fds[fd].offset..] && t.remote[p].declared == |s.cache[p]|
  {
    SendBlocksWhole(s.cache[p], s.fds[fd].offset, env.send, 0);
    SizeTellsTruth(s.cache[p], s.fds[fd].offset, env.st, false, env.comp);
    FreshDictUntagged(env.st);
  }

  lemma TwoHandles(handles: map<nat, Handle>, h: nat, h': nat, p: Path)
    requires h in handles && h' in handles && h != h' && handles[h].path == handles[h'].path == p
    ensures 2 <= Live(handles, p)
  {
    assert h' in HandlesOf(handles - {h}, p);
    LiveRemoved(handles, h, p);
  }

  lemma DrainedOffset(s: State, p: Path, fd: int, env: ReleaseEnv, k: nat)
    requires Drains(s, fd, env) && s.fds[fd].offset == 0
    ensures var t := Sent(s, p, fd, env).0;
            fd in t.fds && t.fds[fd].offset == k ==> k <= |Behind(s, fd).value|
  {
    SendBlocksWhole(Behind(s, fd).value, 0, env.send, 0);
  }

  /** The state in which the second release starts. */
  lemma AfterLostRewind(parse: Parser, s: State, h: nat, env: ReleaseEnv, h': nat) returns (t: State, k: nat)
    requires Inv(parse, s) && h in s.handles && h' in s.handles && h != h'
    requires s.handles[h'].path == s.handles[h].path && s.handles[h].path in s.table
    requires Writes(s.handles[h].flags) && !env.lseekOk
    ensures t == Release(s, h, env).0
    ensures var p, e := s.handles[h].path, s.table[s.handles[h].path];
            ReadsDescriptor(s, h, env) ==>
            && h' in t.handles && t.handles[h'] == s.handles[h'] && p in t.table
            && 0 <= e.fd && 0 < t.table[p].refcount
            && t.table[p] == e.(refcount := e.refcount - 1, dirty := false, held := false)
            && p in s.cache && CacheOf(t, p) == CacheOf(s, p)
            && e.fd in t.fds && t.fds[e.fd] == Desc(p, k, t.fds[e.fd].writable)
            && 0 < k <= |s.cache[p]|
  {
    t, k := Release(s, h, env).0, 0;
    if ReadsDescriptor(s, h, env) {
      var p := s.handles[h].path;
      var r, e;
      r, e, k := ReleaseSends(parse, s, h, env);
      ConcludeFacts(r, p, h, e, env, env.zlib);
      DrainedOffset(s, p, e.fd, env, k);
      TwoHandles(s.handles, h, h', p);
      assert k != 0;
    }
  }

  /** A release that sends an uncompressed file from an offset inside it reports success. */
  lemma ReleaseFromOffset(s: State, h: nat, env: ReleaseEnv)
    requires h in s.handles && s.handles[h].path in s.table && Writes(s.handles[h].flags)
    requires var p, e := s.handles[h].path, s.table[s.handles[h].path];
             && 0 <= e.fd && 0 < e.refcount && !e.exclude
             && e.fd in s.fds && s.fds[e.fd].path == p && p in s.cache
             && 0 < s.fds[e.fd].offset <= |s.cache[p]| == env.st.size
    requires env.fstatOk && !env.zlib && env.openwriteOk && env.closeOk && NeverFails(env.send)
    ensures var p := s.handles[h].path;
            var (u, ret) := Release(s, h, env);
            && ret == 0 && p in u.remote
            && u.remote[p].declared == |s.cache[p]| && |u.remote[p].data| < |s.cache[p]|
            && COMPRESSION !in u.remote[p].meta
  {
    var p, e := s.handles[h].path, s.table[s.handles[h].path];
    SentFromOffset(s, p, e.fd, env);
    var r := Sent(s, p, e.fd, env).0;
    assert Conclude(r, p, h, e.(refcount := e.refcount - 1), env, false).remote == r.remote;
  }

  /**
   Why the rewind matters. Two handles are released one after the other; the first upload reads
   the descriptor and lseek fails. The second upload then reports success, announces the whole
   file, and stores only the part behind the offset, so that the content is no longer there.
   */
  lemma LostRewindTruncates(parse: Parser, s: State, h: nat, env: ReleaseEnv, h': nat, env': ReleaseEnv)
    requires Inv(parse, s) && h in s.handles && h' in s.handles && h != h'
    requires s.handles[h'].path == s.handles[h].path && s.handles[h].path in s.table
    requires Writes(s.handles[h].flags) && Writes(s.handles[h'].flags)
    requires !env.lseekOk
    requires env'.fstatOk && !env'.zlib && env'.openwriteOk && env'.closeOk && NeverFails(env'.send)
    ensures var p := s.handles[h].path;
            var t := Release(s, h, env).0;
            ReadsDescriptor(s, h, env) && HonestUpload(parse, s, p, env') ==>
            && h' in t.handles && t.handles[h'].path in t.table
            && var (u, ret) := Release(t, h', env');
               && ret == 0 && p in s.cache && p in u.remote
               && u.remote[p].declared == |s.cache[p]| && |u.remote[p].data| < |s.cache[p]|
               && Decode(parse, u.remote[p]) == Some(u.remote[p].data)
  {
    var p, e := s.handles[h].path, s.table[s.handles[h].path];
    var t, k := AfterLostRewind(parse, s, h, env, h');
    if ReadsDescriptor(s, h, env) && HonestUpload(parse, s, p, env') {
      ReleaseFromOffset(t, h', env');
    }
  }

  // ---- create ----

  /**
   When a create succeeds: the path is a regular file, the lookup works unless the path is
   excluded, the local calls and dpl_mknod work, and the flags make the open behind it truncate.
   A file can therefore never be created for appending.
   */
  lemma CreateSucceedsIff(parse: Parser, s: State, p: Path, flags: Flags, h: nat, env: CreateEnv)
    requires Inv(parse, s) && Enabled(parse, s, OpCreate(p, flags, h, env))
    ensures Create(parse, s, p, flags, h, env).1 == 0 <==>
            && env.isReg && (env.exclude || env.nameiOk) && Truncates(flags)
            && env.open.localOpens && env.fchmod.None? && env.fstat.None? && (env.exclude || env.mknodOk)
    ensures flags.append ==> Create(parse, s, p, flags, h, env).1 == -1
  {
    InvAt(parse, s, p);
    OpenCoreKeeps(parse, s, p, flags, env.open);
    CreateTruncates(parse, s, p, flags, env.open);
    TruncatesIff(flags);
  }

  /** The metadata of a created file reads back as its stat record with the requested mode. */
  lemma CreatedMetaReadsBack(e: Entry, env: CreateEnv, target: Stat)
    requires e.usermd.None?
    ensures StatFromMetadata(target, CreateMeta(e, env)) ==
            Stat(env.mode, Kept(env.st.size, target.size), env.st.uid, env.st.gid,
                 Kept(env.st.atime, target.atime), Kept(env.st.mtime, target.mtime), Kept(env.st.ctime, target.ctime))
  {
    MetaWithMode(env.st, env.mode);
    StatRoundTrip(map[], env.st.(mode := env.mode), target);
  }

  /**
   A positional write, byte by byte: the written range, the old bytes, zeros in a gap. Writing
   nothing changes nothing.
   */
  lemma PwriteBytes(content: Bytes, buf: Bytes, offset: nat)
    ensures buf == [] ==> Pwrite(content, buf, offset) == content
    ensures buf != [] ==>
            var r := Pwrite(content, buf, offset);
            && |r| == (if |content| < offset + |buf| then offset + |buf| else |content|)
            && (forall i :: 0 <= i < |r| ==>
                  r[i] == if offset <= i < offset + |buf| then buf[i - offset]
                          else if i < |content| then content[i] else 0)
    ensures Pread(Pwrite(content, buf, offset), |buf|, offset) == buf
  {
  }

  // ---- open for writing ----

  /** A successful open leaves a file that was not empty empty exactly when its flags truncate. */
  lemma OpenTruncatesIff(parse: Parser, s: State, p: Path, flags: Flags, h: nat, env: OpenEnv)
    requires Inv(parse, s) && Enabled(parse, s, OpOpen(p, flags, h, env))
    ensures var (t, ret) := Open(parse, s, p, flags, h, env);
            ret == 0 && View(parse, s, p) != Some([]) && (p !in t.tainted || Truncates(flags)) ==>
              (View(parse, t, p) == Some([]) <==> Truncates(flags))
    ensures Truncates(flags) <==> !flags.append && (flags.creat || flags.acc in {WrOnly, RdWr})
  {
    TruncatesIff(flags);
    OpenKeeps(parse, s, p, flags, h, env);
  }

  /**
   An append open of a local file succeeds on the descriptor that is already there, and a write
   through the new handle succeeds exactly when that descriptor was opened for writing.
   */
  lemma AppendWritesIff(parse: Parser, s: State, p: Path, flags: Flags, h: nat, env: OpenEnv,
                        buf: Bytes, offset: nat, fault: Option<Failure>, n: nat)
    requires Inv(parse, s) && p in s.table && s.table[p].onDisk == Local && flags.append
    ensures var (t, ret) := Open(parse, s, p, flags, h, env);
            && ret == 0 && h in t.handles && t.handles[h].path == p && p in t.table
            && (0 <= Write(t, h, buf, offset, fault, n).1 <==> fault.None? && s.fds[s.table[p].fd].writable)
  {
    assert EntryInv(parse, s, p);
  }

  /** A download for reading makes a descriptor that refuses writes. */
  lemma ReadOnlyDescriptor(parse: Parser, s: State, p: Path, flags: Flags, h: nat, env: OpenEnv)
    requires Inv(parse, s) && Enabled(parse, s, OpOpen(p, flags, h, env)) && EntryAt(s, p).onDisk != Local
    requires GetMode(flags) == ModeRdOnly && Open(parse, s, p, flags, h, env).1 == 0
    ensures var t := Open(parse, s, p, flags, h, env).0;
            && p in t.table && t.table[p].onDisk == Local
            && t.table[p].fd in t.fds && !t.fds[t.table[p].fd].writable
  {
    InvAt(parse, s, p);
    DownloadForm(parse, s, Referenced(EntryAt(s, p)), p, flags, env);
    FetchKeeps(parse, s, p, false, env);
  }

  /**
   So an append open fails its purpose whenever the file was first opened for reading: from any
   state in which the file is not local, both opens succeed and every write is refused.
   */
  lemma AppendAfterReadFails(parse: Parser, s: State, p: Path, flags: Flags, h: nat, env: OpenEnv,
                             flags': Flags, h': nat, env': OpenEnv, buf: Bytes, offset: nat, n: nat)
    requires Inv(parse, s) && Enabled(parse, s, OpOpen(p, flags, h, env)) && EntryAt(s, p).onDisk != Local
    requires GetMode(flags) == ModeRdOnly && Open(parse, s, p, flags, h, env).1 == 0 && flags'.append
    ensures var t := Open(parse, s, p, flags, h, env).0;
            var (u, ret) := Open(parse, t, p, flags', h', env');
            && ret == 0 && h' in u.handles && u.handles[h'].path == p && p in u.table
            && Write(u, h', buf, offset, None, n).1 < 0
  {
    OpenKeeps(parse, s, p, flags, h, env);
    ReadOnlyDescriptor(parse, s, p, flags, h, env);
    AppendWritesIff(parse, Open(parse, s, p, flags, h, env).0, p, flags', h', env', buf, offset, None, n);
  }

  // ---- the scratch name ----

  /**
   Why no cached path may be another one with ".tmp" added. A compressed upload of `p` removes the
   cache file of the longer path; the entry of that path stays sound exactly when it was not local.
   */
  lemma ScratchNameBreaks(parse: Parser, s: State, h: nat, env: ReleaseEnv)
    requires h in s.handles && s.handles[h].path in s.table && EntryInv(parse, s, s.handles[h].path)
    requires var p := s.handles[h].path;
             && Tmp(p) in s.table && EntryInv(parse, s, Tmp(p))
             && 0 <= s.table[p].fd && 0 < s.table[p].refcount && !s.table[p].exclude
    requires Writes(s.handles[h].flags) && env.fstatOk && env.zlib && env.lseekOk && env.scratch.None?
    ensures var q, t := Tmp(s.handles[h].path), Release(s, h, env).0;
            q in t.table && (EntryInv(parse, t, q) <==> s.table[q].onDisk != Local)
  {
    var p := s.handles[h].path;
    var e, q := s.table[p], Tmp(p);
    var offset := SentForm(s, p, e.fd, env);
    var (r, ret) := Sent(s, p, e.fd, env);
    ReleaseSendingForm(s, h, env, r, ret);
    var t := Release(s, h, env).0;
    assert q !in t.cache && t.table[q] == s.table[q];
    assert HandlesOf(t.handles, q) == HandlesOf(s.handles, q);
  }
}
