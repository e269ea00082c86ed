/**
 What every callback keeps: entry states, descriptors, reference counts, the metadata mutex and
 the agreement between cache files and remote objects.
 */
module CacheInvariant {
  import opened Common
  import opened Codec
  import opened Metadata
  import opened Transfer
  import opened Cache

  // ---- the invariant ----

  function HandlesOf(handles: map<nat, Handle>, p: Path): set<nat> {
    set h | h in handles && handles[h].path == p
  }

  function Live(handles: map<nat, Handle>, p: Path): nat { |HandlesOf(handles, p)| }

  /** Release uploads through such a handle, and the kernel lets writes through no other. */
  ghost predicate Writes(f: Flags) { f.acc != RdOnly }

  ghost predicate HasWriter(handles: map<nat, Handle>, p: Path) {
    exists h :: h in handles && handles[h].path == p && Writes(handles[h].flags)
  }

  /** The remote object decodes to exactly the bytes of the cache file. */
  ghost predicate Synced(parse: Parser, s: State, p: Path) {
    p in s.cache && p in s.remote && Decode(parse, s.remote[p]) == Some(s.cache[p])
  }

  ghost predicate EntryInv(parse: Parser, s: State, p: Path)
    requires p in s.table
  {
    var e := s.table[p];
    && -1 <= e.fd
    && (e.onDisk == Local <==> 0 <= e.fd)
    && (0 <= e.fd ==> e.fd in s.fds && s.fds[e.fd].path == p && s.fds[e.fd].offset == 0 && p in s.cache)
    && (e.onDisk == Remote ==> e.usermd.Some?)
    && !e.mdHeld && !e.held
    && e.refcount == Live(s.handles, p) + Leaks(s, p)
    && (e.onDisk == Local && !HasWriter(s.handles, p) && p !in s.tainted ==> Synced(parse, s, p))
  }

  /** No path is the scratch name of another. */
  ghost predicate ScratchFree(ps: set<Path>) {
    forall p, q :: p in ps && q in ps ==> q != Tmp(p)
  }

  ghost predicate Inv(parse: Parser, s: State) {
    && (forall p :: p in s.table ==> EntryInv(parse, s, p))
    && (forall h :: h in s.handles ==>
          s.handles[h].path in s.table && s.table[s.handles[h].path].onDisk == Local)
    && (forall p :: p !in s.table ==> Leaks(s, p) == 0)
    && ScratchFree(s.table.Keys)
  }

  /** The content a reader of `p` is entitled to: the cache file, or else the remote object. */
  function View(parse: Parser, s: State, p: Path): Option<Bytes> {
    if p in s.table && s.table[p].onDisk == Local && p in s.cache then Some(s.cache[p])
    else if p in s.remote then Decode(parse, s.remote[p])
    else None
  }

  /** A freshly mounted file system over a given remote store. */
  function Mounted(remote: map<Path, Object>): State {
    State(map[], map[], map[], remote, map[], map[], {})
  }

  lemma MountedInv(parse: Parser, remote: map<Path, Object>)
    ensures Inv(parse, Mounted(remote))
  {
  }

  // ---- counting handles ----

  lemma LiveAdded(handles: map<nat, Handle>, h: nat, x: Handle, p: Path)
    requires h !in handles
    ensures Live(handles[h := x], p) == Live(handles, p) + if x.path == p then 1 else 0
  {
    if x.path == p {
      assert HandlesOf(handles[h := x], p) == HandlesOf(handles, p) + {h};
    } else {
      assert HandlesOf(handles[h := x], p) == HandlesOf(handles, p);
    }
  }

  lemma LiveRemoved(handles: map<nat, Handle>, h: nat, p: Path)
    requires h in handles
    ensures Live(handles - {h}, p) == Live(handles, p) - if handles[h].path == p then 1 else 0
    ensures handles[h].path == p ==> 0 < Live(handles, p)
  {
    if handles[h].path == p {
      assert HandlesOf(handles, p) == HandlesOf(handles - {h}, p) + {h};
    } else {
      assert HandlesOf(handles, p) == HandlesOf(handles - {h}, p);
    }
  }

  // ---- a callback about one path leaves the others alone ----

  /** Outside the table, everything that changes from `s` to `t` belongs to `p` or its scratch file. */
  ghost predicate Around(s: State, t: State, p: Path) {
    && (forall q :: q != p && q != Tmp(p) ==> CacheOf(t, q) == CacheOf(s, q))
    && (forall q :: q != p ==> ((q in t.remote) == (q in s.remote)) && (q in s.remote ==> t.remote[q] == s.remote[q]))
    && (forall q :: q != p ==> Leaks(t, q) == Leaks(s, q))
    && (forall q :: q != p ==> ((q in t.tainted) == (q in s.tainted)))
    && (forall h :: h in s.handles && s.handles[h].path != p ==> h in t.handles && t.handles[h] == s.handles[h])
    && (forall h :: h in t.handles && t.handles[h].path != p ==> h in s.handles && t.handles[h] == s.handles[h])
    && (forall fd :: fd in s.fds && s.fds[fd].path != p ==> fd in t.fds && t.fds[fd] == s.fds[fd])
  }

  lemma OthersKeep(parse: Parser, s: State, t: State, p: Path, q: Path)
    requires Inv(parse, s) && Around(s, t, p)
    requires t.table == s.table[p := EntryAt(t, p)] && ScratchFree(t.table.Keys)
    requires q != p
    ensures q in s.table ==> EntryInv(parse, t, q)
    ensures View(parse, t, q) == View(parse, s, q)
  {
    assert p in t.table;
    if q in s.table {
      assert q in t.table && q != Tmp(p);
      assert CacheOf(t, q) == CacheOf(s, q);
      assert HandlesOf(t.handles, q) == HandlesOf(s.handles, q);
      assert EntryInv(parse, s, q);
      assert HasWriter(t.handles, q) <==> HasWriter(s.handles, q);
    }
  }

  /** So the invariant has to be checked for `p` alone, and nobody else's content moves. */
  lemma KeepsInv(parse: Parser, s: State, t: State, p: Path)
    requires Inv(parse, s) && Around(s, t, p)
    requires t.table == s.table[p := EntryAt(t, p)] && ScratchFree(s.table.Keys + {p})
    requires p in t.table && EntryInv(parse, t, p)
    requires HandlesOf(t.handles, p) != {} ==> t.table[p].onDisk == Local
    ensures Inv(parse, t)
    ensures forall q :: q != p ==> View(parse, t, q) == View(parse, s, q)
  {
    assert t.table.Keys == s.table.Keys + {p};
    forall q | q != p
      ensures q in t.table ==> EntryInv(parse, t, q)
      ensures View(parse, t, q) == View(parse, s, q)
    {
      OthersKeep(parse, s, t, p, q);
    }
    forall h | h in t.handles
      ensures t.handles[h].path in t.table && t.table[t.handles[h].path].onDisk == Local
    {
      if t.handles[h].path == p {
        assert h in HandlesOf(t.handles, p);
      }
    }
  }

  /** The same for a path that the table knows already. */
  lemma KeepsInvAt(parse: Parser, s: State, t: State, p: Path)
    requires Inv(parse, s) && Around(s, t, p) && p in s.table && p in t.table
    requires t.table == s.table[p := t.table[p]] && EntryInv(parse, t, p) && t.table[p].onDisk == Local
    ensures Inv(parse, t)
    ensures forall q :: q != p ==> View(parse, t, q) == View(parse, s, q)
  {
    assert s.table.Keys + {p} == s.table.Keys;
    KeepsInv(parse, s, t, p);
  }

  lemma HandleIsLocal(parse: Parser, s: State, h: nat)
    requires Inv(parse, s) && h in s.handles
    ensures var p := s.handles[h].path; p in s.table && s.table[p].onDisk == Local && p in s.cache
  {
    assert EntryInv(parse, s, s.handles[h].path);
  }

  /** What the invariant says about one path, known to the table or not. */
  ghost predicate PathInv(parse: Parser, s: State, p: Path) {
    if p in s.table then EntryInv(parse, s, p) && (HandlesOf(s.handles, p) != {} ==> s.table[p].onDisk == Local)
    else Leaks(s, p) == 0 && HandlesOf(s.handles, p) == {}
  }

  lemma InvAt(parse: Parser, s: State, p: Path)
    requires Inv(parse, s)
    ensures PathInv(parse, s, p)
  {
  }

  // ---- open ----

  /** The kernel hands out a descriptor that is not in use. */
  ghost predicate FreshFd(s: State, fd: int) { 0 <= fd && fd !in s.fds }

  /** An entry `e` for `p`, not stored yet, with `owed` references that are not accounted for. */
  ghost predicate Owing(s: State, e: Entry, p: Path, owed: nat) {
    && -1 <= e.fd
    && (e.onDisk == Local <==> 0 <= e.fd)
    && (0 <= e.fd ==> e.fd in s.fds && s.fds[e.fd].path == p && s.fds[e.fd].offset == 0 && p in s.cache)
    && (e.onDisk == Remote ==> e.usermd.Some?)
    && !e.mdHeld && !e.held
    && e.refcount == Live(s.handles, p) + Leaks(s, p) + owed
  }

  /** Only the cache file of `p`, its scratch file and one new descriptor are touched. */
  ghost predicate CacheOnly(s: State, t: State, p: Path, writable: bool, fd: int, ret: int) {
    && t == s.(cache := t.cache, fds := t.fds)
    && (forall q :: q != p && q != Tmp(p) ==> CacheOf(t, q) == CacheOf(s, q))
    && (ret == -1 || ret == fd)
    && (ret == -1 ==> t.fds == s.fds)
    && (ret == fd && fd != -1 ==> t.fds == s.fds[fd := Desc(p, 0, writable)] && p in t.cache)
  }

  lemma InstallKeeps(s: State, p: Path, u: Unpacked, writable: bool, env: OpenEnv)
    requires FreshFd(s, env.fd)
    ensures var (t, ret) := Install(s, p, u, writable, env);
            && CacheOnly(s, t, p, writable, env.fd, ret)
            && (ret == env.fd ==> t.cache[p] == u.file && u.ret != -1)
  {
  }

  /** Fetch, once the old file is out of the way and the object has been read. */
  lemma FetchForm(parse: Parser, s: State, p: Path, writable: bool, env: OpenEnv)
    ensures var s1 := if p in s.cache && env.dl.unlinkOk then s.(cache := s.cache - {p}) else s;
            var (t, ret) := Fetch(parse, s, p, writable, env);
            if env.dl.localOpens && env.dl.fchmodOk && env.dl.readOk && p in s.remote then
              (t, ret) == Install(s1, p, HandleCompression(parse, s.remote[p], CacheOf(s1, Tmp(p)), env.dl.unzip),
                                  writable, env)
            else
              && ret == -1 && t == s.(cache := t.cache)
              && (forall q :: q != p ==> CacheOf(t, q) == CacheOf(s, q))
  {
  }

  lemma FetchKeeps(parse: Parser, s: State, p: Path, writable: bool, env: OpenEnv)
    requires FreshFd(s, env.fd)
    ensures var (t, ret) := Fetch(parse, s, p, writable, env);
            && CacheOnly(s, t, p, writable, env.fd, ret)
            && (ret == env.fd ==> p in s.remote)
            && (ret == env.fd && !StaysPacked(s, p, env) ==> Decode(parse, s.remote[p]) == Some(t.cache[p]))
  {
    FetchForm(parse, s, p, writable, env);
    if env.dl.localOpens && env.dl.fchmodOk && env.dl.readOk && p in s.remote {
      var s1 := if p in s.cache && env.dl.unlinkOk then s.(cache := s.cache - {p}) else s;
      var u := HandleCompression(parse, s.remote[p], CacheOf(s1, Tmp(p)), env.dl.unzip);
      InstallKeeps(s1, p, u, writable, env);
      DecodedExactlyWhen(parse, s.remote[p], CacheOf(s1, Tmp(p)), env.dl.unzip);
    }
  }

  /** The digest shortcut needs a local copy, and LocalCopy is called only when there is none. */
  lemma DigestShortcutNeverTaken(parse: Parser, s: State, p: Path, writable: bool, env: OpenEnv)
    requires Inv(parse, s) && p in s.table && s.table[p].fd < 0
    ensures !CompareDigests(s.table[p].(usermd := Some(env.dl.meta)), env.dl.etag).0
    ensures var r := LocalCopy(parse, s, s.table[p], p, writable, env);
            if env.dl.headersOk && env.dl.extractOk then (r.s, r.ret) == Fetch(parse, s, p, writable, env)
            else r == OpenResult(s, s.table[p], -1)
  {
    assert EntryInv(parse, s, p);
  }

  /** What dfs_open leaves behind before the entry and the handle are stored. */
  ghost predicate Opened(parse: Parser, s: State, p: Path, flags: Flags, r: OpenResult) {
    && r.s == s.(cache := r.s.cache, fds := r.s.fds, tainted := r.s.tainted)
    && Around(s, r.s, p)
    && Owing(r.s, r.e, p, 1)
    && (r.ret == 0 || r.ret == -1)
    && (r.ret == -1 ==>
          && r.s.tainted == s.tainted
          && r.e == EntryAt(s, p).(refcount := r.e.refcount, usermd := r.e.usermd)
          && (r.e.onDisk == Local ==> r.s == s))
    && (r.ret == 0 ==>
          && r.e.onDisk == Local
          && (if GetMode(flags) == ModeCreat then
                r.s.cache[p] == [] && r.s.tainted == if flags.acc == RdOnly then s.tainted + {p} else s.tainted
              else if EntryAt(s, p).onDisk == Local then r.s == s
              else p in r.s.tainted || Synced(parse, r.s, p)))
  }

  /** Nothing but the reference was taken. */
  lemma RefusedKeeps(parse: Parser, s: State, p: Path, flags: Flags)
    requires PathInv(parse, s, p)
    ensures Opened(parse, s, p, flags, OpenResult(s, Referenced(EntryAt(s, p)), -1))
  {
  }

  /** A new empty file behind a new descriptor. */
  lemma MadeKeeps(parse: Parser, s: State, p: Path, flags: Flags, fd: int)
    requires PathInv(parse, s, p) && FreshFd(s, fd) && GetMode(flags) == ModeCreat
    ensures var t := s.(cache := s.cache[p := []], fds := s.fds[fd := Desc(p, 0, true)]);
            Opened(parse, s, p, flags,
                   OpenResult(if flags.acc == RdOnly then Taint(t, p, true) else t,
                              Referenced(EntryAt(s, p)).(fd := fd, dirty := true, onDisk := Local), 0))
  {
  }

  lemma OpenCreatKeeps(parse: Parser, s: State, p: Path, flags: Flags, env: OpenEnv)
    requires PathInv(parse, s, p) && FreshFd(s, env.fd)
    requires GetMode(flags) == ModeCreat
    ensures Opened(parse, s, p, flags, OpenCore(parse, s, p, flags, env))
  {
    if env.localOpens {
      MadeKeeps(parse, s, p, flags, env.fd);
    } else {
      RefusedKeeps(parse, s, p, flags);
    }
  }

  /** dfs_open around a download that left `t` and returned the descriptor `fd`. */
  function AfterDownload(t: State, e: Entry, p: Path, fd: int, writable: bool, packed: bool): OpenResult {
    if fd == -1 then OpenResult(t, e.(fd := fd), -1)
    else OpenResult(Taint(t, p, packed), e.(fd := fd, onDisk := Local, dirty := e.dirty || writable), 0)
  }

  lemma DownloadForm(parse: Parser, s: State, e: Entry, p: Path, flags: Flags, env: OpenEnv)
    requires FreshFd(s, env.fd) && e.fd < 0 && e.onDisk != Local && !e.mdHeld
    requires GetMode(flags) != ModeCreat
    ensures var writable := GetMode(flags) != ModeRdOnly;
            var (t, fd) := Fetch(parse, s, p, writable, env);
            OpenMode(parse, s, e, p, flags, env) ==
            if env.dl.headersOk && env.dl.extractOk then
              AfterDownload(t, e.(usermd := Some(env.dl.meta)), p, fd, writable, StaysPacked(s, p, env))
            else OpenResult(s, e.(fd := -1), -1)
  {
    FetchKeeps(parse, s, p, GetMode(flags) != ModeRdOnly, env);
  }

  /** The two ends of a download: the files `t` and the new entry, or the files alone. */
  lemma DownloadSucceeds(parse: Parser, s: State, t: State, e: Entry, p: Path, flags: Flags, fd: int, packed: bool)
    requires PathInv(parse, s, p) && FreshFd(s, fd) && EntryAt(s, p).fd < 0
    requires GetMode(flags) != ModeCreat
    requires e == Referenced(EntryAt(s, p)).(usermd := e.usermd) && e.usermd.Some?
    requires CacheOnly(s, t, p, GetMode(flags) != ModeRdOnly, fd, fd)
    requires !packed ==> Synced(parse, t, p)
    ensures Opened(parse, s, p, flags, AfterDownload(t, e, p, fd, GetMode(flags) != ModeRdOnly, packed))
  {
  }

  lemma DownloadFails(parse: Parser, s: State, t: State, e: Entry, p: Path, flags: Flags, given: int, packed: bool)
    requires PathInv(parse, s, p) && EntryAt(s, p).fd < 0
    requires e == Referenced(EntryAt(s, p)).(usermd := e.usermd) && e.usermd.Some?
    requires CacheOnly(s, t, p, GetMode(flags) != ModeRdOnly, given, -1)
    ensures Opened(parse, s, p, flags, AfterDownload(t, e, p, -1, GetMode(flags) != ModeRdOnly, packed))
  {
  }

  /** Nothing was downloaded: the entry holds one more reference, and that is all. */
  lemma NoDownloadKeeps(parse: Parser, s: State, p: Path, flags: Flags)
    requires PathInv(parse, s, p) && EntryAt(s, p).fd < 0
    ensures Opened(parse, s, p, flags, OpenResult(s, Referenced(EntryAt(s, p)).(fd := -1), -1))
  {
  }

  lemma DownloadKeeps(parse: Parser, s: State, p: Path, flags: Flags, env: OpenEnv)
    requires PathInv(parse, s, p) && FreshFd(s, env.fd)
    requires GetMode(flags) != ModeCreat && EntryAt(s, p).fd < 0
    ensures Opened(parse, s, p, flags, OpenCore(parse, s, p, flags, env))
    ensures !StaysPacked(s, p, env) ==> OpenCore(parse, s, p, flags, env).s.tainted <= s.tainted
  {
    var e := Referenced(EntryAt(s, p));
    DownloadForm(parse, s, e, p, flags, env);
    if env.dl.headersOk && env.dl.extractOk {
      DownloadedKeeps(parse, s, p, flags, env);
    } else {
      NoDownloadKeeps(parse, s, p, flags);
    }
  }

  lemma DownloadedKeeps(parse: Parser, s: State, p: Path, flags: Flags, env: OpenEnv)
    requires PathInv(parse, s, p) && FreshFd(s, env.fd)
    requires GetMode(flags) != ModeCreat && EntryAt(s, p).fd < 0
    ensures var writable := GetMode(flags) != ModeRdOnly;
            var (t, fd) := Fetch(parse, s, p, writable, env);
            var r := AfterDownload(t, Referenced(EntryAt(s, p)).(usermd := Some(env.dl.meta)), p, fd, writable,
                                   StaysPacked(s, p, env));
            Opened(parse, s, p, flags, r) && (!StaysPacked(s, p, env) ==> r.s.tainted <= s.tainted)
  {
    var writable := GetMode(flags) != ModeRdOnly;
    FetchKeeps(parse, s, p, writable, env);
    var (t, fd) := Fetch(parse, s, p, writable, env);
    var e := Referenced(EntryAt(s, p)).(usermd := Some(env.dl.meta));
    if fd == -1 {
      DownloadFails(parse, s, t, e, p, flags, env.fd, StaysPacked(s, p, env));
    } else {
      DownloadSucceeds(parse, s, t, e, p, flags, fd, StaysPacked(s, p, env));
    }
  }

  lemma ReuseKeeps(parse: Parser, s: State, p: Path, flags: Flags, env: OpenEnv)
    requires PathInv(parse, s, p)
    requires GetMode(flags) != ModeCreat && 0 <= EntryAt(s, p).fd
    ensures Opened(parse, s, p, flags, OpenCore(parse, s, p, flags, env))
    ensures OpenCore(parse, s, p, flags, env).ret == 0
  {
  }

  lemma OpenCoreKeeps(parse: Parser, s: State, p: Path, flags: Flags, env: OpenEnv)
    requires Inv(parse, s) && FreshFd(s, env.fd)
    ensures Opened(parse, s, p, flags, OpenCore(parse, s, p, flags, env))
  {
    InvAt(parse, s, p);
    if GetMode(flags) == ModeCreat {
      OpenCreatKeeps(parse, s, p, flags, env);
    } else if 0 <= EntryAt(s, p).fd {
      ReuseKeeps(parse, s, p, flags, env);
    } else {
      DownloadKeeps(parse, s, p, flags, env);
    }
  }

  lemma WriterAdded(handles: map<nat, Handle>, h: nat, x: Handle, p: Path)
    requires h !in handles
    ensures HasWriter(handles[h := x], p) <==> HasWriter(handles, p) || (x.path == p && Writes(x.flags))
  {
    if HasWriter(handles, p) {
      var w :| w in handles && handles[w].path == p && Writes(handles[w].flags);
      assert handles[h := x][w] == handles[w];
    }
    if x.path == p && Writes(x.flags) {
      assert handles[h := x][h] == x;
    }
  }

  /** A failed open gives nobody the reference it took. */
  lemma LeakSettles(parse: Parser, s: State, e: Entry, p: Path)
    requires Owing(s, e, p, 1)
    requires e.onDisk == Local && !HasWriter(s.handles, p) && p !in s.tainted ==> Synced(parse, s, p)
    ensures EntryInv(parse, Leak(SetEntry(s, p, e), p), p)
  {
  }

  /** A handle takes over the reference of a successful open. */
  lemma HandleSettles(parse: Parser, s: State, e: Entry, p: Path, flags: Flags, h: nat)
    requires Owing(s, e, p, 1) && h !in s.handles
    requires e.onDisk == Local
    requires !HasWriter(s.handles, p) && !Writes(flags) && p !in s.tainted ==> Synced(parse, s, p)
    ensures EntryInv(parse, SetEntry(s, p, e).(handles := s.handles[h := Handle(p, flags)]), p)
  {
    LiveAdded(s.handles, h, Handle(p, flags), p);
    WriterAdded(s.handles, h, Handle(p, flags), p);
  }

  lemma OpenSettles(parse: Parser, s: State, p: Path, flags: Flags, h: nat, r: OpenResult)
    requires PathInv(parse, s, p) && Opened(parse, s, p, flags, r) && h !in s.handles
    ensures r.ret == 0 ==> EntryInv(parse, SetEntry(r.s, p, r.e).(handles := s.handles[h := Handle(p, flags)]), p)
    ensures r.ret == -1 ==> EntryInv(parse, Leak(SetEntry(r.s, p, r.e), p), p)
  {
    assert r.s.handles == s.handles;
    if r.ret == 0 {
      HandleSettles(parse, r.s, r.e, p, flags, h);
    } else {
      LeakSettles(parse, r.s, r.e, p);
    }
  }

  lemma RegisterView(parse: Parser, s: State, p: Path, flags: Flags, h: nat, r: OpenResult)
    requires Opened(parse, s, p, flags, r) && PathInv(parse, s, p)
    ensures var (t, ret) := Register(r, p, flags, h);
            && (ret == 0 || ret == -1)
            && (ret == 0 && GetMode(flags) == ModeCreat ==> View(parse, t, p) == Some([]))
            && (!(ret == 0 && GetMode(flags) == ModeCreat) && p !in t.tainted ==>
                  View(parse, t, p) == View(parse, s, p))
  {
  }

  lemma RegisterTable(parse: Parser, s: State, p: Path, flags: Flags, h: nat, r: OpenResult)
    requires PathInv(parse, s, p) && Opened(parse, s, p, flags, r) && h !in s.handles
    ensures var (t, ret) := Register(r, p, flags, h);
            && t.table == s.table[p := EntryAt(t, p)] && p in t.table
            && t.handles == (if ret == 0 then s.handles[h := Handle(p, flags)] else s.handles)
            && EntryInv(parse, t, p) && Around(s, t, p)
            && (HandlesOf(t.handles, p) != {} ==> t.table[p].onDisk == Local)
  {
    OpenSettles(parse, s, p, flags, h, r);
    OpenAround(s, r, p, Handle(p, flags), h);
    RegisterLocal(parse, s, p, flags, h, r);
  }

  lemma RegisterKeeps(parse: Parser, s: State, p: Path, flags: Flags, h: nat, r: OpenResult)
    requires Inv(parse, s) && Opened(parse, s, p, flags, r) && h !in s.handles && ScratchFree(s.table.Keys + {p})
    ensures var (t, ret) := Register(r, p, flags, h);
            && Inv(parse, t)
            && (forall q :: q != p ==> View(parse, t, q) == View(parse, s, q))
            && t.handles == (if ret == 0 then s.handles[h := Handle(p, flags)] else s.handles)
  {
    InvAt(parse, s, p);
    RegisterTable(parse, s, p, flags, h, r);
    KeepsInv(parse, s, Register(r, p, flags, h).0, p);
  }

  lemma RegisterLocal(parse: Parser, s: State, p: Path, flags: Flags, h: nat, r: OpenResult)
    requires PathInv(parse, s, p) && Opened(parse, s, p, flags, r)
    ensures var t := Register(r, p, flags, h).0; HandlesOf(t.handles, p) != {} ==> r.e.onDisk == Local
  {
  }

  /** dfs_open keeps the invariant and always returns; the content moves only by truncation. */
  lemma OpenKeeps(parse: Parser, s: State, p: Path, flags: Flags, h: nat, env: OpenEnv)
    requires Inv(parse, s) && FreshFd(s, env.fd) && h !in s.handles && ScratchFree(s.table.Keys + {p})
    ensures var (t, ret) := Open(parse, s, p, flags, h, env);
            && Inv(parse, t)
            && (ret == 0 || ret == -1)
            && (forall q :: q != p ==> View(parse, t, q) == View(parse, s, q))
            && (ret == 0 && GetMode(flags) == ModeCreat ==> View(parse, t, p) == Some([]))
            && (!(ret == 0 && GetMode(flags) == ModeCreat) && p !in t.tainted ==>
                  View(parse, t, p) == View(parse, s, p))
            && t.handles == (if ret == 0 then s.handles[h := Handle(p, flags)] else s.handles)
  {
    OpenCoreKeeps(parse, s, p, flags, env);
    InvAt(parse, s, p);
    RegisterView(parse, s, p, flags, h, OpenCore(parse, s, p, flags, env));
    RegisterKeeps(parse, s, p, flags, h, OpenCore(parse, s, p, flags, env));
  }

  lemma OpenAround(s: State, r: OpenResult, p: Path, x: Handle, h: nat)
    requires Around(s, r.s, p) && r.s == s.(cache := r.s.cache, fds := r.s.fds, tainted := r.s.tainted)
    requires x.path == p && h !in s.handles
    ensures Around(s, SetEntry(r.s, p, r.e).(handles := s.handles[h := x]), p)
    ensures Around(s, Leak(SetEntry(r.s, p, r.e), p), p)
  {
  }

  // ---- create ----

  /** The kernel creates only what a lookup has not found. */
  ghost predicate Absent(s: State, p: Path) {
    p !in s.remote && EntryAt(s, p).onDisk == Unset && EntryAt(s, p).usermd.None?
  }

  lemma CreateTruncates(parse: Parser, s: State, p: Path, flags: Flags, env: OpenEnv)
    requires Absent(s, p) && PathInv(parse, s, p)
    ensures OpenCore(parse, s, p, flags, env).ret == 0 ==> GetMode(flags) == ModeCreat
  {
  }

  /** The ways dfs_create ends, once dfs_open has made an empty local file. */
  lemma CreateSettles(parse: Parser, s: State, e: Entry, p: Path, flags: Flags, h: nat, env: CreateEnv)
    requires Owing(s, e, p, 1) && h !in s.handles && e.onDisk == Local
    requires p in s.cache && s.cache[p] == []
    ensures EntryInv(parse, CreateRemote(SetEntry(s, p, e), p, flags, h, env).0, p)
  {
    if env.exclude {
      HandleSettles(parse, Taint(s, p, true), e, p, flags, h);
    } else if env.mknodOk {
      var u := Taint(s, p, false).(remote := s.remote[p := EMPTY_OBJECT]);
      assert Synced(parse, u, p);
      HandleSettles(parse, u, e, p, flags, h);
    } else {
      LeakSettles(parse, Taint(s, p, true).(remote := Put(s.remote, p, env.left)), e, p);
    }
  }

  lemma CreateFaultSettles(parse: Parser, s: State, e: Entry, p: Path)
    requires Owing(s, e, p, 1)
    ensures EntryInv(parse, Leak(Taint(SetEntry(s, p, e), p, true), p), p)
  {
    LeakSettles(parse, Taint(s, p, true), e, p);
  }

  lemma AroundTransitive(s: State, t: State, u: State, p: Path)
    requires Around(s, t, p) && Around(t, u, p)
    ensures Around(s, u, p)
  {
  }

  lemma CreateRemoteAround(s: State, p: Path, flags: Flags, h: nat, env: CreateEnv)
    requires h !in s.handles
    ensures Around(s, CreateRemote(s, p, flags, h, env).0, p)
  {
  }

  lemma FailedAround(s: State, e: Entry, p: Path)
    ensures Around(s, Leak(Taint(SetEntry(s, p, e), p, true), p), p)
    ensures Around(s, SetEntry(s, p, e), p)
  {
  }

  lemma CreateAround(s: State, r: State, e: Entry, p: Path, flags: Flags, h: nat, env: CreateEnv)
    requires Around(s, r, p) && r.handles == s.handles && h !in s.handles
    ensures Around(s, CreateRemote(SetEntry(r, p, e), p, flags, h, env).0, p)
  {
    var u := SetEntry(r, p, e);
    FailedAround(r, e, p);
    CreateRemoteAround(u, p, flags, h, env);
    AroundTransitive(r, u, CreateRemote(u, p, flags, h, env).0, p);
    AroundTransitive(s, r, CreateRemote(u, p, flags, h, env).0, p);
  }

  lemma CreateFaultLocal(parse: Parser, s: State, p: Path, e: Entry, r: State)
    requires Around(s, r, p) && Owing(r, e, p, 1)
    ensures var t := Leak(Taint(SetEntry(r, p, e), p, true), p);
            p in t.table && EntryInv(parse, t, p) && Around(s, t, p)
  {
    CreateFaultSettles(parse, r, e, p);
    FailedAround(r, e, p);
    AroundTransitive(s, r, Leak(Taint(SetEntry(r, p, e), p, true), p), p);
  }

  lemma CreateRemoteLocal(parse: Parser, s: State, p: Path, flags: Flags, h: nat, env: CreateEnv, e: Entry, r: State)
    requires Around(s, r, p) && Owing(r, e, p, 1) && e.onDisk == Local && h !in r.handles && r.handles == s.handles
    requires p in r.cache && r.cache[p] == []
    ensures var t := CreateRemote(SetEntry(r, p, e), p, flags, h, env).0;
            p in t.table && EntryInv(parse, t, p) && Around(s, t, p)
  {
    CreateSettles(parse, r, e, p, flags, h, env);
    CreateAround(s, r, e, p, flags, h, env);
  }

  /** The invariant at `p` and the frame, for each way that dfs_create ends. */
  lemma CreateOpenedLocal(parse: Parser, s: State, p: Path, flags: Flags, h: nat, env: CreateEnv, r: OpenResult)
    requires PathInv(parse, s, p) && h !in s.handles
    requires Opened(parse, s, p, flags, r) && (r.ret == 0 ==> GetMode(flags) == ModeCreat)
    ensures var (t, ret) := CreateOpened(r, p, flags, h, env);
            && p in t.table && EntryInv(parse, t, p) && Around(s, t, p)
            && BLOCKED < ret <= 0
  {
    var e := r.e.(exclude := env.exclude);
    if r.ret != 0 {
      OpenSettles(parse, s, p, flags, h, r);
      OpenAround(s, r, p, Handle(p, flags), h);
    } else if CreateFault(e, env) != 0 {
      CreateFaultLocal(parse, s, p, e, r.s);
    } else {
      CreateRemoteLocal(parse, s, p, flags, h, env, e.(usermd := Some(CreateMeta(e, env))), r.s);
    }
  }

  lemma CreateRemoteTable(s: State, p: Path, flags: Flags, h: nat, env: CreateEnv)
    ensures var (t, ret) := CreateRemote(s, p, flags, h, env);
            t.table == s.table && t.handles == if ret == 0 then s.handles[h := Handle(p, flags)] else s.handles
  {
  }

  /** One entry is stored for `p`, with the state that `r` left it in, and a handle on success. */
  ghost predicate Stores(r: OpenResult, p: Path, x: Handle, h: nat, t: State, ret: int) {
    && p in t.table && t.table == r.s.table[p := t.table[p]]
    && t.handles == (if ret == 0 then r.s.handles[h := x] else r.s.handles)
    && t.table[p].onDisk == r.e.onDisk
  }

  lemma LeakedTable(r: OpenResult, p: Path, e: Entry, x: Handle, h: nat, bad: bool, ret: int)
    requires e.onDisk == r.e.onDisk && ret != 0
    ensures Stores(r, p, x, h, Leak(SetEntry(r.s, p, e), p), ret)
    ensures Stores(r, p, x, h, Leak(Taint(SetEntry(r.s, p, e), p, bad), p), ret)
  {
  }

  lemma CreateOpenedTable(r: OpenResult, p: Path, flags: Flags, h: nat, env: CreateEnv)
    ensures var (t, ret) := CreateOpened(r, p, flags, h, env);
            Stores(r, p, Handle(p, flags), h, t, ret)
  {
    var x := Handle(p, flags);
    var e := r.e.(exclude := env.exclude);
    if r.ret != 0 {
      LeakedTable(r, p, r.e, x, h, true, -1);
    } else if CreateFault(e, env) != 0 {
      LeakedTable(r, p, e, x, h, true, CreateFault(e, env));
    } else {
      CreateRemoteTable(SetEntry(r.s, p, e.(usermd := Some(CreateMeta(e, env)))), p, flags, h, env);
    }
  }

  lemma CreateOpenedKeeps(parse: Parser, s: State, p: Path, flags: Flags, h: nat, env: CreateEnv, r: OpenResult)
    requires Inv(parse, s) && h !in s.handles && ScratchFree(s.table.Keys + {p})
    requires Opened(parse, s, p, flags, r) && (r.ret == 0 ==> GetMode(flags) == ModeCreat)
    ensures var (t, ret) := CreateOpened(r, p, flags, h, env);
            && Inv(parse, t)
            && BLOCKED < ret <= 0
            && (forall q :: q != p ==> View(parse, t, q) == View(parse, s, q))
            && t.handles == (if ret == 0 then s.handles[h := Handle(p, flags)] else s.handles)
  {
    InvAt(parse, s, p);
    CreateOpenedLocal(parse, s, p, flags, h, env, r);
    CreateOpenedTable(r, p, flags, h, env);
    KeepsInv(parse, s, CreateOpened(r, p, flags, h, env).0, p);
  }

  lemma CreateOpenedView(parse: Parser, s: State, p: Path, flags: Flags, h: nat, env: CreateEnv, r: OpenResult)
    requires Opened(parse, s, p, flags, r) && PathInv(parse, s, p)
    requires r.ret == 0 ==> GetMode(flags) == ModeCreat
    ensures var (t, ret) := CreateOpened(r, p, flags, h, env);
            && (ret == 0 ==> View(parse, t, p) == Some([]))
            && (ret != 0 && p !in t.tainted ==> View(parse, t, p) == View(parse, s, p))
  {
  }

  /** dfs_create keeps the invariant and always returns; success leaves an empty file. */
  lemma CreateKeeps(parse: Parser, s: State, p: Path, flags: Flags, h: nat, env: CreateEnv)
    requires Inv(parse, s) && FreshFd(s, env.open.fd) && h !in s.handles && ScratchFree(s.table.Keys + {p})
    requires Absent(s, p)
    ensures var (t, ret) := Create(parse, s, p, flags, h, env);
            && Inv(parse, t)
            && BLOCKED < ret <= 0
            && (forall q :: q != p ==> View(parse, t, q) == View(parse, s, q))
            && (ret == 0 ==> View(parse, t, p) == Some([]))
            && (ret != 0 && p !in t.tainted ==> View(parse, t, p) == View(parse, s, p))
            && t.handles == (if ret == 0 then s.handles[h := Handle(p, flags)] else s.handles)
  {
    InvAt(parse, s, p);
    OpenCoreKeeps(parse, s, p, flags, env.open);
    CreateTruncates(parse, s, p, flags, env.open);
    var r := OpenCore(parse, s, p, flags, env.open);
    CreateOpenedKeeps(parse, s, p, flags, h, env, r);
    CreateOpenedView(parse, s, p, flags, h, env, r);
  }

  // ---- read, write and getattr ----

  /** A live handle has a usable descriptor on the file of its path. */
  lemma LiveHandleUsable(parse: Parser, s: State, h: nat)
    requires Inv(parse, s) && h in s.handles
    ensures var p := s.handles[h].path;
            && p in s.table && s.table[p].onDisk == Local && 0 <= s.table[p].fd
            && Behind(s, s.table[p].fd) == View(parse, s, p) && View(parse, s, p).Some?
            && s.fds[s.table[p].fd] == Desc(p, 0, s.fds[s.table[p].fd].writable)
            && 0 < s.table[p].refcount
  {
    var p := s.handles[h].path;
    assert EntryInv(parse, s, p);
    LiveRemoved(s.handles, h, p);
  }

  /** The bytes that a file has from `offset` on, at most `size` of them; none at or behind its end. */
  ghost predicate IsRange(data: Bytes, content: Bytes, size: nat, offset: nat) {
    && |data| == (if |content| <= offset then 0 else if size < |content| - offset then size else |content| - offset)
    && forall i :: 0 <= i < |data| ==> data[i] == content[offset + i]
  }

  lemma PreadBytes(content: Bytes, size: nat, offset: nat)
    ensures IsRange(Pread(content, size, offset), content, size, offset)
  {
  }

  /** dfs_read never sees a bad descriptor, and gives what the path contains. */
  lemma ReadKeeps(parse: Parser, s: State, h: nat, size: nat, offset: nat, fault: Option<Failure>)
    requires Inv(parse, s) && h in s.handles && s.handles[h].path in s.table
    ensures var (ret, data) := Read(s, h, size, offset, fault);
            var content := View(parse, s, s.handles[h].path).value;
            if fault.Some? then (ret, data) == (fault.value, [])
            else data == Pread(content, size, offset) && IsRange(data, content, size, offset) && ret == |data|
  {
    LiveHandleUsable(parse, s, h);
    PreadBytes(View(parse, s, s.handles[h].path).value, size, offset);
  }

  lemma WriteForm(parse: Parser, s: State, h: nat, buf: Bytes, offset: nat, fault: Option<Failure>, n: nat)
    requires Inv(parse, s) && h in s.handles && s.handles[h].path in s.table
    ensures var (t, ret) := Write(s, h, buf, offset, fault, n);
            var p := s.handles[h].path;
            && p in s.cache
            && BLOCKED < ret <= |buf|
            && ret == (if fault.Some? then fault.value
                       else if !s.fds[s.table[p].fd].writable then -EBADF
                       else Min(n, |buf|))
            && t == (if ret < 0 then s
                     else s.(cache := s.cache[p := Pwrite(s.cache[p], buf[..ret], offset)]))
  {
    LiveHandleUsable(parse, s, h);
  }

  lemma CacheWriteLocal(parse: Parser, s: State, p: Path, content: Bytes)
    requires p in s.table && EntryInv(parse, s, p) && HasWriter(s.handles, p) && s.table[p].onDisk == Local
    ensures var t := s.(cache := s.cache[p := content]);
            EntryInv(parse, t, p) && Around(s, t, p) && View(parse, t, p) == Some(content)
  {
  }

  lemma CacheWriteKeeps(parse: Parser, s: State, p: Path, content: Bytes)
    requires Inv(parse, s) && p in s.table && HasWriter(s.handles, p) && s.table[p].onDisk == Local
    ensures var t := s.(cache := s.cache[p := content]);
            && Inv(parse, t)
            && (forall q :: q != p ==> View(parse, t, q) == View(parse, s, q))
            && View(parse, t, p) == Some(content)
  {
    assert EntryInv(parse, s, p);
    CacheWriteLocal(parse, s, p, content);
    assert s.table == s.table[p := s.table[p]];
    KeepsInvAt(parse, s, s.(cache := s.cache[p := content]), p);
  }

  /** dfs_write never sees a bad descriptor; it changes one path by one positional write. */
  lemma WriteKeeps(parse: Parser, s: State, h: nat, buf: Bytes, offset: nat, fault: Option<Failure>, n: nat)
    requires Inv(parse, s) && h in s.handles && s.handles[h].path in s.table && Writes(s.handles[h].flags)
    ensures var (t, ret) := Write(s, h, buf, offset, fault, n);
            var p := s.handles[h].path;
            && Inv(parse, t)
            && t == s.(cache := t.cache)
            && ret == (if fault.Some? then fault.value
                       else if !s.fds[s.table[p].fd].writable then -EBADF
                       else Min(n, |buf|))
            && View(parse, s, p).Some?
            && (forall q :: q != p ==> View(parse, t, q) == View(parse, s, q))
            && View(parse, t, p) ==
               (if ret < 0 then View(parse, s, p) else Some(Pwrite(View(parse, s, p).value, buf[..ret], offset)))
  {
    LiveHandleUsable(parse, s, h);
    WriteForm(parse, s, h, buf, offset, fault, n);
    var p := s.handles[h].path;
    var ret := Write(s, h, buf, offset, fault, n).1;
    if 0 <= ret {
      CacheWriteKeeps(parse, s, p, Pwrite(s.cache[p], buf[..ret], offset));
    }
  }

  lemma GetattrEntryKeeps(parse: Parser, s: State, p: Path, env: GetattrEnv)
    requires PathInv(parse, s, p)
    ensures var (e, ret) := GetattrEntry(EntryAt(s, p), env);
            && BLOCKED < ret <= 0
            && EntryInv(parse, SetEntry(s, p, e), p)
            && (e.onDisk == Local <==> EntryAt(s, p).onDisk == Local)
            && (p !in s.table ==> e.onDisk != Local)
  {
  }

  lemma StoredView(parse: Parser, s: State, p: Path, e: Entry)
    requires e.onDisk == Local <==> EntryAt(s, p).onDisk == Local
    requires p in s.table || e.onDisk != Local
    ensures View(parse, SetEntry(s, p, e), p) == View(parse, s, p)
  {
  }

  lemma StoreKeeps(parse: Parser, s: State, p: Path, e: Entry)
    requires Inv(parse, s) && ScratchFree(s.table.Keys + {p}) && EntryInv(parse, SetEntry(s, p, e), p)
    requires e.onDisk == Local <==> EntryAt(s, p).onDisk == Local
    ensures Inv(parse, SetEntry(s, p, e))
    ensures forall q :: View(parse, SetEntry(s, p, e), q) == View(parse, s, q)
  {
    InvAt(parse, s, p);
    FailedAround(s, e, p);
    StoredView(parse, s, p, e);
    KeepsInv(parse, s, SetEntry(s, p, e), p);
  }

  /** dfs_getattr never blocks, releases the metadata mutex and moves no content. */
  lemma GetattrKeeps(parse: Parser, s: State, p: Path, env: GetattrEnv)
    requires Inv(parse, s) && ScratchFree(s.table.Keys + {p})
    ensures var (t, ret) := Getattr(s, p, env);
            && Inv(parse, t)
            && BLOCKED < ret <= 0
            && t == s.(table := t.table)
            && (forall q :: View(parse, t, q) == View(parse, s, q))
  {
    InvAt(parse, s, p);
    if p != "/" {
      GetattrEntryKeeps(parse, s, p, env);
      StoreKeeps(parse, s, p, GetattrEntry(EntryAt(s, p), env).0);
    }
  }

  // ---- release ----

  lemma WriterRemoved(handles: map<nat, Handle>, h: nat, p: Path)
    requires h in handles && !Writes(handles[h].flags) && HasWriter(handles, p)
    ensures HasWriter(handles - {h}, p)
  {
    var w :| w in handles && handles[w].path == p && Writes(handles[w].flags);
    assert w in handles - {h} && (handles - {h})[w] == handles[w];
  }

  lemma DropCounts(s: State, e: Entry, p: Path, h: nat)
    requires h in s.handles && s.handles[h].path == p
    requires Owing(s, e.(refcount := e.refcount + 1), p, 0)
    ensures Owing(s.(handles := s.handles - {h}), e, p, 0)
  {
    LiveRemoved(s.handles, h, p);
  }

  lemma EntrySettles(parse: Parser, s: State, e: Entry, p: Path)
    requires Owing(s, e, p, 0)
    requires e.onDisk == Local && !HasWriter(s.handles, p) && p !in s.tainted ==> Synced(parse, s, p)
    ensures EntryInv(parse, SetEntry(s, p, e), p)
  {
  }

  /** The release of `h` at work on the entry `e`: one more handle is counted than is owed. */
  lemma DropSettles(parse: Parser, s: State, e: Entry, p: Path, h: nat)
    requires h in s.handles && s.handles[h].path == p
    requires Owing(s, e.(refcount := e.refcount + 1), p, 0)
    requires e.onDisk == Local && p !in s.tainted ==>
               Synced(parse, s, p) || (!Writes(s.handles[h].flags) && HasWriter(s.handles, p))
    ensures EntryInv(parse, SetEntry(s, p, e).(handles := s.handles - {h}), p)
  {
    DropCounts(s, e, p, h);
    if !Writes(s.handles[h].flags) && HasWriter(s.handles, p) {
      WriterRemoved(s.handles, h, p);
    }
    EntrySettles(parse, s.(handles := s.handles - {h}), e, p);
  }

  /** The entry is stored, the cache directory is as given, the handle is gone. */
  function Dropped(r: State, e: Entry, p: Path, h: nat, cache: map<Path, Bytes>): State {
    r.(table := r.table[p := e], cache := cache, handles := r.handles - {h})
  }

  /** The end of a release, when the only thing that may have happened to a descriptor is that it moved. */
  lemma ConcludeForm(s: State, p: Path, h: nat, e: Entry, env: ReleaseEnv, scratch: bool)
    requires e.fd in s.fds && env.lseekOk
    ensures Conclude(s, p, h, e, env, scratch) ==
            Dropped(Seek(s, e.fd, 0), e.(dirty := false, held := false), p, h,
                    if scratch then Put(s.cache, Tmp(p), env.scratch) else s.cache)
  {
  }

  lemma SeekBack(s: State, fd: int, offset: nat)
    requires fd in s.fds && s.fds[fd].offset == 0
    ensures Seek(Seek(s, fd, offset), fd, 0).fds == s.fds
  {
  }

  /** What is assumed of the foreign calls of one upload. */
  ghost predicate HonestUpload(parse: Parser, s: State, p: Path, env: ReleaseEnv) {
    && (p in s.cache ==> HonestZip(parse, s.cache[p], env.comp))
    && (p in s.cache && env.fstatOk ==> env.st.size == |s.cache[p]|)
    && -1 <= env.comp.fileno
    && env.comp.fileno != 0  // descriptor 0 is in use
  }

  ghost predicate HonestRelease(parse: Parser, s: State, p: Path, env: ReleaseEnv) {
    HonestUpload(parse, s, p, env) && env.lseekOk
  }

  /** What would be sent now can be decoded to the whole cache file, and announces its size. */
  lemma OutgoingWhole(parse: Parser, s: State, p: Path, fd: int, env: ReleaseEnv)
    requires HonestUpload(parse, s, p, env) && env.fstatOk
    requires fd in s.fds && s.fds[fd].path == p && s.fds[fd].offset == 0 && p in s.cache
    requires Outgoing(s, fd, env).Some?
    ensures var out := Outgoing(s, fd, env).value;
            && Decode(parse, Upload(out)) == Some(s.cache[p]) && TrueSize(Upload(out), s.cache[p])
            && Describes(out.meta, env.st)
  {
    TagTellsTruth(parse, s.cache[p], env.st, env.zlib, env.comp);
    SizeTellsTruth(s.cache[p], 0, env.st, env.zlib, env.comp);
    UploadDescribes(s.cache[p], 0, env.st, env.zlib, env.comp);
    UploadDownloadRoundTrip(parse, s.cache[p], env.st, env.zlib, env.comp, None,
                            UnzipEnv(true, true, false, [], true, true, true));
  }

  /** The object was announced with the size of its bytes, and its metadata has the size of the file. */
  predicate TrueSize(o: Object, content: Bytes) {
    o.declared == |o.data| && MetadataToLL(o.meta, "size") == |content|
  }

  /** A copy loop that succeeds on a descriptor at offset 0 has passed on the whole payload. */
  lemma TransmitsAll(s: State, fd: int, env: ReleaseEnv)
    requires Outgoing(s, fd, env).Some? && s.fds[fd].offset == 0
    ensures var out := Outgoing(s, fd, env).value;
            var x := Transmit(s, fd, out, env);
            && (x.ret == 0 || x.ret == -1)
            && (x.ret == 0 ==> x.sent == out.data)
            && (!out.packed ==> (x.offset == 0 <==> Behind(s, fd).value == [] || env.send.readFails(0)))
  {
    var out := Outgoing(s, fd, env).value;
    if out.packed {
      SendBlocksWhole(out.data, 0, env.send, 0);
      assert out.data[0..] == out.data;
    } else {
      SendBlocksWhole(Behind(s, fd).value, 0, env.send, 0);
    }
  }

  /** An upload that gets through. */
  predicate Arrives(s: State, fd: int, env: ReleaseEnv) {
    && Outgoing(s, fd, env).Some? && env.openwriteOk && env.closeOk
    && Transmit(s, fd, Outgoing(s, fd, env).value, env).ret == 0
  }

  /** An upload that reads the cache file through its own descriptor, and so moves it. */
  predicate Drains(s: State, fd: int, env: ReleaseEnv) {
    && Outgoing(s, fd, env).Some? && env.openwriteOk && !Outgoing(s, fd, env).value.packed
    && Behind(s, fd).value != [] && !env.send.readFails(0)
  }

  lemma SentRefused(s: State, p: Path, fd: int, env: ReleaseEnv)
    requires Outgoing(s, fd, env).None? || !env.openwriteOk
    ensures var (t, ret) := Sent(s, p, fd, env);
            && ret == -1 && t == Taint(s, p, true).(remote := t.remote)
            && t.remote == if Outgoing(s, fd, env).None? then s.remote else Put(s.remote, p, env.left)
  {
  }

  lemma SentTransmitted(s: State, p: Path, fd: int, env: ReleaseEnv)
    requires fd in s.fds && s.fds[fd].offset == 0
    requires Outgoing(s, fd, env).Some? && env.openwriteOk
    ensures var (t, ret) := Sent(s, p, fd, env);
            var out := Outgoing(s, fd, env).value;
            var x := Transmit(s, fd, out, env);
            && ret == (if x.ret == 0 && env.closeOk then 0 else -1)
            && t == Taint(Seek(s, fd, if out.packed then 0 else x.offset), p, ret != 0).(remote := t.remote)
            && t.remote == if ret == 0 then s.remote[p := Upload(out)] else Put(s.remote, p, env.left)
  {
    assert s.fds[fd := s.fds[fd].(offset := 0)] == s.fds;
    TransmitsAll(s, fd, env);
  }

  /** The state after an upload: the remote object, the history, and a descriptor that may have moved. */
  lemma SentForm(s: State, p: Path, fd: int, env: ReleaseEnv) returns (offset: nat)
    requires fd in s.fds && s.fds[fd].offset == 0
    ensures var (t, ret) := Sent(s, p, fd, env);
            && t == Taint(Seek(s, fd, offset), p, ret != 0).(remote := t.remote)
            && (ret == 0 || ret == -1)
            && (ret == 0 <==> Arrives(s, fd, env))
            && t.remote == (if ret == 0 then s.remote[p := Upload(Outgoing(s, fd, env).value)]
                            else if Outgoing(s, fd, env).None? then s.remote
                            else Put(s.remote, p, env.left))
    ensures offset == 0 <==> !Drains(s, fd, env)
  {
    offset := 0;
    if Outgoing(s, fd, env).None? || !env.openwriteOk {
      SentRefused(s, p, fd, env);
      assert s.fds[fd := s.fds[fd].(offset := 0)] == s.fds;
    } else {
      SentTransmitted(s, p, fd, env);
      TransmitsAll(s, fd, env);
      var out := Outgoing(s, fd, env).value;
      if !out.packed {
        offset := Transmit(s, fd, out, env).offset;
      }
    }
  }

  lemma MovedAround(s: State, p: Path, bad: bool, remote: map<Path, Object>)
    requires forall q :: q != p ==>
               ((q in remote) == (q in s.remote)) && (q in s.remote ==> remote[q] == s.remote[q])
    ensures Around(s, Taint(s, p, bad).(remote := remote), p)
  {
  }

  /** A successful upload sends the whole file, announces its size and can be decoded. */
  lemma SentKeeps(parse: Parser, s: State, p: Path, fd: int, env: ReleaseEnv)
    requires HonestUpload(parse, s, p, env) && env.fstatOk
    requires fd in s.fds && s.fds[fd].path == p && s.fds[fd].offset == 0 && p in s.cache
    ensures var (t, ret) := Sent(s, p, fd, env);
            var u := Seek(t, fd, 0);
            && u == Taint(s, p, ret != 0).(remote := t.remote)
            && Around(s, u, p)
            && (ret == 0 || ret == -1)
            && (ret == 0 <==> Arrives(s, fd, env))
            && (ret == 0 ==>
                  Synced(parse, u, p) && TrueSize(u.remote[p], s.cache[p]) && Describes(u.remote[p].meta, env.st))
  {
    var offset := SentForm(s, p, fd, env);
    var (t, ret) := Sent(s, p, fd, env);
    SeekBack(s, fd, offset);
    MovedAround(s, p, ret != 0, t.remote);
    if ret == 0 {
      OutgoingWhole(parse, s, p, fd, env);
    }
  }

  lemma ConcludeAround(s: State, r: State, e: Entry, p: Path, h: nat, cache: map<Path, Bytes>)
    requires Around(s, r, p) && h in r.handles && r.handles[h].path == p
    requires forall q :: q != p && q != Tmp(p) ==>
               ((q in cache) == (q in r.cache)) && (q in cache ==> cache[q] == r.cache[q])
    ensures Around(s, Dropped(r, e, p, h, cache), p)
  {
  }

  lemma DroppedView(parse: Parser, s: State, r: State, e: Entry, p: Path, h: nat, cache: map<Path, Bytes>)
    requires p in s.table && s.table[p].onDisk == Local && e.onDisk == Local && r.table == s.table
    requires p in s.cache && p in cache && cache[p] == s.cache[p]
    ensures View(parse, Dropped(r, e, p, h, cache), p) == View(parse, s, p)
  {
  }

  lemma DropLocal(parse: Parser, s: State, r: State, e: Entry, p: Path, h: nat, cache: map<Path, Bytes>)
    requires Around(s, r, p) && r.table == s.table && r.handles == s.handles && r.cache == s.cache
    requires h in s.handles && s.handles[h].path == p && p in s.table && e.onDisk == Local
    requires Owing(r, e.(refcount := e.refcount + 1), p, 0)
    requires p !in r.tainted ==> Synced(parse, r, p) || (!Writes(s.handles[h].flags) && HasWriter(s.handles, p))
    requires forall q :: q != Tmp(p) ==> ((q in cache) == (q in s.cache)) && (q in cache ==> cache[q] == s.cache[q])
    ensures EntryInv(parse, Dropped(r, e, p, h, cache), p)
    ensures Around(s, Dropped(r, e, p, h, cache), p)
  {
    DropSettles(parse, r.(cache := cache), e, p, h);
    ConcludeAround(s, r, e, p, h, cache);
  }

  /** The common end: the state `r` before the handle is dropped, the entry to store, the cache. */
  lemma DropKeeps(parse: Parser, s: State, r: State, e: Entry, p: Path, h: nat, cache: map<Path, Bytes>)
    requires Inv(parse, s) && Around(s, r, p) && r.table == s.table && r.handles == s.handles
    requires r.cache == s.cache
    requires h in s.handles && s.handles[h].path == p && p in s.table && e.onDisk == Local
    requires Owing(r, e.(refcount := e.refcount + 1), p, 0)
    requires p !in r.tainted ==> Synced(parse, r, p) || (!Writes(s.handles[h].flags) && HasWriter(s.handles, p))
    requires forall q :: q != Tmp(p) ==> ((q in cache) == (q in s.cache)) && (q in cache ==> cache[q] == s.cache[q])
    ensures var t := Dropped(r, e, p, h, cache);
            && Inv(parse, t)
            && (forall q :: View(parse, t, q) == View(parse, s, q))
  {
    DropLocal(parse, s, r, e, p, h, cache);
    KeepsInvAt(parse, s, Dropped(r, e, p, h, cache), p);
    HandleIsLocal(parse, s, h);
    DroppedView(parse, s, r, e, p, h, cache);
  }

  /** What a callback that ends the life of a handle promises. */
  ghost predicate Released(parse: Parser, s: State, h: nat, t: State, ret: int) {
    && Inv(parse, t)
    && (ret == 0 || ret == -1)
    && t.handles == s.handles - {h}
    && (forall q :: View(parse, t, q) == View(parse, s, q))
  }

  lemma DropReleases(parse: Parser, s: State, r: State, e: Entry, p: Path, h: nat, cache: map<Path, Bytes>, ret: int)
    requires Inv(parse, s) && Around(s, r, p) && r.table == s.table && r.handles == s.handles
    requires r.cache == s.cache && r.fds == s.fds
    requires h in s.handles && s.handles[h].path == p && p in s.table
    requires e == s.table[p].(refcount := e.refcount, dirty := e.dirty, held := e.held) && !e.held
    requires e.refcount + 1 == s.table[p].refcount + Leaks(r, p) - Leaks(s, p)
    requires p !in r.tainted ==> Synced(parse, r, p) || (!Writes(s.handles[h].flags) && HasWriter(s.handles, p))
    requires forall q :: q != Tmp(p) ==> ((q in cache) == (q in s.cache)) && (q in cache ==> cache[q] == s.cache[q])
    requires ret == 0 || ret == -1
    ensures Released(parse, s, h, Dropped(r, e, p, h, cache), ret)
  {
    LiveHandleUsable(parse, s, h);
    assert EntryInv(parse, s, p);
    DropKeeps(parse, s, r, e, p, h, cache);
  }

  lemma TaintAround(s: State, p: Path)
    ensures Around(s, s, p) && Around(s, Taint(s, p, true), p)
  {
  }

  lemma LeakAround(s: State, p: Path)
    ensures Around(s, Leak(s, p), p) && Around(s, Leak(Taint(s, p, true), p), p)
  {
    TaintAround(s, p);
    LeakOnce(s, p);
    LeakOnce(Taint(s, p, true), p);
    AroundTransitive(s, Taint(s, p, true), Leak(Taint(s, p, true), p), p);
  }

  lemma LeakOnce(s: State, p: Path)
    ensures Around(s, Leak(s, p), p)
  {
  }

  /** What a release that uploads nothing relies on. */
  lemma BeforeRelease(parse: Parser, s: State, h: nat)
    requires Inv(parse, s) && h in s.handles
    ensures var p := s.handles[h].path;
            && p in s.table
            && (!Writes(s.handles[h].flags) && p !in s.tainted ==> Synced(parse, s, p) || HasWriter(s.handles, p))
            && var e := s.table[p];
              && 0 <= e.fd && 0 < e.refcount && !e.held && e.fd in s.fds && s.fds[e.fd].offset == 0
  {
    LiveHandleUsable(parse, s, h);
    assert EntryInv(parse, s, s.handles[h].path);
  }

  lemma ReleaseFailedForm(s: State, h: nat, env: ReleaseEnv)
    requires h in s.handles && s.handles[h].path in s.table && !env.fstatOk && env.lseekOk
    requires var e := s.table[s.handles[h].path]; e.fd in s.fds && s.fds[e.fd].offset == 0
    ensures var p := s.handles[h].path;
            var r := Leak(if s.handles[h].flags.acc == RdOnly then s else Taint(s, p, true), p);
            Release(s, h, env) == (Dropped(r, s.table[p].(dirty := false, held := false), p, h, s.cache), -1)
  {
    var p := s.handles[h].path;
    var e := s.table[p];
    var r := Leak(if s.handles[h].flags.acc == RdOnly then s else Taint(s, p, true), p);
    ConcludeForm(r, p, h, e, env, false);
    assert r.fds[e.fd := r.fds[e.fd].(offset := 0)] == r.fds;
  }

  lemma ReleaseFailedKeeps(parse: Parser, s: State, h: nat, env: ReleaseEnv)
    requires Inv(parse, s) && h in s.handles && s.handles[h].path in s.table
    requires !env.fstatOk && env.lseekOk
    ensures var (t, ret) := Release(s, h, env); Released(parse, s, h, t, ret)
  {
    BeforeRelease(parse, s, h);
    ReleaseFailedForm(s, h, env);
    var p := s.handles[h].path;
    LeakAround(s, p);
    var r := Leak(if s.handles[h].flags.acc == RdOnly then s else Taint(s, p, true), p);
    DropReleases(parse, s, r, s.table[p].(dirty := false, held := false), p, h, s.cache, -1);
  }

  /** A release that uploads nothing: what it leaves before the entry is stored, and the entry. */
  lemma ReleaseIdleForm(s: State, h: nat, env: ReleaseEnv) returns (r: State, e: Entry)
    requires h in s.handles && s.handles[h].path in s.table && env.fstatOk
    requires var e := s.table[s.handles[h].path]; 0 <= e.fd && 0 < e.refcount && !e.held
    requires Writes(s.handles[h].flags) ==> s.table[s.handles[h].path].exclude
    ensures Release(s, h, env) == (Dropped(r, e, s.handles[h].path, h, s.cache), 0)
    ensures r == if Writes(s.handles[h].flags) then Taint(s, s.handles[h].path, true) else s
    ensures var e0 := s.table[s.handles[h].path];
            e == e0.(refcount := e0.refcount - 1, dirty := e.dirty, held := e.held) && !e.held
  {
    var p := s.handles[h].path;
    e := s.table[p].(refcount := s.table[p].refcount - 1);
    r := s;
    if Writes(s.handles[h].flags) {
      r, e := Taint(s, p, true), e.(dirty := false, held := false);
    }
  }

  lemma ReleaseIdleKeeps(parse: Parser, s: State, h: nat, env: ReleaseEnv)
    requires Inv(parse, s) && h in s.handles && s.handles[h].path in s.table && env.fstatOk
    requires Writes(s.handles[h].flags) ==> s.table[s.handles[h].path].exclude
    ensures var (t, ret) := Release(s, h, env); Released(parse, s, h, t, ret) && ret == 0
  {
    BeforeRelease(parse, s, h);
    var p := s.handles[h].path;
    var r, e := ReleaseIdleForm(s, h, env);
    TaintAround(s, p);
    DropReleases(parse, s, r, e, p, h, s.cache, 0);
  }

  lemma ReleaseSendingForm(s: State, h: nat, env: ReleaseEnv, r: State, ret: int)
    requires h in s.handles && s.handles[h].path in s.table && env.fstatOk && env.lseekOk
    requires var e := s.table[s.handles[h].path]; 0 <= e.fd && 0 < e.refcount && !e.exclude
    requires Writes(s.handles[h].flags)
    requires (r, ret) == Sent(s, s.handles[h].path, s.table[s.handles[h].path].fd, env)
    requires s.table[s.handles[h].path].fd in r.fds
    ensures var p := s.handles[h].path;
            var e := s.table[p].(refcount := s.table[p].refcount - 1);
            Release(s, h, env) ==
            (Dropped(Seek(r, e.fd, 0), e.(dirty := false, held := false), p, h,
                     if env.zlib then Put(r.cache, Tmp(p), env.scratch) else r.cache), ret)
  {
    var p := s.handles[h].path;
    ConcludeForm(r, p, h, s.table[p].(refcount := s.table[p].refcount - 1), env, env.zlib);
  }

  /** A release that uploads: 0 exactly when the upload got through, and then the object is the file. */
  lemma ReleaseSendingKeeps(parse: Parser, s: State, h: nat, env: ReleaseEnv)
    requires Inv(parse, s) && h in s.handles && s.handles[h].path in s.table
    requires env.fstatOk && Writes(s.handles[h].flags) && !s.table[s.handles[h].path].exclude
    requires HonestRelease(parse, s, s.handles[h].path, env)
    ensures var (t, ret) := Release(s, h, env);
            var p := s.handles[h].path;
            && Released(parse, s, h, t, ret)
            && (ret == 0 <==> p !in t.tainted)
            && (ret == 0 <==> Arrives(s, s.table[p].fd, env))
            && (ret == 0 ==>
                  Synced(parse, t, p) && TrueSize(t.remote[p], t.cache[p]) && Describes(t.remote[p].meta, env.st))
  {
    LiveHandleUsable(parse, s, h);
    var p := s.handles[h].path;
    var e := s.table[p].(refcount := s.table[p].refcount - 1);
    assert EntryInv(parse, s, p);
    SentKeeps(parse, s, p, e.fd, env);
    var (r, ret) := Sent(s, p, e.fd, env);
    ReleaseSendingForm(s, h, env, r, ret);
    var cache := if env.zlib then Put(s.cache, Tmp(p), env.scratch) else s.cache;
    DropReleases(parse, s, Seek(r, e.fd, 0), e.(dirty := false, held := false), p, h, cache, ret);
  }

  /** dfs_release keeps the invariant, never waits on the semaphore and moves no content. */
  lemma ReleaseKeeps(parse: Parser, s: State, h: nat, env: ReleaseEnv)
    requires Inv(parse, s) && h in s.handles && s.handles[h].path in s.table
    requires HonestRelease(parse, s, s.handles[h].path, env)
    ensures var (t, ret) := Release(s, h, env); Released(parse, s, h, t, ret)
  {
    if !env.fstatOk {
      ReleaseFailedKeeps(parse, s, h, env);
    } else if !Writes(s.handles[h].flags) || s.table[s.handles[h].path].exclude {
      ReleaseIdleKeeps(parse, s, h, env);
    } else {
      ReleaseSendingKeeps(parse, s, h, env);
    }
  }

  /** A writer whose release returns 0 leaves a synchronised path, unless the path is excluded. */
  lemma ReleaseSyncs(parse: Parser, s: State, h: nat, env: ReleaseEnv)
    requires Inv(parse, s) && h in s.handles && s.handles[h].path in s.table
    requires HonestRelease(parse, s, s.handles[h].path, env)
    requires Writes(s.handles[h].flags) && !s.table[s.handles[h].path].exclude
    ensures var (t, ret) := Release(s, h, env);
            ret == 0 ==> s.handles[h].path !in t.tainted && Synced(parse, t, s.handles[h].path)
  {
    if env.fstatOk {
      ReleaseSendingKeeps(parse, s, h, env);
    }
  }

  // ---- the collector ----

  /** No entry that the collector frees has a live handle, an unsettled reference or a lock. */
  lemma EvictedAreIdle(parse: Parser, s: State, env: GcEnv, p: Path)
    requires Inv(parse, s) && p in Evicted(s, env)
    ensures HandlesOf(s.handles, p) == {} && Leaks(s, p) == 0
    ensures s.table[p].onDisk == Local && p in s.cache
    ensures p !in s.tainted ==> Synced(parse, s, p)
  {
    assert EntryInv(parse, s, p);
    assert forall w :: w in s.handles && s.handles[w].path == p ==> w in HandlesOf(s.handles, p);
  }

  lemma GcSurvivor(parse: Parser, s: State, env: GcEnv, q: Path)
    requires Inv(parse, s) && q in s.table && q !in Evicted(s, env)
    ensures var t := Gc(s, env); q in t.table && t.table[q] == s.table[q] && EntryInv(parse, t, q)
    ensures View(parse, Gc(s, env), q) == View(parse, s, q)
  {
    var t := Gc(s, env);
    assert EntryInv(parse, s, q);
    forall p | p in Evicted(s, env)
      ensures 0 <= s.table[q].fd ==> s.table[p].fd != s.table[q].fd
    {
      assert EntryInv(parse, s, p);
    }
  }

  /**
   One pass keeps the invariant and drops no live handle. The content of a path moves only
   if the path was evicted while tainted.
   */
  lemma GcKeeps(parse: Parser, s: State, env: GcEnv)
    requires Inv(parse, s)
    ensures var t := Gc(s, env);
            && Inv(parse, t)
            && t.handles == s.handles && t.tainted == s.tainted
            && (forall q :: !(q in Evicted(s, env) && q in s.tainted) ==> View(parse, t, q) == View(parse, s, q))
  {
    var t := Gc(s, env);
    forall q
      ensures q in t.table ==> EntryInv(parse, t, q)
      ensures q !in t.table ==> Leaks(t, q) == 0
      ensures !(q in Evicted(s, env) && q in s.tainted) ==> View(parse, t, q) == View(parse, s, q)
    {
      if q in Evicted(s, env) {
        EvictedAreIdle(parse, s, env, q);
      } else if q in s.table {
        GcSurvivor(parse, s, env, q);
      }
    }
    forall h | h in t.handles
      ensures t.handles[h].path in t.table && t.table[t.handles[h].path].onDisk == Local
    {
      var p := s.handles[h].path;
      assert h in HandlesOf(s.handles, p);
      if p in Evicted(s, env) {
        EvictedAreIdle(parse, s, env, p);
      }
    }
  }

  /**
   An entry stays as long as it is referenced, locked or without descriptor, or while each of its
   three times is younger than the threshold, which is ten times larger for an excluded path.
   */
  predicate Stays(e: Entry, pr: Probe, threshold: int) {
    var k := if e.exclude then threshold * 10 else threshold;
    || e.refcount != 0 || e.held || e.fd == -1
    || (pr.fstatOk && !(pr.atime + k <= pr.now || pr.mtime + k <= pr.now || pr.ctime + k <= pr.now))
  }

  lemma SurvivesIff(e: Entry, pr: Probe, threshold: int)
    ensures Survives(e, pr, threshold) <==> Stays(e, pr, threshold)
  {
  }

  /**
   What one pass does to a path of the table: an entry that stays is untouched, with its file and
   its descriptor; every other one loses its cell and its descriptor, and its cache file unless
   unlink fails. The remote object is left alone.
   */
  ghost predicate Passed(s: State, env: GcEnv, t: State, p: Path)
    requires p in s.table
  {
    var e, pr := s.table[p], env.probe(p);
    && (p in t.table <==> Stays(e, pr, env.threshold))
    && (p in t.table ==>
          && t.table[p] == e && CacheOf(t, p) == CacheOf(s, p)
          && (0 <= e.fd ==> e.fd in t.fds && e.fd in s.fds && t.fds[e.fd] == s.fds[e.fd]))
    && (p !in t.table ==> e.fd !in t.fds && CacheOf(t, p) == if pr.unlinkOk then None else CacheOf(s, p))
    && t.remote == s.remote
  }

  lemma GcExactly(parse: Parser, s: State, env: GcEnv, p: Path)
    requires Inv(parse, s) && p in s.table
    ensures Passed(s, env, Gc(s, env), p)
  {
    if p !in Evicted(s, env) {
      GcSurvivor(parse, s, env, p);
      assert EntryInv(parse, s, p);
      forall q | q in Evicted(s, env)
        ensures 0 <= s.table[p].fd ==> s.table[q].fd != s.table[p].fd
      {
        assert EntryInv(parse, s, q);
      }
    }
  }

  /** The same for the whole table. */
  lemma PassExactly(parse: Parser, s: State, env: GcEnv)
    requires Inv(parse, s)
    ensures forall p :: p in s.table ==> Passed(s, env, Gc(s, env), p)
  {
    forall p | p in s.table
      ensures Passed(s, env, Gc(s, env), p)
    {
      GcExactly(parse, s, env, p);
    }
  }
}
