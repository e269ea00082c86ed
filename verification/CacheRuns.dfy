/**
 Whole runs of the cache protocol: what holds in every reachable state, and how the cached
 system compares with a plain map from paths to bytes.
 */
module CacheRuns {
  import opened Common
  import opened Codec
  import opened Metadata
  import opened Transfer
  import opened Cache
  import opened CacheInvariant

  /** One atomic step. Every outcome of foreign code is part of the operation. */
  datatype Op =
    | OpOpen(path: Path, flags: Flags, h: nat, openEnv: OpenEnv)
    | OpCreate(path: Path, flags: Flags, h: nat, createEnv: CreateEnv)
    | OpRead(h: nat, size: nat, offset: nat, fault: Option<Failure>)
    | OpWrite(h: nat, buf: Bytes, offset: nat, fault: Option<Failure>, n: nat)
    | OpRelease(h: nat, releaseEnv: ReleaseEnv)
    | OpGetattr(path: Path, attrEnv: GetattrEnv)
    | OpGc(gcEnv: GcEnv)

  datatype Outcome = Outcome(state: State, ret: int, data: Bytes)

  function Step(parse: Parser, s: State, op: Op): Outcome {
    match op
    case OpOpen(p, flags, h, env) =>
      var (t, ret) := Open(parse, s, p, flags, h, env); Outcome(t, ret, [])
    case OpCreate(p, flags, h, env) =>
      var (t, ret) := Create(parse, s, p, flags, h, env); Outcome(t, ret, [])
    case OpRead(h, size, offset, fault) =>
      if h in s.handles && s.handles[h].path in s.table then
        var (ret, data) := Read(s, h, size, offset, fault); Outcome(s, ret, data)
      else Outcome(s, -1, [])
    case OpWrite(h, buf, offset, fault, n) =>
      if h in s.handles && s.handles[h].path in s.table then
        var (t, ret) := Write(s, h, buf, offset, fault, n); Outcome(t, ret, [])
      else Outcome(s, -1, [])
    case OpRelease(h, env) =>
      if h in s.handles && s.handles[h].path in s.table then
        var (t, ret) := Release(s, h, env); Outcome(t, ret, [])
      else Outcome(s, -1, [])
    case OpGetattr(p, env) =>
      var (t, ret) := Getattr(s, p, env); Outcome(t, ret, [])
    case OpGc(env) => Outcome(Gc(s, env), 0, [])
  }

  /** What the kernel, FUSE and the libraries guarantee about the next step. */
  ghost predicate Enabled(parse: Parser, s: State, op: Op) {
    match op
    case OpOpen(p, _, h, env) =>
      FreshFd(s, env.fd) && h !in s.handles && ScratchFree(s.table.Keys + {p})
    case OpCreate(p, _, h, env) =>
      FreshFd(s, env.open.fd) && h !in s.handles && ScratchFree(s.table.Keys + {p}) && Absent(s, p)
    case OpRead(h, _, _, _) => h in s.handles
    case OpWrite(h, _, _, _, _) => h in s.handles && Writes(s.handles[h].flags)
    case OpRelease(h, env) => h in s.handles && HonestRelease(parse, s, s.handles[h].path, env)
    case OpGetattr(p, _) => ScratchFree(s.table.Keys + {p})
    case OpGc(_) => true
  }

  /** Every step keeps the invariant, returns, and never meets an unusable descriptor. */
  lemma StepKeeps(parse: Parser, s: State, op: Op)
    requires Inv(parse, s) && Enabled(parse, s, op)
    ensures var o := Step(parse, s, op);
            && Inv(parse, o.state)
            && o.ret != BLOCKED
            && (op.OpRead? ==> if op.fault.Some? then o.ret == op.fault.value else o.ret == |o.data|)
            && (op.OpWrite? ==> BLOCKED < o.ret <= |op.buf|)
  {
    match op
    case OpOpen(p, flags, h, env) => OpenKeeps(parse, s, p, flags, h, env);
    case OpCreate(p, flags, h, env) => CreateKeeps(parse, s, p, flags, h, env);
    case OpRead(h, size, offset, fault) => ReadKeeps(parse, s, h, size, offset, fault);
    case OpWrite(h, buf, offset, fault, n) => WriteKeeps(parse, s, h, buf, offset, fault, n);
    case OpRelease(h, env) => ReleaseKeeps(parse, s, h, env);
    case OpGetattr(p, env) => GetattrKeeps(parse, s, p, env);
    case OpGc(env) => GcKeeps(parse, s, env);
  }

  // ---- runs ----

  function Run(parse: Parser, s: State, ops: seq<Op>): State
    decreases |ops|
  {
    if ops == [] then s else Run(parse, Step(parse, s, ops[0]).state, ops[1..])
  }

  ghost predicate Legal(parse: Parser, s: State, ops: seq<Op>)
    decreases |ops|
  {
    ops == [] || (Enabled(parse, s, ops[0]) && Legal(parse, Step(parse, s, ops[0]).state, ops[1..]))
  }

  lemma {:induction false} RunKeeps(parse: Parser, s: State, ops: seq<Op>)
    requires Inv(parse, s) && Legal(parse, s, ops)
    ensures Inv(parse, Run(parse, s, ops))
    decreases |ops|
  {
    if ops != [] {
      StepKeeps(parse, s, ops[0]);
      RunKeeps(parse, Step(parse, s, ops[0]).state, ops[1..]);
    }
  }

  /** In every reachable state a live handle is usable, counted, and safe from the collector. */
  lemma ReachableHandles(parse: Parser, remote: map<Path, Object>, ops: seq<Op>, h: nat, env: GcEnv)
    requires Legal(parse, Mounted(remote), ops)
    requires h in Run(parse, Mounted(remote), ops).handles
    ensures var t := Run(parse, Mounted(remote), ops);
            var p := t.handles[h].path;
            && p in t.table && 0 <= t.table[p].fd && 0 < t.table[p].refcount
            && Behind(t, t.table[p].fd) == View(parse, t, p) && View(parse, t, p).Some?
            && p in Gc(t, env).table && Gc(t, env).table[p] == t.table[p]
  {
    MountedInv(parse, remote);
    RunKeeps(parse, Mounted(remote), ops);
    LiveHandleUsable(parse, Run(parse, Mounted(remote), ops), h);
  }

  // ---- the plain file system ----

  /** Files as bytes, and the path behind each open handle: no cache, no remote store. */
  datatype Plain = Plain(files: map<Path, Bytes>, open: map<nat, Path>)

  /** Which opens empty the file: any for writing that does not append, and any that may create it. */
  predicate Truncates(f: Flags) { !f.append && (f.creat || f.acc == WrOnly || f.acc == RdWr) }

  lemma TruncatesIff(f: Flags)
    ensures Truncates(f) <==> GetMode(f) == ModeCreat
    ensures GetMode(f) == ModeRdOnly <==> !f.append && !f.creat && f.acc == RdOnly
    ensures GetMode(f) != ModeWrOnly
  {
  }

  /** The same operation on the plain system, given what it returned. */
  function PlainStep(pl: Plain, op: Op, ret: int): Plain {
    match op
    case OpOpen(p, flags, h, _) =>
      if ret != 0 then pl
      else Plain(if Truncates(flags) then pl.files[p := []] else pl.files, pl.open[h := p])
    case OpCreate(p, _, h, _) =>
      if ret != 0 then pl else Plain(pl.files[p := []], pl.open[h := p])
    case OpWrite(h, buf, offset, _, _) =>
      if 0 <= ret <= |buf| && h in pl.open && pl.open[h] in pl.files then
        pl.(files := pl.files[pl.open[h] := Pwrite(pl.files[pl.open[h]], buf[..ret], offset)])
      else pl
    case OpRelease(h, _) => pl.(open := pl.open - {h})
    case _ => pl
  }

  /** What a read returns on the plain system. */
  function PlainData(pl: Plain, op: Op): Bytes {
    match op
    case OpRead(h, size, offset, fault) =>
      if fault.None? && h in pl.open && pl.open[h] in pl.files then Pread(pl.files[pl.open[h]], size, offset) else []
    case _ => []
  }

  function Lookup(files: map<Path, Bytes>, p: Path): Option<Bytes> {
    if p in files then Some(files[p]) else None
  }

  /** The two systems show the same files, outside `except`, through the same handles. */
  ghost predicate Agree(parse: Parser, s: State, pl: Plain, except: set<Path>) {
    && pl.open.Keys == s.handles.Keys
    && (forall h :: h in s.handles ==> pl.open[h] == s.handles[h].path)
    && (forall q :: q !in except ==> View(parse, s, q) == Lookup(pl.files, q))
  }

  /** The plain system after `c`, if anything, was stored under `p`, and `h`, if any, was opened on it. */
  function PlainOne(pl: Plain, p: Path, c: Option<Bytes>, h: Option<nat>): Plain {
    Plain(if c.Some? then pl.files[p := c.value] else pl.files, if h.Some? then pl.open[h.value := p] else pl.open)
  }

  lemma OnePathAgrees(parse: Parser, s: State, t: State, pl: Plain, except: set<Path>, p: Path, c: Option<Bytes>,
                      h: Option<nat>, flags: Flags)
    requires Agree(parse, s, pl, except)
    requires t.handles == if h.Some? then s.handles[h.value := Handle(p, flags)] else s.handles
    requires forall q :: q != p ==> View(parse, t, q) == View(parse, s, q)
    requires p !in except && p !in t.tainted ==> View(parse, t, p) == if c.Some? then c else View(parse, s, p)
    ensures Agree(parse, t, PlainOne(pl, p, c, h), except + t.tainted)
  {
  }

  lemma OpenAgrees(parse: Parser, s: State, pl: Plain, except: set<Path>, p: Path, flags: Flags, h: nat, env: OpenEnv)
    requires Inv(parse, s) && FreshFd(s, env.fd) && h !in s.handles && ScratchFree(s.table.Keys + {p})
    requires Agree(parse, s, pl, except)
    ensures var (t, ret) := Open(parse, s, p, flags, h, env);
            Agree(parse, t, PlainStep(pl, OpOpen(p, flags, h, env), ret), except + t.tainted)
  {
    OpenKeeps(parse, s, p, flags, h, env);
    TruncatesIff(flags);
    var (t, ret) := Open(parse, s, p, flags, h, env);
    OnePathAgrees(parse, s, t, pl, except, p, if ret == 0 && Truncates(flags) then Some([]) else None,
                  if ret == 0 then Some(h) else None, flags);
  }

  lemma CreateAgrees(parse: Parser, s: State, pl: Plain, except: set<Path>, p: Path, flags: Flags, h: nat,
                     env: CreateEnv)
    requires Inv(parse, s) && FreshFd(s, env.open.fd) && h !in s.handles && ScratchFree(s.table.Keys + {p})
    requires Absent(s, p) && Agree(parse, s, pl, except)
    ensures var (t, ret) := Create(parse, s, p, flags, h, env);
            Agree(parse, t, PlainStep(pl, OpCreate(p, flags, h, env), ret), except + t.tainted)
  {
    CreateKeeps(parse, s, p, flags, h, env);
    var (t, ret) := Create(parse, s, p, flags, h, env);
    OnePathAgrees(parse, s, t, pl, except, p, if ret == 0 then Some([]) else None,
                  if ret == 0 then Some(h) else None, flags);
  }

  lemma PlainWriteForm(parse: Parser, s: State, pl: Plain, except: set<Path>, op: Op, ret: int)
    requires Agree(parse, s, pl, except) && op.OpWrite? && op.h in s.handles && ret <= |op.buf|
    requires var p := s.handles[op.h].path; p !in except && View(parse, s, p).Some?
    ensures var p := s.handles[op.h].path;
            PlainStep(pl, op, ret) ==
            PlainOne(pl, p, if ret < 0 then None else Some(Pwrite(View(parse, s, p).value, op.buf[..ret], op.offset)),
                     None)
  {
  }

  lemma PlainWriteOther(pl: Plain, op: Op, ret: int) returns (c: Option<Bytes>)
    requires op.OpWrite? && op.h in pl.open
    ensures PlainStep(pl, op, ret) == PlainOne(pl, pl.open[op.h], c, None)
  {
    var p := pl.open[op.h];
    c := if 0 <= ret <= |op.buf| && p in pl.files then Some(Pwrite(pl.files[p], op.buf[..ret], op.offset)) else None;
  }

  lemma WriteAgrees(parse: Parser, s: State, pl: Plain, except: set<Path>, h: nat, buf: Bytes, offset: nat,
                    fault: Option<Failure>, n: nat)
    requires Inv(parse, s) && Agree(parse, s, pl, except)
    ensures h in s.handles && Writes(s.handles[h].flags) ==>
              var op := OpWrite(h, buf, offset, fault, n);
              var o := Step(parse, s, op);
              Agree(parse, o.state, PlainStep(pl, op, o.ret), except + o.state.tainted)
  {
    if h !in s.handles || !Writes(s.handles[h].flags) {
      return;
    }
    LiveHandleUsable(parse, s, h);
    WriteKeeps(parse, s, h, buf, offset, fault, n);
    var p, op := s.handles[h].path, OpWrite(h, buf, offset, fault, n);
    var (t, ret) := Write(s, h, buf, offset, fault, n);
    var c := PlainWriteOther(pl, op, ret);
    if p !in except {
      PlainWriteForm(parse, s, pl, except, op, ret);
      c := if ret < 0 then None else Some(Pwrite(View(parse, s, p).value, buf[..ret], offset));
    }
    OnePathAgrees(parse, s, t, pl, except, p, c, None, s.handles[h].flags);
  }

  /**
   Each step does to the cached system what it does to the plain one, except on paths that a
   recorded failure has hit, and each read of another path returns the plain bytes.
   */
  lemma StepAgrees(parse: Parser, s: State, pl: Plain, except: set<Path>, op: Op)
    requires Inv(parse, s) && Enabled(parse, s, op) && Agree(parse, s, pl, except)
    ensures var o := Step(parse, s, op);
            && Agree(parse, o.state, PlainStep(pl, op, o.ret), except + o.state.tainted)
            && (op.OpRead? && pl.open[op.h] !in except ==> o.data == PlainData(pl, op))
  {
    match op
    case OpOpen(p, flags, h, env) => OpenAgrees(parse, s, pl, except, p, flags, h, env);
    case OpCreate(p, flags, h, env) => CreateAgrees(parse, s, pl, except, p, flags, h, env);
    case OpRead(h, size, offset, fault) =>
      LiveHandleUsable(parse, s, h);
      ReadKeeps(parse, s, h, size, offset, fault);
    case OpWrite(h, buf, offset, fault, n) => WriteAgrees(parse, s, pl, except, h, buf, offset, fault, n);
    case OpRelease(h, env) => ReleaseKeeps(parse, s, h, env);
    case OpGetattr(p, env) => GetattrKeeps(parse, s, p, env);
    case OpGc(env) => GcKeeps(parse, s, env);
  }

  function PlainRun(parse: Parser, s: State, pl: Plain, ops: seq<Op>): Plain
    decreases |ops|
  {
    if ops == [] then pl
    else
      var o := Step(parse, s, ops[0]);
      PlainRun(parse, o.state, PlainStep(pl, ops[0], o.ret), ops[1..])
  }

  /** Every path that a recorded failure hits at some point of the run. */
  function EverTainted(parse: Parser, s: State, ops: seq<Op>): set<Path>
    decreases |ops|
  {
    s.tainted + if ops == [] then {} else EverTainted(parse, Step(parse, s, ops[0]).state, ops[1..])
  }

  /** The bytes that the reads of a run return, in order. */
  function Outputs(parse: Parser, s: State, ops: seq<Op>): seq<Bytes>
    decreases |ops|
  {
    if ops == [] then []
    else
      var o := Step(parse, s, ops[0]);
      [o.data] + Outputs(parse, o.state, ops[1..])
  }

  function PlainOutputs(parse: Parser, s: State, pl: Plain, ops: seq<Op>): seq<Bytes>
    decreases |ops|
  {
    if ops == [] then []
    else
      var o := Step(parse, s, ops[0]);
      [PlainData(pl, ops[0])] + PlainOutputs(parse, o.state, PlainStep(pl, ops[0], o.ret), ops[1..])
  }

  lemma {:induction false} RunAgreesFrom(parse: Parser, s: State, pl: Plain, except: set<Path>, ops: seq<Op>)
    requires Inv(parse, s) && Legal(parse, s, ops) && Agree(parse, s, pl, except)
    ensures Agree(parse, Run(parse, s, ops), PlainRun(parse, s, pl, ops), except + EverTainted(parse, s, ops))
    decreases |ops|
  {
    if ops != [] {
      var o := Step(parse, s, ops[0]);
      StepKeeps(parse, s, ops[0]);
      StepAgrees(parse, s, pl, except, ops[0]);
      RunAgreesFrom(parse, o.state, PlainStep(pl, ops[0], o.ret), except + o.state.tainted, ops[1..]);
    }
  }

  /** The files that a remote store holds: every object that can be decoded. */
  function FilesOf(parse: Parser, remote: map<Path, Object>): map<Path, Bytes> {
    map p | p in remote && Decode(parse, remote[p]).Some? :: Decode(parse, remote[p]).value
  }

  // ---- what the operations of a run decide ----

  /** The path that an operation works on, when it can change what that path has been through. */
  ghost predicate About(s: State, op: Op, q: Path) {
    match op
    case OpOpen(p, _, _, _) => p == q
    case OpCreate(p, _, _, _) => p == q
    case OpRelease(h, _) => h in s.handles && s.handles[h].path == q
    case _ => false
  }

  /** Remote calls, decoding and the final rename work; nothing is excluded or opened oddly. */
  predicate Clean(s: State, op: Op, ret: int) {
    match op
    case OpOpen(_, flags, _, env) =>
      env.dl.unzip.renameOk && !(GetMode(flags) == ModeCreat && flags.acc == RdOnly)
    case OpCreate(_, _, _, env) => ret == 0 && !env.exclude
    case OpRelease(h, _) =>
      h in s.handles ==>
        (s.handles[h].flags.acc == RdOnly
         || (ret == 0 && s.handles[h].path in s.table && !s.table[s.handles[h].path].exclude))
    case _ => true
  }

  /** Every open, create and release of `q` in the run is clean, whatever happens to other paths. */
  ghost predicate CleanFor(parse: Parser, s: State, ops: seq<Op>, q: Path)
    decreases |ops|
  {
    ops == [] ||
    (var o := Step(parse, s, ops[0]);
     (About(s, ops[0], q) ==> Clean(s, ops[0], o.ret)) && CleanFor(parse, o.state, ops[1..], q))
  }

  lemma CoreTaints(parse: Parser, s: State, p: Path, flags: Flags, env: OpenEnv)
    requires PathInv(parse, s, p) && FreshFd(s, env.fd) && env.dl.unzip.renameOk
    requires !(GetMode(flags) == ModeCreat && flags.acc == RdOnly)
    ensures OpenCore(parse, s, p, flags, env).s.tainted <= s.tainted
  {
    if GetMode(flags) == ModeCreat {
      OpenCreatKeeps(parse, s, p, flags, env);
    } else if 0 <= EntryAt(s, p).fd {
      ReuseKeeps(parse, s, p, flags, env);
    } else {
      DownloadKeeps(parse, s, p, flags, env);
    }
  }

  lemma RegisterTaints(r: OpenResult, p: Path, flags: Flags, h: nat)
    ensures Register(r, p, flags, h).0.tainted == r.s.tainted
  {
  }

  lemma OpenTaints(parse: Parser, s: State, p: Path, flags: Flags, h: nat, env: OpenEnv, q: Path)
    requires Inv(parse, s) && FreshFd(s, env.fd) && q !in s.tainted
    requires p == q ==> Clean(s, OpOpen(p, flags, h, env), 0)
    ensures q !in Open(parse, s, p, flags, h, env).0.tainted
  {
    InvAt(parse, s, p);
    OpenCoreKeeps(parse, s, p, flags, env);
    if p == q {
      CoreTaints(parse, s, p, flags, env);
    }
    RegisterTaints(OpenCore(parse, s, p, flags, env), p, flags, h);
  }

  lemma CreateOpenedTaints(r: OpenResult, p: Path, flags: Flags, h: nat, env: CreateEnv)
    ensures var (t, ret) := CreateOpened(r, p, flags, h, env);
            && t.tainted <= r.s.tainted + {p}
            && (ret == 0 && !env.exclude ==> p !in t.tainted)
  {
  }

  lemma CreateTaints(parse: Parser, s: State, p: Path, flags: Flags, h: nat, env: CreateEnv, q: Path)
    requires Inv(parse, s) && FreshFd(s, env.open.fd) && q !in s.tainted
    requires p == q ==> Create(parse, s, p, flags, h, env).1 == 0 && !env.exclude
    ensures q !in Create(parse, s, p, flags, h, env).0.tainted
  {
    OpenCoreKeeps(parse, s, p, flags, env.open);
    CreateOpenedTaints(OpenCore(parse, s, p, flags, env.open), p, flags, h, env);
  }

  lemma SentTaints(s: State, p: Path, fd: int, env: ReleaseEnv)
    ensures Sent(s, p, fd, env).0.tainted <= s.tainted + {p}
  {
  }

  lemma ConcludeTaints(s: State, p: Path, h: nat, e: Entry, env: ReleaseEnv, scratch: bool)
    ensures Conclude(s, p, h, e, env, scratch).tainted == s.tainted
  {
  }

  lemma ReleaseTaintsOne(s: State, h: nat, env: ReleaseEnv)
    requires h in s.handles && s.handles[h].path in s.table
    requires var e := s.table[s.handles[h].path]; 0 <= e.fd && 0 < e.refcount
    ensures var t := Release(s, h, env).0;
            && t.tainted <= s.tainted + {s.handles[h].path}
            && (!Writes(s.handles[h].flags) ==> t.tainted == s.tainted)
  {
    var p, e := s.handles[h].path, s.table[s.handles[h].path];
    if !env.fstatOk {
      var r := Leak(if s.handles[h].flags.acc == RdOnly then s else Taint(s, p, true), p);
      ConcludeTaints(r, p, h, e, env, false);
    } else if Writes(s.handles[h].flags) && !e.exclude {
      SentTaints(s, p, e.fd, env);
      ConcludeTaints(Sent(s, p, e.fd, env).0, p, h, e.(refcount := e.refcount - 1), env, env.zlib);
    }
  }

  lemma ReleaseTaints(parse: Parser, s: State, h: nat, env: ReleaseEnv, q: Path)
    requires Inv(parse, s) && Enabled(parse, s, OpRelease(h, env)) && q !in s.tainted
    requires s.handles[h].path in s.table
    requires s.handles[h].path == q ==> Clean(s, OpRelease(h, env), Release(s, h, env).1)
    ensures q !in Release(s, h, env).0.tainted
  {
    LiveHandleUsable(parse, s, h);
    ReleaseTaintsOne(s, h, env);
    if s.handles[h].path == q && Writes(s.handles[h].flags) {
      ReleaseSendingKeeps(parse, s, h, env);
    }
  }

  /** A step taints no path that it is not about, and none that it treats cleanly. */
  lemma StepTaints(parse: Parser, s: State, op: Op, q: Path)
    requires Inv(parse, s) && Enabled(parse, s, op) && q !in s.tainted
    requires About(s, op, q) ==> Clean(s, op, Step(parse, s, op).ret)
    ensures q !in Step(parse, s, op).state.tainted
  {
    match op
    case OpOpen(p, flags, h, env) => OpenTaints(parse, s, p, flags, h, env, q);
    case OpCreate(p, flags, h, env) => CreateTaints(parse, s, p, flags, h, env, q);
    case OpRead(h, size, offset, fault) =>
    case OpWrite(h, buf, offset, fault, n) =>
      LiveHandleUsable(parse, s, h);
      WriteKeeps(parse, s, h, buf, offset, fault, n);
    case OpRelease(h, env) =>
      LiveHandleUsable(parse, s, h);
      ReleaseTaints(parse, s, h, env, q);
    case OpGetattr(p, env) => GetattrKeeps(parse, s, p, env);
    case OpGc(env) =>
  }

  lemma {:induction false} CleanForUntainted(parse: Parser, s: State, ops: seq<Op>, q: Path)
    requires Inv(parse, s) && Legal(parse, s, ops) && CleanFor(parse, s, ops, q) && q !in s.tainted
    ensures q !in EverTainted(parse, s, ops) && q !in Run(parse, s, ops).tainted
    decreases |ops|
  {
    if ops != [] {
      StepKeeps(parse, s, ops[0]);
      StepTaints(parse, s, ops[0], q);
      CleanForUntainted(parse, Step(parse, s, ops[0]).state, ops[1..], q);
    }
  }

  /** A failed open or create keeps the reference it took; a release that fails early gives none back. */
  predicate LosesReference(s: State, op: Op, ret: int, q: Path) {
    match op
    case OpOpen(p, _, _, _) => p == q && ret != 0
    case OpCreate(p, _, _, env) => p == q && ret != 0 && env.isReg && (env.exclude || env.nameiOk)
    case OpRelease(h, env) => h in s.handles && s.handles[h].path == q && !env.fstatOk
    case _ => false
  }

  /** The number of such operations on `q` in a run. */
  function Lost(parse: Parser, s: State, ops: seq<Op>, q: Path): nat
    decreases |ops|
  {
    if ops == [] then 0
    else
      var o := Step(parse, s, ops[0]);
      (if LosesReference(s, ops[0], o.ret, q) then 1 else 0) + Lost(parse, o.state, ops[1..], q)
  }

  lemma LeakCounts(s: State, p: Path, q: Path)
    ensures Leaks(Leak(s, p), q) == Leaks(s, q) + if p == q then 1 else 0
  {
  }

  lemma CreateRemoteLeaks(s: State, p: Path, flags: Flags, h: nat, env: CreateEnv, q: Path)
    ensures var (t, ret) := CreateRemote(s, p, flags, h, env);
            Leaks(t, q) == Leaks(s, q) + if p == q && ret != 0 then 1 else 0
  {
  }

  lemma CreateOpenedLeaks(r: OpenResult, p: Path, flags: Flags, h: nat, env: CreateEnv, q: Path)
    ensures var (t, ret) := CreateOpened(r, p, flags, h, env);
            ret != BLOCKED ==> Leaks(t, q) == Leaks(r.s, q) + if p == q && ret != 0 then 1 else 0
  {
    var e := r.e.(exclude := env.exclude);
    if r.ret != 0 {
      LeakCounts(SetEntry(r.s, p, r.e), p, q);
    } else if CreateFault(e, env) != 0 {
      LeakCounts(Taint(SetEntry(r.s, p, e), p, true), p, q);
    } else {
      CreateRemoteLeaks(SetEntry(r.s, p, e.(usermd := Some(CreateMeta(e, env)))), p, flags, h, env, q);
    }
  }

  lemma ConcludeLeaks(s: State, p: Path, h: nat, e: Entry, env: ReleaseEnv, scratch: bool)
    ensures Conclude(s, p, h, e, env, scratch).leaks == s.leaks
  {
  }

  lemma ReleaseLeaks(parse: Parser, s: State, h: nat, env: ReleaseEnv, q: Path)
    requires Inv(parse, s) && h in s.handles && s.handles[h].path in s.table
    ensures var p := s.handles[h].path;
            Leaks(Release(s, h, env).0, q) == Leaks(s, q) + if p == q && !env.fstatOk then 1 else 0
  {
    LiveHandleUsable(parse, s, h);
    var p, e := s.handles[h].path, s.table[s.handles[h].path];
    if !env.fstatOk {
      var r := if s.handles[h].flags.acc == RdOnly then s else Taint(s, p, true);
      LeakCounts(r, p, q);
      ConcludeLeaks(Leak(r, p), p, h, e, env, false);
    } else if Writes(s.handles[h].flags) && !e.exclude {
      SentLeaks(s, p, e.fd, env);
      ConcludeLeaks(Sent(s, p, e.fd, env).0, p, h, e.(refcount := e.refcount - 1), env, env.zlib);
    }
  }

  lemma SentLeaks(s: State, p: Path, fd: int, env: ReleaseEnv)
    ensures Sent(s, p, fd, env).0.leaks == s.leaks
  {
  }

  lemma OpenLeaks(parse: Parser, s: State, p: Path, flags: Flags, h: nat, env: OpenEnv, q: Path)
    requires Inv(parse, s) && FreshFd(s, env.fd)
    ensures var (t, ret) := Open(parse, s, p, flags, h, env);
            Leaks(t, q) == Leaks(s, q) + if p == q && ret != 0 then 1 else 0
  {
    OpenCoreKeeps(parse, s, p, flags, env);
    var r := OpenCore(parse, s, p, flags, env);
    LeakCounts(SetEntry(r.s, p, r.e), p, q);
  }

  lemma CreateLeaks(parse: Parser, s: State, p: Path, flags: Flags, h: nat, env: CreateEnv, q: Path)
    requires Inv(parse, s) && Enabled(parse, s, OpCreate(p, flags, h, env))
    ensures var (t, ret) := Create(parse, s, p, flags, h, env);
            Leaks(t, q) == Leaks(s, q) + if LosesReference(s, OpCreate(p, flags, h, env), ret, q) then 1 else 0
  {
    OpenCoreKeeps(parse, s, p, flags, env.open);
    CreateKeeps(parse, s, p, flags, h, env);
    CreateOpenedLeaks(OpenCore(parse, s, p, flags, env.open), p, flags, h, env, q);
  }

  lemma StepLeaks(parse: Parser, s: State, op: Op, q: Path)
    requires Inv(parse, s) && Enabled(parse, s, op)
    ensures var o := Step(parse, s, op);
            Leaks(o.state, q) == Leaks(s, q) + if LosesReference(s, op, o.ret, q) then 1 else 0
  {
    match op
    case OpOpen(p, flags, h, env) => OpenLeaks(parse, s, p, flags, h, env, q);
    case OpCreate(p, flags, h, env) => CreateLeaks(parse, s, p, flags, h, env, q);
    case OpRead(h, size, offset, fault) =>
    case OpWrite(h, buf, offset, fault, n) =>
      LiveHandleUsable(parse, s, h);
      WriteKeeps(parse, s, h, buf, offset, fault, n);
    case OpRelease(h, env) =>
      LiveHandleUsable(parse, s, h);
      ReleaseLeaks(parse, s, h, env, q);
    case OpGetattr(p, env) => GetattrKeeps(parse, s, p, env);
    case OpGc(env) =>
  }

  lemma {:induction false} RunLeaks(parse: Parser, s: State, ops: seq<Op>, q: Path)
    requires Inv(parse, s) && Legal(parse, s, ops)
    ensures Leaks(Run(parse, s, ops), q) == Leaks(s, q) + Lost(parse, s, ops, q)
    decreases |ops|
  {
    if ops != [] {
      StepKeeps(parse, s, ops[0]);
      StepLeaks(parse, s, ops[0], q);
      RunLeaks(parse, Step(parse, s, ops[0]).state, ops[1..], q);
    }
  }

  // ---- every reachable state ----

  /**
   In every state that any run over any remote store reaches, for every entry: it is local
   exactly when it has a descriptor, and then the descriptor is on its cache file at offset 0;
   a remote entry has its metadata; both mutexes are free; its reference count is its live
   handles plus the opens, creates and releases of the run that lost a reference to it; and a
   local file that nobody can write is what its object decodes to, unless the path is tainted,
   which it cannot be if every open, create and release of it was clean.
   */
  lemma ReachableStates(parse: Parser, remote: map<Path, Object>, ops: seq<Op>, p: Path)
    requires Legal(parse, Mounted(remote), ops)
    ensures var t := Run(parse, Mounted(remote), ops);
            p in t.table ==>
              var e := t.table[p];
              && (e.onDisk == Local <==> 0 <= e.fd)
              && (e.onDisk == Local ==>
                    p in t.cache && e.fd in t.fds && t.fds[e.fd].path == p && t.fds[e.fd].offset == 0)
              && (e.onDisk == Remote ==> e.usermd.Some?)
              && !e.mdHeld && !e.held
              && e.refcount == Live(t.handles, p) + Lost(parse, Mounted(remote), ops, p)
              && (e.onDisk == Local && !HasWriter(t.handles, p) && p !in t.tainted ==> Synced(parse, t, p))
    ensures CleanFor(parse, Mounted(remote), ops, p) ==> p !in Run(parse, Mounted(remote), ops).tainted
  {
    MountedInv(parse, remote);
    RunKeeps(parse, Mounted(remote), ops);
    RunLeaks(parse, Mounted(remote), ops, p);
    if CleanFor(parse, Mounted(remote), ops, p) {
      CleanForUntainted(parse, Mounted(remote), ops, p);
    }
    var t := Run(parse, Mounted(remote), ops);
    if p in t.table {
      assert EntryInv(parse, t, p);
    }
  }

  // ---- coherence, path by path ----

  /** What the reads of `q` return in a run, in order. */
  function ReadsOf(parse: Parser, s: State, ops: seq<Op>, q: Path): seq<Bytes>
    decreases |ops|
  {
    if ops == [] then []
    else
      var o := Step(parse, s, ops[0]);
      (if Reads(s, ops[0], q) then [o.data] else []) + ReadsOf(parse, o.state, ops[1..], q)
  }

  predicate Reads(s: State, op: Op, q: Path) { op.OpRead? && op.h in s.handles && s.handles[op.h].path == q }

  /** What the same reads return on the plain system. */
  function PlainReadsOf(parse: Parser, s: State, pl: Plain, ops: seq<Op>, q: Path): seq<Bytes>
    decreases |ops|
  {
    if ops == [] then []
    else
      var o := Step(parse, s, ops[0]);
      (if Reads(s, ops[0], q) then [PlainData(pl, ops[0])] else [])
      + PlainReadsOf(parse, o.state, PlainStep(pl, ops[0], o.ret), ops[1..], q)
  }

  lemma {:induction false} ReadsAgree(parse: Parser, s: State, pl: Plain, except: set<Path>, ops: seq<Op>, q: Path)
    requires Inv(parse, s) && Legal(parse, s, ops) && Agree(parse, s, pl, except)
    requires q !in except && q !in EverTainted(parse, s, ops)
    ensures ReadsOf(parse, s, ops, q) == PlainReadsOf(parse, s, pl, ops, q)
    decreases |ops|
  {
    if ops != [] {
      var o := Step(parse, s, ops[0]);
      StepKeeps(parse, s, ops[0]);
      StepAgrees(parse, s, pl, except, ops[0]);
      assert q !in o.state.tainted;
      ReadsAgree(parse, o.state, PlainStep(pl, ops[0], o.ret), except + o.state.tainted, ops[1..], q);
    }
  }

  /**
   Coherence of one path from a state in which its cache file and its object agree. If every open,
   create and release of `q` from there on is clean, then, whatever fails on other paths, the
   cached system and a plain one that starts with the same files contain the same bytes under `q`,
   every read of `q` returned the plain bytes, and a local file that nobody can write is exactly
   what its remote object decodes to.
   */
  lemma CoherentFrom(parse: Parser, s: State, pl: Plain, ops: seq<Op>, q: Path)
    requires Inv(parse, s) && Agree(parse, s, pl, {}) && q !in s.tainted
    requires Legal(parse, s, ops) && CleanFor(parse, s, ops, q)
    ensures Coherent(parse, s, pl, ops, q)
  {
    RunKeeps(parse, s, ops);
    CleanForUntainted(parse, s, ops, q);
    RunAgreesFrom(parse, s, pl, {}, ops);
    ReadsAgree(parse, s, pl, {}, ops, q);
    var t := Run(parse, s, ops);
    if q in t.table {
      assert EntryInv(parse, t, q);
    }
  }

  /** After the run the path is what it is on the plain system, for readers and for the remote store. */
  ghost predicate Coherent(parse: Parser, s: State, pl: Plain, ops: seq<Op>, q: Path) {
    var t := Run(parse, s, ops);
    && View(parse, t, q) == Lookup(PlainRun(parse, s, pl, ops).files, q)
    && ReadsOf(parse, s, ops, q) == PlainReadsOf(parse, s, pl, ops, q)
    && (q in t.table && t.table[q].onDisk == Local && !HasWriter(t.handles, q) ==> Synced(parse, t, q))
  }

  /** A path that the whole run treats cleanly is coherent, whatever happens to other paths. */
  lemma CleanPathIsCoherent(parse: Parser, remote: map<Path, Object>, ops: seq<Op>, q: Path)
    requires Legal(parse, Mounted(remote), ops) && CleanFor(parse, Mounted(remote), ops, q)
    ensures Coherent(parse, Mounted(remote), Plain(FilesOf(parse, remote), map[]), ops, q)
  {
    var s, pl := Mounted(remote), Plain(FilesOf(parse, remote), map[]);
    MountedInv(parse, remote);
    assert Agree(parse, s, pl, {});
    CoherentFrom(parse, s, pl, ops, q);
  }

  /** The plain system that shows what the cached one shows now. */
  function Shown(parse: Parser, s: State): Plain {
    Plain(map p | p in s.table.Keys + s.remote.Keys && View(parse, s, p).Some? :: View(parse, s, p).value,
          map h | h in s.handles :: s.handles[h].path)
  }

  lemma ShownAgrees(parse: Parser, s: State)
    ensures Agree(parse, s, Shown(parse, s), {})
  {
  }

  /** A writer's release that uploads and returns 0. */
  ghost predicate UploadedBy(parse: Parser, s: State, h: nat, env: ReleaseEnv) {
    && Enabled(parse, s, OpRelease(h, env)) && Writes(s.handles[h].flags)
    && s.handles[h].path in s.table && !s.table[s.handles[h].path].exclude
    && Release(s, h, env).1 == 0
  }

  lemma UploadedSettles(parse: Parser, s: State, h: nat, env: ReleaseEnv)
    requires Inv(parse, s)
    ensures UploadedBy(parse, s, h, env) ==>
              Inv(parse, Release(s, h, env).0) && s.handles[h].path !in Release(s, h, env).0.tainted
  {
    if UploadedBy(parse, s, h, env) {
      ReleaseKeeps(parse, s, h, env);
      ReleaseSyncs(parse, s, h, env);
    }
  }

  /** The run `after`, once `h` has been released from `s`, is coherent on the path that was uploaded. */
  lemma CoherentAfterUpload(parse: Parser, s: State, h: nat, env: ReleaseEnv, after: seq<Op>)
    requires Inv(parse, s)
    ensures UploadedBy(parse, s, h, env) ==>
              var p, t := s.handles[h].path, Release(s, h, env).0;
              Legal(parse, t, after) && CleanFor(parse, t, after, p) ==> Coherent(parse, t, Shown(parse, t), after, p)
  {
    if UploadedBy(parse, s, h, env) {
      UploadedSettles(parse, s, h, env);
      CoherentFromShown(parse, Release(s, h, env).0, after, s.handles[h].path);
    }
  }

  lemma CoherentFromShown(parse: Parser, s: State, ops: seq<Op>, q: Path)
    requires Inv(parse, s) && q !in s.tainted
    ensures Legal(parse, s, ops) && CleanFor(parse, s, ops, q) ==> Coherent(parse, s, Shown(parse, s), ops, q)
  {
    if Legal(parse, s, ops) && CleanFor(parse, s, ops, q) {
      ShownAgrees(parse, s);
      CoherentFrom(parse, s, Shown(parse, s), ops, q);
    }
  }

  /**
   A successful upload makes up for every failure before it: whatever the run `before` did to a
   path, after a writer's release that returns 0 the path is coherent from there on.
   */
  lemma UploadMakesUp(parse: Parser, remote: map<Path, Object>, before: seq<Op>, h: nat, env: ReleaseEnv,
                      after: seq<Op>)
    requires Legal(parse, Mounted(remote), before)
    ensures var s := Run(parse, Mounted(remote), before);
            UploadedBy(parse, s, h, env) ==>
              var p, t := s.handles[h].path, Release(s, h, env).0;
              Legal(parse, t, after) && CleanFor(parse, t, after, p) ==> Coherent(parse, t, Shown(parse, t), after, p)
  {
    MountedInv(parse, remote);
    RunKeeps(parse, Mounted(remote), before);
    CoherentAfterUpload(parse, Run(parse, Mounted(remote), before), h, env, after);
  }

  /** Every operation of the run is clean. */
  ghost predicate CleanRun(parse: Parser, s: State, ops: seq<Op>)
    decreases |ops|
  {
    ops == [] ||
    (var o := Step(parse, s, ops[0]);
     Clean(s, ops[0], o.ret) && CleanRun(parse, o.state, ops[1..]))
  }

  lemma CleanStepAgrees(parse: Parser, s: State, pl: Plain, op: Op, o: Outcome)
    requires Inv(parse, s) && Enabled(parse, s, op) && s.tainted == {} && Agree(parse, s, pl, {})
    requires o == Step(parse, s, op) && Clean(s, op, o.ret)
    ensures Inv(parse, o.state) && o.state.tainted == {}
    ensures Agree(parse, o.state, PlainStep(pl, op, o.ret), {})
    ensures o.data == PlainData(pl, op)
  {
    StepKeeps(parse, s, op);
    forall q
      ensures q !in o.state.tainted
    {
      StepTaints(parse, s, op, q);
    }
    StepAgrees(parse, s, pl, {}, op);
    assert {} + o.state.tainted == {};
    if !op.OpRead? {
      NonReadsAreSilent(parse, s, pl, op);
    }
  }

  lemma NonReadsAreSilent(parse: Parser, s: State, pl: Plain, op: Op)
    requires !op.OpRead?
    ensures Step(parse, s, op).data == [] == PlainData(pl, op)
  {
  }

  lemma {:induction false} CleanOutputs(parse: Parser, s: State, pl: Plain, ops: seq<Op>)
    requires Inv(parse, s) && Legal(parse, s, ops) && CleanRun(parse, s, ops) && s.tainted == {}
    requires Agree(parse, s, pl, {})
    ensures Outputs(parse, s, ops) == PlainOutputs(parse, s, pl, ops)
    decreases |ops|
  {
    if ops != [] {
      var o := Step(parse, s, ops[0]);
      CleanStepAgrees(parse, s, pl, ops[0], o);
      CleanOutputs(parse, o.state, PlainStep(pl, ops[0], o.ret), ops[1..]);
    }
  }

  lemma {:induction false} CleanRunIsCleanFor(parse: Parser, s: State, ops: seq<Op>, q: Path)
    requires CleanRun(parse, s, ops)
    ensures CleanFor(parse, s, ops, q)
    decreases |ops|
  {
    if ops != [] {
      CleanRunIsCleanFor(parse, Step(parse, s, ops[0]).state, ops[1..], q);
    }
  }

  /**
   Coherence: after any run in which remote calls succeed, every local file that nobody can
   write is exactly what its remote object decodes to, and every operation of the run returned
   the bytes that it returns on the plain map from paths to bytes.
   */
  lemma CleanRunsAreCoherent(parse: Parser, remote: map<Path, Object>, ops: seq<Op>)
    requires Legal(parse, Mounted(remote), ops) && CleanRun(parse, Mounted(remote), ops)
    ensures var t := Run(parse, Mounted(remote), ops);
            forall p :: p in t.table && t.table[p].onDisk == Local && !HasWriter(t.handles, p) ==> Synced(parse, t, p)
    ensures Outputs(parse, Mounted(remote), ops)
            == PlainOutputs(parse, Mounted(remote), Plain(FilesOf(parse, remote), map[]), ops)
  {
    var s, pl := Mounted(remote), Plain(FilesOf(parse, remote), map[]);
    MountedInv(parse, remote);
    assert Agree(parse, s, pl, {});
    CleanOutputs(parse, s, pl, ops);
    var t := Run(parse, s, ops);
    forall p | p in t.table && t.table[p].onDisk == Local && !HasWriter(t.handles, p)
      ensures Synced(parse, t, p)
    {
      CleanRunIsCleanFor(parse, s, ops, p);
      CleanPathIsCoherent(parse, remote, ops, p);
    }
  }
}
