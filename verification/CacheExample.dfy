/**
 Concrete runs, to show that the hypotheses on runs can be met: a whole life of one file, with a
 compressed upload, and a file that is read first and appended to afterwards.
 */
module CacheExample {
  import opened Common
  import opened Codec
  import opened Metadata
  import opened Transfer
  import opened Cache
  import opened CacheInvariant
  import opened CacheRuns
  import CacheFindings
  import CodecWitness

  const P: Path := "/a"
  const ST: Stat := Stat(0, 1, 0, 0, 0, 0, 0)
  const UNZIP: UnzipEnv := UnzipEnv(true, true, false, [], true, true, true)
  const DOWNLOAD: DownloadEnv := DownloadEnv(true, true, map[], None, true, true, true, true, [], UNZIP, true, true)
  const FLAGS: Flags := Flags(false, true, RdWr)
  const READER: Flags := Flags(false, false, RdOnly)
  const APPENDER: Flags := Flags(true, false, WrOnly)
  const CREATE: CreateEnv := CreateEnv(true, false, true, OpenEnv(true, 3, DOWNLOAD), None, None, ST, 0, true, None)
  const SEND: SendEnv := SendEnv(_ => 100, _ => false, _ => false)
  const COLLECT: GcEnv := GcEnv(900, (p: Path) => Probe(true, 0, 0, 0, 1000, true))

  /** A release that uploads the stream `z` in place of the file. */
  function ReleaseTo(z: Bytes): ReleaseEnv {
    ReleaseEnv(true, ST, true, CompressEnv(true, true, Some(z), 5, true, true), true, SEND, true, None, true, None)
  }

  /** Create, write one byte, release with a compressed upload, collect, open again, read. */
  const OP_CREATE: Op := OpCreate(P, FLAGS, 0, CREATE)
  const OP_WRITE: Op := OpWrite(0, [7], 0, None, 1)
  const OP_GC: Op := OpGc(COLLECT)
  const OP_OPEN: Op := OpOpen(P, READER, 1, OpenEnv(true, 4, DOWNLOAD))
  const OP_READ: Op := OpRead(1, 10, 0, None)

  function Life(z: Bytes): seq<Op> {
    [OP_CREATE, OP_WRITE, OpRelease(0, ReleaseTo(z)), OP_GC, OP_OPEN, OP_READ]
  }

  // ---- the states on the way ----

  const NEW_META: Dict := FillMetadataFromStat(map[], ST)["mode" := ToText(ToULong(0))]
  const OPENED: Entry := NEW_ENTRY.(refcount := 1, fd := 3, onDisk := Local, usermd := Some(NEW_META))
  const REOPENED: Entry := NEW_ENTRY.(refcount := 1, fd := 4, onDisk := Local, usermd := Some(map[]))

  function Uploaded(z: Bytes): Object {
    Object(z, |z|, FillMetadataFromStat(map[], ST)[COMPRESSION := ZLIB])
  }

  const S1: State := State(map[P := OPENED], map[P := []], map[3 := Desc(P, 0, true)], map[P := EMPTY_OBJECT],
                           map[0 := Handle(P, FLAGS)], map[], {})
  const S2: State := S1.(cache := map[P := [7]])

  function S3(z: Bytes): State {
    S2.(table := map[P := OPENED.(refcount := 0, dirty := false)], remote := map[P := Uploaded(z)], handles := map[])
  }

  function S4(z: Bytes): State { State(map[], map[], map[], map[P := Uploaded(z)], map[], map[], {}) }

  function S5(z: Bytes): State {
    State(map[P := REOPENED], map[P := [7]], map[4 := Desc(P, 0, false)], map[P := Uploaded(z)],
          map[1 := Handle(P, READER)], map[], {})
  }

  /** `op` may be done in `s`, is clean, leads to `t` and returns `data`. */
  ghost predicate Goes(parse: Parser, s: State, op: Op, t: State, ret: int, data: Bytes) {
    Enabled(parse, s, op) && CacheRuns.Step(parse, s, op) == Outcome(t, ret, data) && Clean(s, op, ret)
  }

  lemma Created(parse: Parser)
    ensures Goes(parse, Mounted(map[]), OP_CREATE, S1, 0, [])
  {
    assert {} + {P} == {P};
  }

  lemma Written(parse: Parser)
    ensures Goes(parse, S1, OP_WRITE, S2, 1, [])
  {
    assert Pwrite([], [7][..1], 0) == [7];
  }

  lemma SentPacked(parse: Parser, z: Bytes)
    requires Encodes(parse, z, [7])
    ensures Sent(S2, P, 3, ReleaseTo(z)) == (S2.(remote := map[P := Uploaded(z)]), 0)
  {
    var env := ReleaseTo(z);
    var out := Outgoing(S2, 3, env);
    assert out == Some(Payload(z, |z|, FillMetadataFromStat(map[], ST)[COMPRESSION := ZLIB], true));
    SendBlocksWhole(z, 0, SEND, 0);
    assert Transmit(S2, 3, out.value, env).sent == z;
    assert S2.remote[P := Uploaded(z)] == map[P := Uploaded(z)];
    assert S2.tainted - {P} == {};
  }

  lemma Released(parse: Parser, z: Bytes)
    requires Encodes(parse, z, [7])
    ensures Goes(parse, S2, OpRelease(0, ReleaseTo(z)), S3(z), 0, [])
  {
    SentPacked(parse, z);
    assert S2.fds[3 := S2.fds[3].(offset := 0)] == S2.fds;
    assert S2.handles - {0} == map[];
    assert Put(S2.cache, Tmp(P), None) == S2.cache;
  }

  lemma Collected(parse: Parser, z: Bytes)
    ensures Goes(parse, S3(z), OP_GC, S4(z), 0, [])
  {
    var s := S3(z);
    assert Evicted(s, COLLECT) == {P};
    assert (set p | p in {P} && COLLECT.probe(p).unlinkOk) == {P};
    assert (set p | p in {P} :: s.table[p].fd) == {3};
  }

  lemma Reopened(parse: Parser, z: Bytes)
    requires Encodes(parse, z, [7])
    ensures Goes(parse, S4(z), OP_OPEN, S5(z), 0, [])
  {
    var s := S4(z);
    var o := Uploaded(z);
    assert {} + {P} == {P};
    assert ZLIB[0] != NONE[0];
    assert HandleCompression(parse, o, None, UNZIP) == Unpacked(0, [7], None);
    assert Put(map[P := [7]], Tmp(P), None) == map[P := [7]];
    assert s.cache[P := [7]] == map[P := [7]];
  }

  lemma ReadAgain(parse: Parser, z: Bytes)
    ensures Goes(parse, S5(z), OP_READ, S5(z), 1, [7])
  {
    assert Pread([7], 10, 0) == [7];
  }

  /** One more step in front of a run that is legal and clean. */
  lemma Before(parse: Parser, s: State, op: Op, t: State, ret: int, data: Bytes, ops: seq<Op>)
    requires Goes(parse, s, op, t, ret, data) && Legal(parse, t, ops) && CleanRun(parse, t, ops)
    ensures Legal(parse, s, [op] + ops) && CleanRun(parse, s, [op] + ops)
    ensures Outputs(parse, s, [op] + ops) == [data] + Outputs(parse, t, ops)
  {
    assert ([op] + ops)[1..] == ops;
  }

  /** The operations lead from each state to the next. */
  ghost predicate Leads(parse: Parser, s: seq<State>, ops: seq<Op>, rets: seq<int>, outs: seq<Bytes>) {
    && |ops| == |rets| == |outs| && |s| == |ops| + 1
    && forall i :: 0 <= i < |ops| ==> Goes(parse, s[i], ops[i], s[i + 1], rets[i], outs[i])
  }

  lemma {:induction false} Steps(parse: Parser, s: seq<State>, ops: seq<Op>, rets: seq<int>, outs: seq<Bytes>)
    requires Leads(parse, s, ops, rets, outs)
    ensures Legal(parse, s[0], ops) && CleanRun(parse, s[0], ops) && Outputs(parse, s[0], ops) == outs
    decreases |ops|
  {
    if ops != [] {
      assert Goes(parse, s[0], ops[0], s[1], rets[0], outs[0]);
      Steps(parse, s[1..], ops[1..], rets[1..], outs[1..]);
      Before(parse, s[0], ops[0], s[1], rets[0], outs[0], ops[1..]);
      assert ops == [ops[0]] + ops[1..] && outs == [outs[0]] + outs[1..];
    }
  }

  function States(z: Bytes): seq<State> { [Mounted(map[]), S1, S2, S3(z), S4(z), S5(z), S5(z)] }

  const RETS: seq<int> := [0, 1, 0, 0, 0, 1]
  const OUTS: seq<Bytes> := [[], [], [], [], [], [7]]

  lemma FirstSteps(parse: Parser, z: Bytes, i: nat)
    requires Encodes(parse, z, [7]) && i < 3
    ensures Goes(parse, States(z)[i], Life(z)[i], States(z)[i + 1], RETS[i], OUTS[i])
  {
    match i
    case 0 => Created(parse);
    case 1 => Written(parse);
    case 2 => Released(parse, z);
  }

  lemma LastSteps(parse: Parser, z: Bytes, i: nat)
    requires Encodes(parse, z, [7]) && 3 <= i < 6
    ensures Goes(parse, States(z)[i], Life(z)[i], States(z)[i + 1], RETS[i], OUTS[i])
  {
    match i
    case 3 => Collected(parse, z);
    case 4 => Reopened(parse, z);
    case 5 => ReadAgain(parse, z);
  }

  /** The whole run is legal and clean, and what it reads at the end is the byte written at the start. */
  lemma LifeIsLegalAndClean(parse: Parser, z: Bytes)
    requires Encodes(parse, z, [7])
    ensures Legal(parse, Mounted(map[]), Life(z)) && CleanRun(parse, Mounted(map[]), Life(z))
    ensures Outputs(parse, Mounted(map[]), Life(z)) == OUTS
  {
    forall i | 0 <= i < 6
      ensures Goes(parse, States(z)[i], Life(z)[i], States(z)[i + 1], RETS[i], OUTS[i])
    {
      if i < 3 {
        FirstSteps(parse, z, i);
      } else {
        LastSteps(parse, z, i);
      }
    }
    Steps(parse, States(z), Life(z), RETS, OUTS);
  }

  /** With the codec of `CodecWitness` there is such a run. */
  lemma SomeLife() returns (z: Bytes)
    ensures Legal(CodecWitness.Parse, Mounted(map[]), Life(z)) && CleanRun(CodecWitness.Parse, Mounted(map[]), Life(z))
  {
    z := CodecWitness.Encode([7]) + [1];
    CodecWitness.ParseEncode([7]);
    LifeIsLegalAndClean(CodecWitness.Parse, z);
  }

  // ---- a file that is read first ----

  /** A store with one object that is not compressed. */
  const REMOTE: map<Path, Object> := map[P := Object([7], 1, map[])]
  const OP_APPEND: Op := OpOpen(P, APPENDER, 2, OpenEnv(true, 5, DOWNLOAD))
  const OP_EXTEND: Op := OpWrite(2, [8], 1, None, 1)

  const T1: State := State(map[P := REOPENED], map[P := [7]], map[4 := Desc(P, 0, false)], REMOTE,
                           map[1 := Handle(P, READER)], map[], {})
  const T2: State := T1.(table := map[P := REOPENED.(refcount := 2, dirty := true)],
                         handles := map[1 := Handle(P, READER), 2 := Handle(P, APPENDER)])

  lemma OpenedToRead(parse: Parser)
    ensures Goes(parse, Mounted(REMOTE), OP_OPEN, T1, 0, [])
  {
    assert {} + {P} == {P};
    assert HandleCompression(parse, REMOTE[P], None, UNZIP) == Unpacked(0, [7], None);
    assert Put(map[P := [7]], Tmp(P), None) == map[P := [7]];
  }

  lemma OpenedToAppend(parse: Parser)
    ensures Goes(parse, T1, OP_APPEND, T2, 0, [])
  {
    assert {P} + {P} == {P};
    assert T1.table[P := T2.table[P]] == T2.table;
  }

  /**
   Opening for reading, opening for appending and writing is a legal run in which both opens
   succeed and the write is refused.
   */
  lemma AppendIsRefused(parse: Parser)
    ensures Legal(parse, Mounted(REMOTE), [OP_OPEN, OP_APPEND, OP_EXTEND])
    ensures var t := Run(parse, Mounted(REMOTE), [OP_OPEN, OP_APPEND]);
            t.handles.Keys == {1, 2} && CacheRuns.Step(parse, t, OP_EXTEND) == Outcome(t, -9, [])
  {
    OpenedToRead(parse);
    OpenedToAppend(parse);
    assert Goes(parse, T2, OP_EXTEND, T2, -EBADF, []);
    var ops := [OP_OPEN, OP_APPEND, OP_EXTEND];
    Steps(parse, [Mounted(REMOTE), T1, T2, T2], ops, [0, 0, -EBADF], [[], [], []]);
    assert [OP_OPEN, OP_APPEND][1..] == [OP_APPEND] && [OP_APPEND][1..] == [];
    assert Run(parse, T1, [OP_APPEND]) == Run(parse, T2, []) == T2;
  }
}
