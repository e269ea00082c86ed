/**
 What travels between a cache file and its remote object: the choice of raw or compressed
 bytes at upload (src/release.c), the decoding at download and the byte loops (src/file.c).
 */
module Transfer {
  import opened Common
  import opened Codec
  import opened Metadata

  /** A remote object: its bytes, the size it was announced with, its user metadata. */
  datatype Object = Object(data: Bytes, declared: nat, meta: Dict)

  const COMPRESSION: string := "compression"
  const ZLIB: string := "zlib"
  const NONE: string := "none"

  // ---- upload ----

  /** Outcomes of the local calls made while compressing a file that is about to be sent. */
  datatype CompressEnv = CompressEnv(
    srcOpens: bool,         // fopen of the cache file
    dstOpens: bool,         // fopen of the scratch file
    zipped: Option<Bytes>,  // what zip wrote, or None when it failed
    fileno: int,            // descriptor of the scratch file, -1 on failure
    statOk: bool,           // fstat of that descriptor
    tagOk: bool)            // dpl_dict_update_value

  /** `zip` keeps the contract proved for `Zip.Zip`. */
  predicate HonestZip(parse: Parser, content: Bytes, env: CompressEnv) {
    env.zipped.Some? ==> Encodes(parse, env.zipped.value, content)
  }

  /** compress_before_sending: the descriptor to send (0: none), the size, the dictionary. */
  function CompressBeforeSending(dict: Dict, env: CompressEnv): (int, nat, Dict) {
    if env.zipped.None? then (0, 0, dict)
    else if env.fileno == -1 then (0, 0, dict)
    else if !env.statOk then (0, 0, dict)
    else if !env.tagOk then (0, 0, dict)
    else (env.fileno, if env.fileno != 0 then |env.zipped.value| else 0, dict[COMPRESSION := ZLIB])
  }

  /** What release hands to `dpl_openwrite` and then sends; `packed` says which descriptor. */
  datatype Payload = Payload(data: Bytes, declared: nat, meta: Dict, packed: bool)

  /** The bytes that reading a descriptor at `offset` until end of file gives. */
  function From(content: Bytes, offset: nat): Bytes {
    if offset <= |content| then content[offset..] else []
  }

  /**
   The choice made by release between the cache file and its compressed copy. The size of an
   uncompressed upload is the one that fstat gave.
   */
  function Prepare(content: Bytes, offset: nat, st: Stat, zlib: bool, env: CompressEnv): Option<Payload> {
    var dict := FillMetadataFromStat(map[], st);
    var raw := Payload(From(content, offset), ToULong(st.size), dict, false);
    if !zlib then Some(raw)
    else if !env.srcOpens then None
    else if !env.dstOpens then Some(raw)
    else
      var (zfd, zsize, tagged) := CompressBeforeSending(dict, env);
      if zfd < 0 then None
      else if zfd > 0 && env.zipped.Some? then Some(Payload(env.zipped.value, zsize, tagged, true))
      else Some(raw.(meta := tagged))
  }

  function Upload(p: Payload): Object { Object(p.data, p.declared, p.meta) }

  predicate Tagged(meta: Dict) { COMPRESSION in meta && meta[COMPRESSION] == ZLIB }

  /** The scratch file was given descriptor 0, which release reads as "nothing compressed". */
  predicate Misrouted(zlib: bool, env: CompressEnv) {
    zlib && env.srcOpens && env.dstOpens && env.zipped.Some? && env.fileno == 0 && env.statOk && env.tagOk
  }

  lemma FreshDictUntagged(st: Stat)
    ensures COMPRESSION !in FillMetadataFromStat(map[], st)
  {
    assert |COMPRESSION| == 11;
    assert |"mode"| == 4 && |"size"| == 4 && |"uid"| == 3 && |"gid"| == 3;
    assert |"atime"| == 5 && |"mtime"| == 5 && |"ctime"| == 5;
    FilledNames(map[], st);
  }

  /** Compression is configured, and no local call on the way to a compressed copy fails. */
  predicate Compresses(zlib: bool, env: CompressEnv) {
    zlib && env.srcOpens && env.dstOpens && env.zipped.Some? && 0 < env.fileno && env.statOk && env.tagOk
  }

  /**
   Whatever fails on the way, the compressed copy is sent exactly when no local call failed, and
   the whole file otherwise; the tag of an upload from offset 0 tells the truth exactly when the
   scratch file was not given descriptor 0.
   */
  lemma TagTellsTruth(parse: Parser, content: Bytes, st: Stat, zlib: bool, env: CompressEnv)
    requires HonestZip(parse, content, env)
    requires -1 <= env.fileno
    ensures Prepare(content, 0, st, zlib, env).None? <==> zlib && !env.srcOpens
    ensures var r := Prepare(content, 0, st, zlib, env);
            r.Some? ==>
              && (r.value.packed <==> Compresses(zlib, env))
              && (r.value.packed ==> Some(r.value.data) == env.zipped && Encodes(parse, r.value.data, content))
              && (!r.value.packed ==> r.value.data == content)
              && ((Tagged(r.value.meta) <==> r.value.packed) <==> !Misrouted(zlib, env))
              && (COMPRESSION in r.value.meta ==> Tagged(r.value.meta))
  {
    FreshDictUntagged(st);
  }

  /**
   Whatever fails on the way, an upload announces the size it sends exactly when it is packed or
   fstat told how much is left from the offset on: with an honest fstat, when the offset is 0.
   The size in its metadata is always the one of fstat.
   */
  lemma SizeTellsTruth(content: Bytes, offset: nat, st: Stat, zlib: bool, env: CompressEnv)
    requires |content| < TWO63 && offset <= |content|
    ensures var r := Prepare(content, offset, st, zlib, env);
            r.Some? ==>
              && (r.value.declared == |r.value.data| <==> r.value.packed || st.size == |content| - offset)
              && MetadataToLL(r.value.meta, "size") == st.size
  {
    var dict := FillMetadataFromStat(map[], st);
    FilledNames(map[], st);
    FieldRoundTrip(dict, "size", st.size);
    assert |COMPRESSION| != |"size"|;
    assert dict[COMPRESSION := ZLIB]["size"] == dict["size"];
  }

  /** Read field by field, the metadata are those of the record, which is no symbolic link. */
  predicate Describes(meta: Dict, st: Stat) {
    ReadFields(meta) == Fields(st.size, st.mode, st.uid, st.gid, st.atime, st.ctime, st.mtime, false)
  }

  /** Read over any record, such metadata give the record back, but for 64-bit fields equal to -1. */
  lemma DescribedStat(meta: Dict, st: Stat, target: Stat)
    requires Describes(meta, st)
    ensures StatFromMetadata(target, meta) ==
            Stat(st.mode, Kept(st.size, target.size), st.uid, st.gid,
                 Kept(st.atime, target.atime), Kept(st.mtime, target.mtime), Kept(st.ctime, target.ctime))
  {
    StoredBack(st, target, false);
  }

  /** The tag is no field of the record. */
  lemma TagLeavesFields(dict: Dict)
    ensures ReadFields(dict[COMPRESSION := ZLIB]) == ReadFields(dict)
  {
    assert |COMPRESSION| == 11;
    assert |"mode"| == 4 && |"size"| == 4 && |"uid"| == 3 && |"gid"| == 3 && |"symlink"| == 7;
    assert |"atime"| == 5 && |"mtime"| == 5 && |"ctime"| == 5;
  }

  /** Compressed or not, an upload carries the stat record of the file in its metadata. */
  lemma UploadDescribes(content: Bytes, offset: nat, st: Stat, zlib: bool, env: CompressEnv)
    ensures var r := Prepare(content, offset, st, zlib, env); r.Some? ==> Describes(r.value.meta, st)
  {
    var dict := FillMetadataFromStat(map[], st);
    FieldsRoundTrip(map[], st);
    TagLeavesFields(dict);
  }

  // ---- download ----

  /** `strncmp(s, p, strlen(p)) == 0` */
  predicate HasPrefix(s: string, p: string) { p <= s }

  /** What the object means, by its own tag alone; None when it cannot be decoded. */
  function Decode(parse: Parser, o: Object): Option<Bytes> {
    if COMPRESSION !in o.meta || HasPrefix(o.meta[COMPRESSION], NONE) then Some(o.data)
    else if HasPrefix(o.meta[COMPRESSION], ZLIB) && parse(o.data).Complete? then Some(parse(o.data).out)
    else None
  }

  /** Outcomes of the local calls of handle_compression. */
  datatype UnzipEnv = UnzipEnv(
    srcOpens: bool,
    dstOpens: bool,
    fault: bool,           // an I/O error or lack of memory inside unzip
    partial: Bytes,        // what an unsuccessful unzip left in the scratch file
    tagOk: bool,
    renameOk: bool,
    reopenOk: bool)

  /** Return code, the cache file afterwards, and the scratch file if it is still there. */
  datatype Unpacked = Unpacked(ret: int, file: Bytes, scratch: Option<Bytes>)

  /** handle_compression on a downloaded file; `scratch` is what the scratch path held before. */
  function HandleCompression(parse: Parser, o: Object, scratch: Option<Bytes>, env: UnzipEnv): Unpacked {
    if COMPRESSION !in o.meta then Unpacked(0, o.data, scratch)
    else if HasPrefix(o.meta[COMPRESSION], NONE) then Unpacked(0, o.data, scratch)
    else if !HasPrefix(o.meta[COMPRESSION], ZLIB) then Unpacked(-1, o.data, scratch)
    else if !env.srcOpens then Unpacked(-1, o.data, scratch)
    else if !env.dstOpens then Unpacked(-1, o.data, scratch)
    else if env.fault || !parse(o.data).Complete? then Unpacked(-1, o.data, Some(env.partial))
    else
      var plain := parse(o.data).out;
      if !env.tagOk then Unpacked(-1, o.data, Some(plain))
      else if !env.renameOk then Unpacked(1, o.data, Some(plain))
      else if !env.reopenOk then Unpacked(-1, plain, None)
      else Unpacked(0, plain, None)
  }

  predicate Plain(o: Object) { COMPRESSION !in o.meta || HasPrefix(o.meta[COMPRESSION], NONE) }

  /** A stream is decoded into the scratch file, and nothing before the rename fails. */
  predicate Unzips(parse: Parser, o: Object, env: UnzipEnv) {
    && !Plain(o) && HasPrefix(o.meta[COMPRESSION], ZLIB) && env.srcOpens && env.dstOpens
    && !env.fault && parse(o.data).Complete? && env.tagOk
  }

  /**
   Every exit of handle_compression: 0 for plain objects and for decoded files that are in place
   and can be opened again, 1 when only the rename failed, -1 otherwise; the file is the decoded
   one exactly when the rename worked; the scratch file is left by every exit between its
   creation and the rename.
   */
  lemma DecompressExactly(parse: Parser, o: Object, scratch: Option<Bytes>, env: UnzipEnv)
    ensures var r := HandleCompression(parse, o, scratch, env);
            && (r.ret == 0 <==> Plain(o) || (Unzips(parse, o, env) && env.renameOk && env.reopenOk))
            && (r.ret == 1 <==> Unzips(parse, o, env) && !env.renameOk)
            && (r.ret == -1 || r.ret == 0 || r.ret == 1)
            && r.file == (if Unzips(parse, o, env) && env.renameOk then parse(o.data).out else o.data)
            && (Unzips(parse, o, env) ==>
                  r.scratch == if env.renameOk then None else Some(parse(o.data).out))
            && (Plain(o) || !HasPrefix(o.meta[COMPRESSION], ZLIB) || !env.srcOpens || !env.dstOpens ==>
                  r.scratch == scratch)
  {
  }

  /**
   The caller goes on unless the return code is -1. It then has the decoded bytes exactly when
   the object was not compressed or the rename worked, or when packing had changed nothing.
   */
  lemma DecodedExactlyWhen(parse: Parser, o: Object, scratch: Option<Bytes>, env: UnzipEnv)
    ensures var r := HandleCompression(parse, o, scratch, env);
            r.ret != -1 ==>
              && Decode(parse, o).Some?
              && (r.ret == 0 <==> Plain(o) || env.renameOk)
              && (r.file == Decode(parse, o).value <==> r.ret == 0 || Decode(parse, o).value == o.data)
  {
  }

  /** With no local failure, a download succeeds exactly on objects that can be decoded. */
  lemma CleanDownload(parse: Parser, o: Object, scratch: Option<Bytes>, env: UnzipEnv)
    requires env.srcOpens && env.dstOpens && !env.fault && env.tagOk && env.renameOk && env.reopenOk
    ensures var r := HandleCompression(parse, o, scratch, env);
            (r.ret == 0 <==> Decode(parse, o).Some?) && (r.ret != 0 ==> r.ret == -1)
  {
  }

  /**
   Upload then download: for all bytes, every compression setting at either end and every
   fallback, what a download accepts is what was uploaded.
   */
  lemma UploadDownloadRoundTrip(parse: Parser, content: Bytes, st: Stat, zlib: bool, cenv: CompressEnv,
                                scratch: Option<Bytes>, uenv: UnzipEnv)
    requires HonestZip(parse, content, cenv) && -1 <= cenv.fileno
    requires !Misrouted(zlib, cenv)
    requires Prepare(content, 0, st, zlib, cenv).Some?
    ensures var o := Upload(Prepare(content, 0, st, zlib, cenv).value);
            && Decode(parse, o) == Some(content)
            && (HandleCompression(parse, o, scratch, uenv).ret == 0 ==>
                  HandleCompression(parse, o, scratch, uenv).file == content)
  {
    TagTellsTruth(parse, content, st, zlib, cenv);
    var o := Upload(Prepare(content, 0, st, zlib, cenv).value);
    assert ZLIB[0] != NONE[0];
    if COMPRESSION in o.meta {
      assert !HasPrefix(o.meta[COMPRESSION], NONE) by { assert o.meta[COMPRESSION][0] == 'z'; }
    }
    DecodedExactlyWhen(parse, o, scratch, uenv);
  }

  /** With descriptor 0 the tag lies: raw bytes go out as "zlib", and bytes that are no stream are lost. */
  lemma MisroutedLosesFile(parse: Parser, content: Bytes, st: Stat, env: CompressEnv)
    requires Misrouted(true, env) && !parse(content).Complete?
    ensures Prepare(content, 0, st, true, env).Some?
    ensures Decode(parse, Upload(Prepare(content, 0, st, true, env).value)).None?
  {
    var o := Upload(Prepare(content, 0, st, true, env).value);
    assert o.meta[COMPRESSION] == ZLIB && ZLIB[0] != NONE[0];
  }

  // ---- byte loops ----

  /** One return of `write(2)`. */
  datatype WriteOutcome = Wrote(n: nat) | Interrupted | Failed

  /**
   write_all. The kernel follows `script` and, once it is used up, takes everything, so that
   every pattern of short writes and interrupts which ends in progress is covered.
   */
  method WriteAll(file: Bytes, buf: Bytes, script: seq<WriteOutcome>)
    returns (ret: int, file': Bytes, rest: seq<WriteOutcome>)
    ensures ret == 0 || ret == -1
    ensures ret == 0 ==> file' == file + buf
    ensures ret == -1 ==> exists k :: 0 <= k <= |buf| && file' == file + buf[..k]
    ensures |rest| <= |script| && rest == script[|script| - |rest|..]
    ensures ret == -1 <==> Failed in script[..|script| - |rest|]
  {
    file', rest := file, script;
    var remain := |buf|;
    while true
      invariant 0 <= remain <= |buf| && file' == file + buf[..|buf| - remain]
      invariant |rest| <= |script| && rest == script[|script| - |rest|..]
      invariant Failed !in script[..|script| - |rest|]
      decreases |rest|
    {
      var out := Wrote(remain);
      var last := rest == [];
      if !last {
        out, rest := rest[0], rest[1..];
        assert script[..|script| - |rest|] == script[..|script| - |rest| - 1] + [out];
      }
      match out
      case Interrupted =>
        continue;
      case Failed =>
        return -1, file', rest;
      case Wrote(n) =>
        var cc := if n < remain then n else remain;
        var at := |buf| - remain;
        assert buf[..at + cc] == buf[..at] + buf[at..at + cc];
        file' := file' + buf[at..at + cc];
        remain := remain - cc;
        if remain == 0 {
          assert buf[..|buf|] == buf;
          return 0, file', rest;
        }
    }
  }

  function Concat(chunks: seq<Bytes>): Bytes {
    if chunks == [] then [] else chunks[0] + Concat(chunks[1..])
  }

  lemma {:induction false} ConcatSplit(a: seq<Bytes>, b: seq<Bytes>)
    ensures Concat(a + b) == Concat(a) + Concat(b)
  {
    if a == [] {
      assert a + b == b;
    } else {
      assert (a + b)[1..] == a[1..] + b;
      ConcatSplit(a[1..], b);
    }
  }

  /**
   The download callback run on the chunks of an object: the file ends as their concatenation,
   or as a prefix of it when a write fails.
   */
  method ReceiveChunks(chunks: seq<Bytes>, script: seq<WriteOutcome>) returns (ret: int, file: Bytes)
    ensures ret == 0 || ret == -1
    ensures ret == 0 ==> file == Concat(chunks)
    ensures ret == -1 ==> file <= Concat(chunks)
    ensures Failed !in script ==> ret == 0
  {
    file := [];
    var pending := script;
    for i := 0 to |chunks|
      invariant file == Concat(chunks[..i])
      invariant Failed !in script ==> Failed !in pending
    {
      ConcatSplit(chunks[..i], [chunks[i]]);
      ConcatSplit(chunks[..i + 1], chunks[i + 1..]);
      assert Concat([chunks[i]]) == chunks[i] + Concat([]);
      assert chunks[..i] + [chunks[i]] == chunks[..i + 1];
      assert chunks[..i + 1] + chunks[i + 1..] == chunks;
      ret, file, pending := WriteAll(file, chunks[i], pending);
      if ret != 0 {
        return -1, file;
      }
    }
    assert chunks[..|chunks|] == chunks;
    ret := 0;
  }

  const WRITE_BLOCK_SIZE: nat := 1000 * 1000

  /** For the `k`-th turn of the loop: how much read may return, and which calls fail. */
  datatype SendEnv = SendEnv(short: nat -> nat, readFails: nat -> bool, writeFails: nat -> bool)

  /** What a copy loop gives back: its return code, the bytes passed on, the offset it stops at. */
  datatype Sending = Sending(ret: int, sent: Bytes, offset: nat)

  /** What one read returns when `left` bytes are there: at least one, at most a block. */
  function BlockSize(left: nat, short: nat): (r: nat)
    requires 0 < left
    ensures 1 <= r <= left
  {
    var room := Min(left, WRITE_BLOCK_SIZE);
    if short < 1 then 1 else Min(short, room)
  }

  /** read_write_all_vfile on a descriptor at `offset`, from its `k`-th turn on. */
  function SendBlocks(content: Bytes, offset: nat, env: SendEnv, k: nat): Sending
    decreases |content| - offset
  {
    if env.readFails(k) then Sending(-1, [], offset)
    else if |content| <= offset then Sending(0, [], offset)
    else
      var next := offset + BlockSize(|content| - offset, env.short(k));
      if env.writeFails(k) then Sending(-1, [], next)
      else
        var rest := SendBlocks(content, next, env, k + 1);
        rest.(sent := content[offset..next] + rest.sent)
  }

  lemma BlockSizeExact(left: nat, short: nat)
    requires 0 < left
    ensures BlockSize(left, short) <= WRITE_BLOCK_SIZE
    ensures 1 <= short <= left && short <= WRITE_BLOCK_SIZE ==> BlockSize(left, short) == short
  {
  }

  /** No call of the loop fails. */
  ghost predicate NeverFails(env: SendEnv) {
    (forall k: nat :: !env.readFails(k)) && (forall k: nat :: !env.writeFails(k))
  }

  /**
   Success means that everything from the offset to the end of file was passed on, whatever each
   read returned, and that the descriptor is now at the end of file; failure that a prefix was.
   The descriptor stays where it was exactly when nothing was left or the first read failed.
   */
  lemma {:induction false} SendBlocksWhole(content: Bytes, offset: nat, env: SendEnv, k: nat)
    ensures var x := SendBlocks(content, offset, env, k);
            && (x.ret == 0 || x.ret == -1)
            && (x.ret == 0 ==> x.sent == From(content, offset) && |content| <= x.offset)
            && (x.ret == -1 ==> x.sent <= From(content, offset))
            && offset <= x.offset && (x.offset <= |content| || x.offset == offset)
            && (x.offset == offset <==> |content| <= offset || env.readFails(k))
            && (NeverFails(env) ==> x.ret == 0)
    decreases |content| - offset
  {
    if !env.readFails(k) && offset < |content| && !env.writeFails(k) {
      var next := offset + BlockSize(|content| - offset, env.short(k));
      SendBlocksWhole(content, next, env, k + 1);
      assert content[offset..] == content[offset..next] + content[next..];
    }
  }

  /** The number of blocks between `offset` and end of file, from the `k`-th turn on. */
  function Blocks(content: Bytes, offset: nat, env: SendEnv, k: nat): nat
    decreases |content| - offset
  {
    if |content| <= offset then 0
    else 1 + Blocks(content, offset + BlockSize(|content| - offset, env.short(k)), env, k + 1)
  }

  /** One read and one write for every block work, and so does the read that finds end of file. */
  predicate CallsWork(env: SendEnv, k: nat, n: nat) {
    && (forall j :: k <= j < k + n ==> !env.readFails(j) && !env.writeFails(j))
    && !env.readFails(k + n)
  }

  /** The loop succeeds exactly when none of its calls up to end of file fails. */
  lemma {:induction false} SendSucceedsIff(content: Bytes, offset: nat, env: SendEnv, k: nat)
    ensures SendBlocks(content, offset, env, k).ret == 0 <==> CallsWork(env, k, Blocks(content, offset, env, k))
    decreases |content| - offset
  {
    if offset < |content| {
      var next := offset + BlockSize(|content| - offset, env.short(k));
      SendSucceedsIff(content, next, env, k + 1);
    }
  }

  /** read_write_all_vfile: read a descriptor until end of file and pass every block on. */
  method ReadWriteAll(content: Bytes, offset: nat, env: SendEnv) returns (ret: int, sent: Bytes, offset': nat)
    ensures Sending(ret, sent, offset') == SendBlocks(content, offset, env, 0)
  {
    sent, offset' := [], offset;
    var k := 0;
    while true
      invariant offset <= offset'
      invariant var rest := SendBlocks(content, offset', env, k);
                SendBlocks(content, offset, env, 0) == rest.(sent := sent + rest.sent)
      decreases |content| - offset'
    {
      if env.readFails(k) {
        return -1, sent, offset';
      }
      if offset' >= |content| {
        return 0, sent, offset';
      }
      var next := offset' + BlockSize(|content| - offset', env.short(k));
      var block := content[offset'..next];
      offset' := next;
      if env.writeFails(k) {
        return -1, sent, offset';
      }
      ghost var rest := SendBlocks(content, next, env, k + 1);
      assert sent + (block + rest.sent) == (sent + block) + rest.sent;
      sent := sent + block;
      k := k + 1;
    }
  }
}
