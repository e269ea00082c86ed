/** The chunk loops of src/zip.c, over any zlib that keeps the contract in `Codec`. */
module Zip {
  import opened Common
  import opened Codec

  const CHUNK: nat := 16384

  /** Which calls of `fread` and `fwrite`, counted from zero, fail. */
  datatype Faults = Faults(read: nat -> bool, write: nat -> bool)

  ghost predicate NoFaults(io: Faults) {
    (forall k: nat :: !io.read(k)) && (forall k: nat :: !io.write(k))
  }

  /** The first `n` calls of a kind work. */
  ghost predicate Worked(fails: nat -> bool, n: nat) {
    forall k :: 0 <= k < n ==> !fails(k)
  }

  // ---- zip ----

  /**
   The inner loop of `Zip`: deflate the block that starts at `pos` and write what comes out, until
   the output buffer is not filled. `written` counts the writes that worked.
   */
  method DeflateBlock<S(!new)>(
    d: Deflater<S>, ghost parse: Parser, strm0: S, ghost source: Bytes, ghost pos: nat, inp: Bytes, flush: Flush,
    dest0: Bytes, io: Faults, written0: nat)
    returns (ok: bool, code: Code, strm: S, dest: Bytes, written: nat)
    requires DeflateLaws(d, parse)
    requires pos + |inp| <= |source| && inp == source[pos..pos + |inp|]
    requires d.ok(strm0) && d.fed(strm0) == source[..pos] && d.emitted(strm0) == dest0
    requires !d.finishing(strm0) && !d.sealed(strm0) && (flush == Finish ==> pos + |inp| == |source|)
    requires Worked(io.write, written0) && |dest0| <= written0 * CHUNK
    ensures Worked(io.write, written) && |dest| <= written * CHUNK
    ensures !ok ==> io.write(written)
    ensures ok ==>
              && d.ok(strm) && d.fed(strm) == source[..pos + |inp|] && d.emitted(strm) == dest
              && (flush == NoFlush ==> !d.finishing(strm) && !d.sealed(strm))
              && (flush == Finish ==> code == ZStreamEnd && Encodes(parse, dest, source))
  {
    strm, dest, written := strm0, dest0, written0;
    ok, code := true, ZOk;
    var n, next, availOut := |inp|, 0, 0;
    while availOut == 0
      invariant 0 <= next <= n && 0 <= availOut <= CHUNK
      invariant d.ok(strm) && d.fed(strm) == source[..pos + next] && d.emitted(strm) == dest
      invariant flush == NoFlush ==> !d.finishing(strm) && !d.sealed(strm)
      invariant d.sealed(strm) ==> next == n
      invariant availOut != 0 ==> next == n
      invariant availOut != 0 && flush == Finish ==> code == ZStreamEnd && Encodes(parse, dest, source)
      invariant Worked(io.write, written) && |dest| <= written * CHUNK
      decreases availOut == 0, n - next, d.bound(d.fed(strm)) - |dest|
    {
      var r := d.step(strm, inp[next..], flush, CHUNK);
      assert DeflateStep(d, parse, strm, inp[next..], flush, CHUNK);
      assert r.code != ZStreamError;
      assert source[..pos + next] + inp[next..][..r.used] == source[..pos + next + r.used];
      strm, code := r.next, r.code;
      next := next + r.used;
      availOut := CHUNK - |r.out|;
      if io.write(written) {
        return false, code, strm, dest, written;
      }
      written := written + 1;
      dest := dest + r.out;
      assert availOut != 0 && flush == Finish ==> source[..pos + next] == source;
    }
    assert next == n;
  }

  /**
   Compress `source` into `dest`. Success means that `dest` is exactly one complete
   stream and that the stream carries exactly `source`, whatever the length of `source`.
   `nRead` and `written` count the calls that worked: Z_ERRNO means that the next one failed,
   success that none did, with as many as the bytes on either side take.
   */
  method Zip<S(!new)>(d: Deflater<S>, ghost parse: Parser, source: Bytes, level: int, io: Faults)
    returns (code: Code, dest: Bytes, nRead: nat, written: nat)
    requires DeflateLaws(d, parse)
    ensures code == ZOk ==> Encodes(parse, dest, source)
    ensures d.start(level).0 != ZOk ==> code == d.start(level).0 && dest == []
    ensures d.start(level).0 == ZOk ==> code in {ZOk, ZErrno} && (NoFaults(io) ==> code == ZOk)
    ensures Worked(io.read, nRead) && Worked(io.write, written)
    ensures d.start(level).0 == ZOk && code == ZErrno ==> io.read(nRead) || io.write(written)
    ensures code == ZOk ==> nRead == |source| / CHUNK + 1 && |dest| <= written * CHUNK
  {
    var init := d.start(level);
    var strm := init.1;
    dest, nRead, written := [], 0, 0;
    if init.0 != ZOk {
      return init.0, dest, 0, 0;
    }
    var pos := 0;
    var flush := NoFlush;
    code := ZOk;
    while flush != Finish
      invariant 0 <= pos <= |source|
      invariant flush == NoFlush ==>
                  && d.ok(strm) && d.fed(strm) == source[..pos] && d.emitted(strm) == dest
                  && !d.finishing(strm) && !d.sealed(strm)
      invariant flush == Finish ==> pos == |source| && code == ZStreamEnd && Encodes(parse, dest, source)
      invariant Worked(io.read, nRead) && Worked(io.write, written) && |dest| <= written * CHUNK
      invariant if flush == NoFlush then pos == nRead * CHUNK else nRead == |source| / CHUNK + 1
      decreases flush == NoFlush, |source| - pos
    {
      if io.read(nRead) {
        return ZErrno, dest, nRead, written;
      }
      nRead := nRead + 1;
      var n := Min(CHUNK, |source| - pos);
      // end of file is seen by a short count only
      flush := if n < CHUNK then Finish else NoFlush;
      var ok;
      ok, code, strm, dest, written :=
        DeflateBlock(d, parse, strm, source, pos, source[pos..pos + n], flush, dest, io, written);
      if !ok {
        return ZErrno, dest, nRead, written;
      }
      pos := pos + n;
    }
    assert code == ZStreamEnd;
    code := ZOk;
  }

  // ---- unzip ----

  /**
   The inner loop of `Unzip`: inflate the block of `n` bytes at `pos` and write what comes out,
   until the output buffer is not filled or a call fails.
   */
  method InflateBlock<S(!new)>(
    f: Inflater<S>, ghost parse: Parser, strm0: S, source: Bytes, pos: nat, n: nat, dest0: Bytes, io: Faults,
    written0: nat)
    returns (code: Code, strm: S, dest: Bytes, written: nat)
    requires InflateLaws(f, parse)
    requires 0 < n && pos + n <= |source|
    requires f.ok(strm0) && f.emitted(strm0) == dest0 && f.fed(strm0) == source[..pos]
    requires Worked(io.write, written0) && |dest0| <= written0 * CHUNK
    ensures Worked(io.write, written) && |dest| <= written * CHUNK
    ensures code in {ZOk, ZBufError, ZStreamEnd, ZErrno, ZDataError, ZMemError}
    ensures code == ZErrno ==> io.write(written)
    ensures code == ZDataError ==> parse(source).Corrupt?
    ensures code == ZMemError ==> !NeverOutOfMemory(f)
    ensures code == ZStreamEnd ==>
              parse(source).Complete? && dest == parse(source).out && parse(source).used <= pos + n
    ensures code in {ZOk, ZBufError} ==>
              && f.ok(strm) && f.emitted(strm) == dest && f.fed(strm) == source[..pos + n]
              && parse(source[..pos + n]).Incomplete?
  {
    strm, dest, written := strm0, dest0, written0;
    code := ZOk;
    var next, availOut := 0, 0;
    while availOut == 0
      invariant 0 <= next <= n && 0 <= availOut <= CHUNK
      invariant f.ok(strm) && f.emitted(strm) == dest && f.fed(strm) == source[..pos + next]
      invariant code in {ZOk, ZBufError, ZStreamEnd}
      invariant code == ZStreamEnd ==>
                  Encodes(parse, source[..pos + next], dest) && parse(source) == Complete(dest, pos + next)
      invariant availOut != 0 && code != ZStreamEnd ==>
                  next == n && parse(source[..pos + n]).Incomplete?
      invariant Worked(io.write, written) && |dest| <= written * CHUNK
      decreases availOut == 0, n - next, f.bound(f.fed(strm)) - |dest|
    {
      InflateCall(f, parse, strm, source, pos + next, n - next);
      var r := f.step(strm, source[pos + next..pos + n], CHUNK);
      strm, code := r.next, r.code;
      next := next + r.used;
      assert f.fed(strm) == source[..pos + next];
      availOut := CHUNK - |r.out|;
      if code == ZNeedDict {
        code := ZDataError;
      }
      if code == ZDataError || code == ZMemError {
        return;
      }
      if io.write(written) {
        return ZErrno, strm, dest, written;
      }
      written := written + 1;
      dest := dest + r.out;
    }
  }

  /**
   Decompress the stream at the front of `source` into `dest`. `Z_OK` is given exactly
   for inputs that start with a complete stream; empty, truncated or corrupt input
   gives `Z_DATA_ERROR`; Z_ERRNO means that the next read or write failed.
   */
  method Unzip<S(!new)>(f: Inflater<S>, ghost parse: Parser, source: Bytes, io: Faults)
    returns (code: Code, dest: Bytes, nRead: nat, written: nat)
    requires InflateLaws(f, parse)
    ensures code == ZOk ==> parse(source).Complete? && dest == parse(source).out
    ensures f.start.0 != ZOk ==> code == f.start.0
    ensures f.start.0 == ZOk && NoFaults(io) && NeverOutOfMemory(f) ==>
              code == if parse(source).Complete? then ZOk else ZDataError
    ensures f.start.0 == ZOk ==> code in {ZOk, ZErrno, ZDataError, ZMemError}
    ensures f.start.0 == ZOk && code == ZDataError ==> !parse(source).Complete?
    ensures Worked(io.read, nRead) && Worked(io.write, written)
    ensures f.start.0 == ZOk && code == ZErrno ==> io.read(nRead) || io.write(written)
    ensures code == ZOk ==> parse(source).used <= nRead * CHUNK && |dest| <= written * CHUNK
  {
    var strm := f.start.1;
    dest, nRead, written := [], 0, 0;
    code := f.start.0;
    if code != ZOk {
      return;
    }
    var pos := 0;
    while code != ZStreamEnd
      invariant 0 <= pos <= |source|
      invariant code in {ZOk, ZBufError, ZStreamEnd}
      invariant code != ZStreamEnd ==>
                  && f.ok(strm) && f.emitted(strm) == dest
                  && f.fed(strm) == source[..pos] && parse(source[..pos]).Incomplete?
      invariant code == ZStreamEnd ==>
                  parse(source).Complete? && dest == parse(source).out && parse(source).used <= nRead * CHUNK
      invariant Worked(io.read, nRead) && Worked(io.write, written)
      invariant |dest| <= written * CHUNK && pos <= nRead * CHUNK
      decreases code != ZStreamEnd, |source| - pos
    {
      if io.read(nRead) {
        return ZErrno, dest, nRead, written;
      }
      nRead := nRead + 1;
      var n := Min(CHUNK, |source| - pos);
      if n == 0 {
        assert source[..pos] == source;
        break;
      }
      code, strm, dest, written := InflateBlock(f, parse, strm, source, pos, n, dest, io, written);
      if code in {ZErrno, ZDataError, ZMemError} {
        return;
      }
      pos := pos + n;
    }
    code := if code == ZStreamEnd then ZOk else ZDataError;
  }

  /** A final verdict on a prefix of `source` is the verdict on `source`. */
  lemma PrefixVerdict(parse: Parser, source: Bytes, k: nat, more: nat)
    requires ParserLaws(parse)
    requires k + more <= |source|
    ensures parse(source[..k]).Complete? ==>
              parse(source) == parse(source[..k]) == parse(source[..k + more])
    ensures parse(source[..k + more]).Complete? ==> parse(source) == parse(source[..k + more])
    ensures parse(source[..k + more]).Corrupt? ==> parse(source).Corrupt?
  {
    assert source[..k] + source[k..] == source;
    assert source[..k] + source[k..k + more] == source[..k + more];
    assert source[..k + more] + source[k + more..] == source;
    assert Final(parse, source[..k], source[k..]);
    assert Final(parse, source[..k], source[k..k + more]);
    assert Final(parse, source[..k + more], source[k + more..]);
  }

  /** One call of `inflate` inside `Unzip`, told in terms of the whole source. */
  lemma InflateCall<S(!new)>(f: Inflater<S>, parse: Parser, st: S, source: Bytes, at: nat, n: nat)
    requires InflateLaws(f, parse) && f.ok(st)
    requires at + n <= |source| && f.fed(st) == source[..at]
    ensures var r := f.step(st, source[at..at + n], CHUNK);
            && r.used <= n && |r.out| <= CHUNK
            && f.ok(r.next)
            && f.fed(r.next) == source[..at + r.used]
            && f.emitted(r.next) == f.emitted(st) + r.out
            && |f.emitted(r.next)| <= f.bound(f.fed(r.next))
            && r.code in {ZOk, ZStreamEnd, ZNeedDict, ZDataError, ZMemError, ZBufError}
            && (r.code == ZStreamEnd ==>
                  parse(source) == parse(source[..at + r.used]) == Complete(f.emitted(r.next), at + r.used))
            && (r.code in {ZDataError, ZNeedDict} ==> parse(source).Corrupt?)
            && (r.code in {ZOk, ZBufError} && |r.out| < CHUNK ==>
                  r.used == n && parse(source[..at + n]).Incomplete?)
            && (Encodes(parse, source[..at], f.emitted(st)) ==> r.code in {ZStreamEnd, ZMemError})
  {
    var r := f.step(st, source[at..at + n], CHUNK);
    assert InflateStep(f, parse, st, source[at..at + n], CHUNK);
    assert source[..at] + source[at..at + n][..r.used] == source[..at + r.used];
    PrefixVerdict(parse, source, at, r.used);
  }

  /** `unzip` inverts `zip`, for every source and whatever each loop did to get there. */
  method ZipThenUnzip<S(!new), T(!new)>(
    d: Deflater<S>, f: Inflater<T>, ghost parse: Parser, x: Bytes, level: int, zio: Faults, uio: Faults)
    returns (code: Code, y: Bytes)
    requires DeflateLaws(d, parse) && InflateLaws(f, parse)
    ensures code == ZOk ==> y == x
    ensures d.start(level).0 == ZOk && f.start.0 == ZOk && NoFaults(zio) && NoFaults(uio) && NeverOutOfMemory(f)
            ==> code == ZOk
  {
    var z, nRead, written;
    code, z, nRead, written := Zip(d, parse, x, level, zio);
    if code != ZOk {
      return code, [];
    }
    code, y, nRead, written := Unzip(f, parse, z, uio);
  }
}
