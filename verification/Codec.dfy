/**
 The contract that src/zip.c has with zlib.

 The compressor is foreign code, so it stays a parameter: a `Deflater` and an
 `Inflater` are records of functions over a private stream state, and the `Laws`
 predicates say what the library documents about one call of `deflate` or `inflate`.
 The stream format itself (section 2.2 of RFC 1950 over section 3.2 of RFC 1951) is
 the parameter `parse`, which recognises a whole stream at the front of its input.

 Nothing here says that the compressed bytes depend on the source alone: zlib may cut
 blocks differently when it is fed differently, and the laws allow that.
 */
module Codec {
  import opened Common

  datatype Code =
    | ZOk | ZStreamEnd | ZNeedDict | ZErrno | ZStreamError
    | ZDataError | ZMemError | ZBufError | ZVersionError

  datatype Flush = NoFlush | Finish

  /** What the front of a byte sequence is: a whole stream, the start of one, or neither. */
  datatype Parsed = Complete(out: Bytes, used: nat) | Incomplete | Corrupt

  type Parser = Bytes -> Parsed

  /** A verdict on `x` is final, unless it is `Incomplete`: no continuation `y` changes it. */
  predicate Final(parse: Parser, x: Bytes, y: Bytes) {
    && (parse(x).Complete? ==> parse(x).used <= |x| && parse(x + y) == parse(x))
    && (parse(x).Corrupt? ==> parse(x + y).Corrupt?)
  }

  /** Verdicts are final, and no stream is empty. */
  ghost predicate ParserLaws(parse: Parser) {
    parse([]) == Incomplete && forall x: Bytes, y: Bytes :: Final(parse, x, y)
  }

  /** The bytes `z` are exactly one stream, and it carries `x`. */
  predicate Encodes(parse: Parser, z: Bytes, x: Bytes) {
    parse(z) == Complete(x, |z|)
  }

  /** One call: the new stream state, input consumed, output produced, return code. */
  datatype Step<S> = Step(next: S, used: nat, out: Bytes, code: Code)

  /**
   `fed` and `emitted` are the bytes a stream has consumed and produced so far;
   `finishing` says that `Z_FINISH` has been asked for, `sealed` that the final block is
   written and no more input may follow; `bound` limits the output.
   */
  datatype Deflater<!S(!new)> = Deflater(
    start: int -> (Code, S),
    step: (S, Bytes, Flush, nat) -> Step<S>,
    ok: S -> bool,
    finishing: S -> bool,
    sealed: S -> bool,
    fed: S -> Bytes,
    emitted: S -> Bytes,
    bound: Bytes -> nat)

  ghost predicate DeflateStep<S(!new)>(d: Deflater<S>, parse: Parser, st: S, inp: Bytes, flush: Flush, room: nat) {
    var r := d.step(st, inp, flush, room);
    && r.used <= |inp|
    && |r.out| <= room
    && d.ok(r.next)
    && r.code != ZStreamError
    && (d.finishing(r.next) ==> d.finishing(st) || flush == Finish)
    && (d.sealed(r.next) ==> d.sealed(st) || (flush == Finish && r.used == |inp|))
    && d.fed(r.next) == d.fed(st) + inp[..r.used]
    && d.emitted(r.next) == d.emitted(st) + r.out
    && |d.emitted(r.next)| <= d.bound(d.fed(r.next))
    // the library stops only for lack of input or lack of room
    && (|r.out| < room ==> r.used == |inp|)
    && (|r.out| < room && flush == Finish ==> r.code == ZStreamEnd)
    && (r.code == ZStreamEnd ==> Encodes(parse, d.emitted(r.next), d.fed(r.next)))
  }

  ghost predicate DeflateLaws<S(!new)>(d: Deflater<S>, parse: Parser) {
    && (forall level: int {:trigger d.start(level)} :: d.start(level).0 == ZOk ==>
          var st := d.start(level).1;
          d.ok(st) && !d.finishing(st) && !d.sealed(st) && d.fed(st) == [] && d.emitted(st) == [])
    && (forall st: S, inp: Bytes, flush: Flush, room: nat {:trigger d.step(st, inp, flush, room)} ::
          d.ok(st) && 0 < room && (d.finishing(st) ==> flush == Finish) && (d.sealed(st) ==> inp == [])
          ==> DeflateStep(d, parse, st, inp, flush, room))
  }

  datatype Inflater<!S(!new)> = Inflater(
    start: (Code, S),
    step: (S, Bytes, nat) -> Step<S>,
    ok: S -> bool,
    fed: S -> Bytes,
    emitted: S -> Bytes,
    bound: Bytes -> nat)

  ghost predicate InflateStep<S(!new)>(f: Inflater<S>, parse: Parser, st: S, inp: Bytes, room: nat) {
    var r := f.step(st, inp, room);
    && r.used <= |inp|
    && |r.out| <= room
    && r.code in {ZOk, ZStreamEnd, ZNeedDict, ZDataError, ZMemError, ZBufError}
    && f.ok(r.next)
    && f.fed(r.next) == f.fed(st) + inp[..r.used]
    && f.emitted(r.next) == f.emitted(st) + r.out
    && |f.emitted(r.next)| <= f.bound(f.fed(r.next))
    // never past the end of the stream, and never output it does not carry
    && (parse(f.fed(r.next)).Complete? ==>
          parse(f.fed(r.next)).used == |f.fed(r.next)| && f.emitted(r.next) <= parse(f.fed(r.next)).out)
    && (r.code == ZStreamEnd ==> Encodes(parse, f.fed(r.next), f.emitted(r.next)))
    && (r.code in {ZDataError, ZNeedDict} ==> parse(f.fed(r.next)).Corrupt?)
    && (r.code in {ZOk, ZBufError} && |r.out| < room ==>
          r.used == |inp| && parse(f.fed(r.next)).Incomplete?)
  }

  ghost predicate InflateLaws<S(!new)>(f: Inflater<S>, parse: Parser) {
    && ParserLaws(parse)
    && (f.start.0 == ZOk ==>
          f.ok(f.start.1) && f.fed(f.start.1) == [] && f.emitted(f.start.1) == [])
    && f.start.0 != ZStreamEnd
    && (forall st: S, inp: Bytes, room: nat {:trigger f.step(st, inp, room)} ::
          f.ok(st) && 0 < room ==> InflateStep(f, parse, st, inp, room))
  }

  ghost predicate NeverOutOfMemory<S(!new)>(f: Inflater<S>) {
    forall st: S, inp: Bytes, room: nat {:trigger f.step(st, inp, room)} ::
      f.step(st, inp, room).code != ZMemError
  }
}
