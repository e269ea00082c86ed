/**
 A small codec that keeps every law in `Codec`, so that the hypotheses of `Zip` can be met.
 Its stream is one pair `0, b` for each byte `b`, closed by a single `1`.
 */
module CodecWitness {
  import opened Common
  import opened Codec

  function Parse(x: Bytes): Parsed
    decreases |x|
  {
    if x == [] then Incomplete
    else if x[0] == 1 then Complete([], 1)
    else if x[0] != 0 then Corrupt
    else if |x| == 1 then Incomplete
    else match Parse(x[2..])
      case Complete(out, used) => Complete([x[1]] + out, used + 2)
      case Incomplete => Incomplete
      case Corrupt => Corrupt
  }

  function Encode(x: Bytes): Bytes {
    if x == [] then [] else [0, x[0]] + Encode(x[1..])
  }

  lemma {:induction false} EncodeAppend(x: Bytes, y: Bytes)
    ensures Encode(x + y) == Encode(x) + Encode(y)
    ensures |Encode(x)| == 2 * |x|
  {
    if x == [] {
      assert x + y == y;
    } else {
      assert (x + y)[1..] == x[1..] + y;
      EncodeAppend(x[1..], y);
    }
  }

  lemma {:induction false} ParseEncode(x: Bytes)
    ensures Parse(Encode(x) + [1]) == Complete(x, 2 * |x| + 1)
  {
    if x != [] {
      assert (Encode(x) + [1])[2..] == Encode(x[1..]) + [1];
      ParseEncode(x[1..]);
    }
  }

  /** The payload bytes decoded from the front of `x`. */
  function Partial(x: Bytes): Bytes
    decreases |x|
  {
    if |x| < 2 || x[0] != 0 then [] else [x[1]] + Partial(x[2..])
  }

  lemma {:induction false} ParseExtend(x: Bytes, y: Bytes)
    ensures Parse(x).Complete? ==> Parse(x).used <= |x| && Parse(x + y) == Parse(x)
    ensures Parse(x).Corrupt? ==> Parse(x + y).Corrupt?
    ensures Parse(x + y).Complete? && Parse(x + y).used <= |x| ==> Parse(x) == Parse(x + y)
    ensures |Partial(x)| <= |x| && Partial(x) <= Partial(x + y)
    ensures Parse(x).Complete? ==> Partial(x) == Parse(x).out
    decreases |x|
  {
    if |x| >= 2 && x[0] == 0 {
      assert (x + y)[2..] == x[2..] + y;
      ParseExtend(x[2..], y);
    } else if |x| == 1 && x[0] == 0 && y != [] {
      assert (x + y)[2..] == y[1..];
    }
  }

  lemma ParseIsLawful()
    ensures ParserLaws(Parse)
  {
    forall x: Bytes, y: Bytes
      ensures Final(Parse, x, y)
    {
      ParseExtend(x, y);
    }
  }

  function Take(x: Bytes, n: nat): Bytes { if |x| < n then x else x[..n] }

  function Rest(x: Bytes, n: nat): Bytes { if |x| < n then [] else x[n..] }

  // ---- the deflater: input is consumed at once, output waits in `pending` ----

  datatype Zs = Zs(fed: Bytes, emitted: Bytes, pending: Bytes, closed: bool)

  predicate ZsOk(st: Zs) {
    st.emitted + st.pending == Encode(st.fed) + if st.closed then [1] else []
  }

  /** What waits to be written once `inp` is consumed. */
  function Queue(st: Zs, inp: Bytes, flush: Flush): Bytes {
    st.pending + Encode(inp) + if flush == Finish && !st.closed then [1] else []
  }

  function ZNext(st: Zs, inp: Bytes, flush: Flush, room: nat): Zs {
    var queue := Queue(st, inp, flush);
    Zs(st.fed + inp, st.emitted + Take(queue, room), Rest(queue, room), st.closed || flush == Finish)
  }

  function ZStep(st: Zs, inp: Bytes, flush: Flush, room: nat): Step<Zs> {
    var queue := Queue(st, inp, flush);
    var next := ZNext(st, inp, flush, room);
    Step(next, |inp|, Take(queue, room), if next.closed && |queue| <= room then ZStreamEnd else ZOk)
  }

  const DEFLATER: Deflater<Zs> := Deflater(
    (level: int) => (ZOk, Zs([], [], [], false)),
    ZStep,
    ZsOk,
    (st: Zs) => st.closed,
    (st: Zs) => st.closed,
    (st: Zs) => st.fed,
    (st: Zs) => st.emitted,
    (x: Bytes) => 2 * |x| + 1)

  lemma QueueFollows(st: Zs, inp: Bytes, flush: Flush)
    requires ZsOk(st) && (st.closed ==> inp == [])
    ensures st.emitted + Queue(st, inp, flush) ==
            Encode(st.fed + inp) + if st.closed || flush == Finish then [1] else []
  {
    var mark := if flush == Finish && !st.closed then [1] else [];
    EncodeAppend(st.fed, inp);
    assert st.emitted + Queue(st, inp, flush) == (st.emitted + st.pending) + Encode(inp) + mark;
    if st.closed {
      assert st.fed + inp == st.fed;
    }
  }

  lemma ZNextOk(st: Zs, inp: Bytes, flush: Flush, room: nat)
    requires ZsOk(st) && (st.closed ==> inp == [])
    ensures ZsOk(ZNext(st, inp, flush, room))
  {
    var queue := Queue(st, inp, flush);
    QueueFollows(st, inp, flush);
    assert Take(queue, room) + Rest(queue, room) == queue;
    assert (st.emitted + Take(queue, room)) + Rest(queue, room) == st.emitted + queue;
  }

  /** An open or closed stream has emitted a prefix of its full output, all of it once nothing waits. */
  lemma ZsOkMeans(st: Zs)
    requires ZsOk(st)
    ensures |st.emitted| <= 2 * |st.fed| + 1
    ensures st.closed && st.pending == [] ==> Encodes(Parse, st.emitted, st.fed)
  {
    EncodeAppend(st.fed, []);
    ParseEncode(st.fed);
    assert |st.emitted + st.pending| <= 2 * |st.fed| + 1;
    assert st.pending == [] ==> st.emitted + st.pending == st.emitted;
  }

  lemma DeflaterStep(st: Zs, inp: Bytes, flush: Flush, room: nat)
    requires ZsOk(st) && 0 < room && (st.closed ==> flush == Finish && inp == [])
    ensures DeflateStep(DEFLATER, Parse, st, inp, flush, room)
  {
    ZNextOk(st, inp, flush, room);
    ZsOkMeans(ZNext(st, inp, flush, room));
    assert inp[..|inp|] == inp;
  }

  lemma DeflaterIsLawful()
    ensures DeflateLaws(DEFLATER, Parse)
  {
    forall st: Zs, inp: Bytes, flush: Flush, room: nat
      | DEFLATER.ok(st) && 0 < room && (DEFLATER.finishing(st) ==> flush == Finish)
        && (DEFLATER.sealed(st) ==> inp == [])
      ensures DeflateStep(DEFLATER, Parse, st, inp, flush, room)
    {
      DeflaterStep(st, inp, flush, room);
    }
  }

  // ---- the inflater: input is consumed up to the end of the stream ----

  datatype Us = Us(fed: Bytes, emitted: Bytes)

  predicate UsOk(st: Us) {
    st.emitted <= Partial(st.fed) && (Parse(st.fed).Complete? ==> Parse(st.fed).used == |st.fed|)
  }

  function Used(st: Us, inp: Bytes): int {
    match Parse(st.fed + inp)
    case Complete(_, used) => used - |st.fed|
    case _ => |inp|
  }

  function UStep(st: Us, inp: Bytes, room: nat): Step<Us> {
    var used := Used(st, inp);
    if !UsOk(st) || used < 0 || |inp| < used then Step(st, 0, [], ZOk)
    else
      var fed := st.fed + inp[..used];
      if |Partial(fed)| < |st.emitted| then Step(st, 0, [], ZOk)
      else
        var queue := Partial(fed)[|st.emitted|..];
        var code := if room < |queue| then ZOk
                    else match Parse(fed)
                      case Complete(_, _) => ZStreamEnd
                      case Corrupt => ZDataError
                      case Incomplete => if inp == [] && queue == [] then ZBufError else ZOk;
        Step(Us(fed, st.emitted + Take(queue, room)), used, Take(queue, room), code)
  }

  const INFLATER: Inflater<Us> := Inflater(
    (ZOk, Us([], [])),
    UStep,
    UsOk,
    (st: Us) => st.fed,
    (st: Us) => st.emitted,
    (x: Bytes) => |x|)

  /** A complete stream is complete without what follows it. */
  lemma CompleteAlone(x: Bytes)
    requires Parse(x).Complete?
    ensures Parse(x).used <= |x| && Parse(x[..Parse(x).used]) == Parse(x)
  {
    ParseExtend(x, []);
    var u := Parse(x).used;
    assert x[..u] + x[u..] == x;
    ParseExtend(x[..u], x[u..]);
  }

  /** A stream that ends in `inp` does not end before it. */
  lemma EndsInside(fed: Bytes, inp: Bytes)
    requires Parse(fed).Complete? ==> Parse(fed).used == |fed|
    requires Parse(fed + inp).Complete?
    ensures |fed| <= Parse(fed + inp).used <= |fed| + |inp|
  {
    ParseExtend(fed, inp);
    ParseExtend(fed + inp, []);
  }

  lemma UsedInRange(st: Us, inp: Bytes)
    requires UsOk(st)
    ensures 0 <= Used(st, inp) <= |inp|
    ensures !Parse(st.fed + inp).Complete? ==> Used(st, inp) == |inp|
    ensures Parse(st.fed + inp).Complete? ==>
              st.fed + inp[..Used(st, inp)] == (st.fed + inp)[..Parse(st.fed + inp).used]
  {
    if Parse(st.fed + inp).Complete? {
      EndsInside(st.fed, inp);
    }
  }

  /** Where the stream ends, if it ends in `inp`, and what the consumed part parses to. */
  lemma UsedIsRight(st: Us, inp: Bytes)
    requires UsOk(st)
    ensures 0 <= Used(st, inp) <= |inp|
    ensures var fed := st.fed + inp[..Used(st, inp)];
            && Parse(fed) == Parse(st.fed + inp)
            && (Parse(fed).Complete? ==> Parse(fed).used == |fed|)
            && (!Parse(fed).Complete? ==> Used(st, inp) == |inp|)
  {
    UsedInRange(st, inp);
    if Parse(st.fed + inp).Complete? {
      CompleteAlone(st.fed + inp);
    } else {
      assert inp[..|inp|] == inp;
    }
  }

  lemma PartialGrows(fed: Bytes, emitted: Bytes, inp: Bytes)
    requires emitted <= Partial(fed)
    ensures emitted <= Partial(fed + inp) && |Partial(fed + inp)| <= |fed + inp|
    ensures Parse(fed + inp).Complete? ==> Partial(fed + inp) == Parse(fed + inp).out
  {
    ParseExtend(fed, inp);
    ParseExtend(fed + inp, []);
  }

  /** The new state, and what is written of the waiting output. */
  lemma UStepForm(st: Us, inp: Bytes, room: nat)
    requires UsOk(st) && 0 < room
    ensures var r := UStep(st, inp, room);
            var fed := st.fed + inp[..r.used];
            && r.used == Used(st, inp) && 0 <= r.used <= |inp|
            && |st.emitted| <= |Partial(fed)|
            && var queue := Partial(fed)[|st.emitted|..];
              && r.next == Us(fed, st.emitted + r.out) && r.out == Take(queue, room)
              && (r.code == ZOk || |queue| <= room)
              && (|queue| <= room && Parse(fed).Complete? ==> r.code == ZStreamEnd)
              && (r.code == ZStreamEnd ==> Parse(fed).Complete?)
              && (r.code == ZDataError <==> |queue| <= room && Parse(fed).Corrupt?)
              && r.code in {ZOk, ZBufError, ZStreamEnd, ZDataError}
  {
    UsedIsRight(st, inp);
    PartialGrows(st.fed, st.emitted, inp[..Used(st, inp)]);
  }

  lemma InflaterStep(st: Us, inp: Bytes, room: nat)
    requires UsOk(st) && 0 < room
    ensures InflateStep(INFLATER, Parse, st, inp, room)
  {
    UStepForm(st, inp, room);
    UsedIsRight(st, inp);
    PartialGrows(st.fed, st.emitted, inp[..Used(st, inp)]);
    var fed := st.fed + inp[..Used(st, inp)];
    var queue := Partial(fed)[|st.emitted|..];
    assert st.emitted + queue == Partial(fed);
    assert st.emitted + Take(queue, room) <= Partial(fed);
  }

  lemma InflaterIsLawful()
    ensures InflateLaws(INFLATER, Parse) && NeverOutOfMemory(INFLATER)
  {
    ParseIsLawful();
    forall st: Us, inp: Bytes, room: nat | INFLATER.ok(st) && 0 < room
      ensures InflateStep(INFLATER, Parse, st, inp, room)
    {
      InflaterStep(st, inp, room);
    }
  }
}
