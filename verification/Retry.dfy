/** The retry loops with exponential back-off of src/timeout.c. */
module Retry {

  datatype Status = Success | Enoent | Eisdir | Einval | Other(code: int)

  /** The wrappers, by the statuses at which they stop. */
  datatype Wrapper =
    | Getattr         // dfs_getattr_gen_timeout
    | Setattr
    | Mknod
    | Chdir
    | NameOperation   // mkdir, unlink, rmdir, fcopy, opendir, namei, head_all

  predicate Final(w: Wrapper, rc: Status) {
    match w
    case Getattr => rc in {Success, Eisdir, Enoent}
    case Setattr => rc in {Success, Eisdir}
    case Mknod => rc == Success
    case Chdir => rc in {Success, Einval}
    case NameOperation => rc in {Success, Enoent}
  }

  /** The wrappers that each status stops: Success all of them, the others those that take it for an answer. */
  lemma StopsAt(w: Wrapper, code: int)
    ensures Final(w, Success)
    ensures Final(w, Enoent) <==> w == Getattr || w == NameOperation
    ensures Final(w, Eisdir) <==> w == Getattr || w == Setattr
    ensures Final(w, Einval) <==> w == Chdir
    ensures !Final(w, Other(code))
  {
  }

  function Pow2(k: nat): nat { if k == 0 then 1 else 2 * Pow2(k - 1) }

  /** How many retries the configuration allows; a negative setting allows none. */
  function Allowed(maxRetry: int): nat { if maxRetry < 0 then 0 else maxRetry }

  /**
   One wrapper: `outcome(k)` is the status of call `k`. It stops at the first final status, or
   after as many retries as are allowed, returns the status of the last call, and sleeps one
   second, then two, then four, and so on in between.
   */
  method CallWithRetry(w: Wrapper, outcome: nat -> Status, maxRetry: int)
    returns (rc: Status, calls: nat, slept: nat, delay: nat)
    ensures 1 <= calls <= Allowed(maxRetry) + 1
    ensures rc == outcome(calls - 1)
    ensures forall k :: 0 <= k < calls - 1 ==> !Final(w, outcome(k))
    ensures Final(w, rc) || calls == Allowed(maxRetry) + 1
    ensures || rc == Success
            || (w in {Getattr, NameOperation} && rc == Enoent)
            || (w in {Getattr, Setattr} && rc == Eisdir)
            || (w == Chdir && rc == Einval)
            || calls == (if maxRetry < 0 then 0 else maxRetry) + 1
    ensures forall k :: 0 <= k < calls - 1 ==>
              && outcome(k) != Success
              && (outcome(k) == Enoent ==> w in {Setattr, Mknod, Chdir})
              && (outcome(k) == Eisdir ==> w in {Mknod, Chdir, NameOperation})
              && (outcome(k) == Einval ==> w != Chdir)
    ensures delay == Pow2(calls - 1) && slept == Pow2(calls - 1) - 1
  {
    var tries := 0;
    delay, slept := 1, 0;
    rc := outcome(0);
    calls := 1;
    while !Final(w, rc) && tries < maxRetry
      invariant 0 <= tries <= Allowed(maxRetry) && calls == tries + 1
      invariant rc == outcome(tries)
      invariant forall k :: 0 <= k < tries ==> !Final(w, outcome(k))
      invariant delay == Pow2(tries) && slept == Pow2(tries) - 1
      decreases maxRetry - tries
    {
      tries := tries + 1;
      slept := slept + delay;
      delay := delay * 2;
      rc := outcome(tries);
      calls := calls + 1;
    }
  }

  lemma {:induction false} Pow2Grows(j: nat, k: nat)
    requires j <= k
    ensures Pow2(j) <= Pow2(k)
  {
    if j < k {
      Pow2Grows(j, k - 1);
    }
  }

  const INT_MAX: int := 0x7FFF_FFFF

  /** The `int` that holds the delay does not overflow exactly up to 30 retries. */
  lemma DelayFitsIff(retries: nat)
    ensures Pow2(retries) <= INT_MAX <==> retries <= 30
  {
    assert Pow2(10) == 1024;
    assert Pow2(20) == 1048576 by { assert Pow2(15) == 32768; }
    assert Pow2(25) == 33554432;
    assert Pow2(30) == 1073741824;
    assert Pow2(31) == 2147483648;
    if retries <= 30 {
      Pow2Grows(retries, 30);
    } else {
      Pow2Grows(31, retries);
    }
  }

  /** No delay ever overflows, whatever the calls return, exactly when at most 30 retries are allowed. */
  lemma AllDelaysFitIff(maxRetry: int)
    ensures (forall retries: nat :: retries <= Allowed(maxRetry) ==> Pow2(retries) <= INT_MAX) <==> maxRetry <= 30
  {
    forall retries: nat
      ensures Pow2(retries) <= INT_MAX <==> retries <= 30
    {
      DelayFitsIff(retries);
    }
    if 30 < maxRetry {
      assert 31 <= Allowed(maxRetry) && Pow2(31) > INT_MAX;
    }
  }
}
