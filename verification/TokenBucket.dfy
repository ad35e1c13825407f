/**
  The last-ditch rate limit on packets (check_bucket in quagga-srx/babeld/message.c).
*/
module TokenBucket {
  import opened Octets

  const BUCKET_TOKENS_MAX := 200
  const BUCKET_TOKENS_PER_SEC := 40

  datatype Bucket = Bucket(tokens: nat, time: int)

  /** The refill at the top of `check_bucket`: only an empty bucket is refilled. */
  function Refilled(b: Bucket, now: int): Bucket
  {
    if b.tokens > 0 then b
    else Bucket(if now > b.time then Min(BUCKET_TOKENS_MAX, (now - b.time) * BUCKET_TOKENS_PER_SEC) else b.tokens, now)
  }

  predicate Grants(b: Bucket, now: int) { Refilled(b, now).tokens > 0 }

  function Checked(b: Bucket, now: int): Bucket
  {
    var r := Refilled(b, now);
    if r.tokens > 0 then r.(tokens := r.tokens - 1) else r
  }

  /** The bucket after checks at the times `ts`. */
  function After(b: Bucket, ts: seq<int>): Bucket
  {
    if ts == [] then b else Checked(After(b, ts[..|ts| - 1]), ts[|ts| - 1])
  }

  /** How many of the checks at the times `ts` let a packet through. */
  function Granted(b: Bucket, ts: seq<int>): nat
  {
    if ts == [] then 0
    else Granted(b, ts[..|ts| - 1]) + if Grants(After(b, ts[..|ts| - 1]), ts[|ts| - 1]) then 1 else 0
  }

  ghost predicate Monotone(start: int, ts: seq<int>)
  {
    (ts != [] ==> start <= ts[0]) && forall i | 0 < i < |ts| :: ts[i - 1] <= ts[i]
  }

  function Last(start: int, ts: seq<int>): int { if ts == [] then start else ts[|ts| - 1] }

  /** Packets let through plus tokens left never exceed what time has earned. */
  lemma {:induction false} Conserved(b: Bucket, ts: seq<int>)
    requires Monotone(b.time, ts)
    ensures var a := After(b, ts);
      && b.time <= a.time <= Last(b.time, ts)
      && Granted(b, ts) + a.tokens <= b.tokens + BUCKET_TOKENS_PER_SEC * (a.time - b.time)
  {
    if ts != [] {
      var n := |ts| - 1;
      Conserved(b, ts[..n]);
    }
  }

  /** From the creation of an interface on: a burst of 200, then 40 packets per second. */
  lemma RateBounded(start: int, ts: seq<int>)
    requires Monotone(start, ts)
    ensures Granted(Bucket(200, start), ts) <= 200 + 40 * (Last(start, ts) - start)
  {
    Conserved(Bucket(BUCKET_TOKENS_MAX, start), ts);
  }

  /** The rate limit in any stretch of a run, whatever happened before it. */
  lemma {:induction false} WindowBounded(b: Bucket, ts: seq<int>)
    requires ts != [] && Monotone(ts[0], ts) && b.time <= ts[0]
    ensures Granted(b, ts) + After(b, ts).tokens
         <= b.tokens + BUCKET_TOKENS_MAX + BUCKET_TOKENS_PER_SEC * (Last(0, ts) - ts[0])
    ensures After(b, ts).time <= Last(0, ts) && ts[0] <= Last(0, ts)
    ensures After(b, ts).time < ts[0] ==> Granted(b, ts) + After(b, ts).tokens <= b.tokens
    ensures After(b, ts).time >= ts[0] ==>
      Granted(b, ts) + After(b, ts).tokens
        <= b.tokens + BUCKET_TOKENS_MAX + BUCKET_TOKENS_PER_SEC * (After(b, ts).time - ts[0])
  {
    var n := |ts| - 1;
    if n > 0 {
      assert ts[..n][0] == ts[0] && Last(0, ts[..n]) == ts[n - 1];
      WindowBounded(b, ts[..n]);
    } else {
      assert ts[..0] == [];
    }
  }

  // ---------- What is never refused ----------

  /** Refused exactly with no token left and the clock where the last refill found it, or behind. */
  lemma RefusedExactly(b: Bucket, now: int)
    ensures Grants(b, now) <==> b.tokens > 0 || now > b.time
    ensures b.tokens > 0 ==> Checked(b, now) == Bucket(b.tokens - 1, b.time)
    ensures b.tokens == 0 && now > b.time ==> Checked(b, now) == Bucket(Min(200, 40 * (now - b.time)) - 1, now)
    ensures b.tokens == 0 && now <= b.time ==> Checked(b, now) == Bucket(0, now)
  {
  }

  /** How many of the checks at the times `ts` that came at time `t` or later let a packet through. */
  function GrantedSince(b: Bucket, ts: seq<int>, t: int): nat
  {
    if ts == [] then 0
    else
      var n := |ts| - 1;
      GrantedSince(b, ts[..n], t) + if ts[n] >= t && Grants(After(b, ts[..n]), ts[n]) then 1 else 0
  }

  /** Tokens left and packets let through since the last refill make up what it brought. */
  lemma {:induction false} RefillSpent(start: int, ts: seq<int>)
    requires Monotone(start, ts)
    ensures var b := Bucket(200, start);
      After(b, ts).time <= Last(start, ts) && After(b, ts).tokens + GrantedSince(b, ts, After(b, ts).time) >= 40
  {
    if ts != [] {
      var n := |ts| - 1;
      var b, now := Bucket(200, start), ts[n];
      var a := After(b, ts[..n]);
      RefillSpent(start, ts[..n]);
      RefusedExactly(a, now);
      if a.tokens == 0 && a.time == now { assert After(b, ts) == a; }
    }
  }

  /** On a clock that never runs back, nobody is refused before 40 packets went out in the very same second. */
  lemma RefusedAfterForty(start: int, ts: seq<int>, now: int)
    requires Monotone(start, ts) && Last(start, ts) <= now && !Grants(After(Bucket(200, start), ts), now)
    ensures GrantedSince(Bucket(200, start), ts, now) >= 40
  {
    RefillSpent(start, ts);
    RefusedExactly(After(Bucket(200, start), ts), now);
  }

  /**
    The two fields of an interface, what `check_bucket` has let through since the interface was
    created, and how far the clock has moved forward between refills.
  */
  class Limiter {
    var bucket: int
    var bucketTime: int
    ghost var created: int
    ghost var granted: nat
    ghost var forward: nat
    ghost var steady: bool      // no refill has found the clock behind the last one

    /** Packets and tokens together are covered by the burst and by the time that has passed. */
    ghost predicate Valid()
      reads this
    {
      && bucket >= 0
      && granted + bucket <= BUCKET_TOKENS_MAX + BUCKET_TOKENS_PER_SEC * forward
      && (steady ==> forward == bucketTime - created)
    }

    ghost function State(): Bucket
      reads this
      requires Valid()
    {
      Bucket(bucket, bucketTime)
    }

    constructor (now: int)
      ensures Valid() && State() == Bucket(BUCKET_TOKENS_MAX, now) && created == now && granted == 0 && steady
    {
      bucket, bucketTime := BUCKET_TOKENS_MAX, now;
      created, granted, forward, steady := now, 0, 0, true;
    }

    /**
      `check_bucket`.  However the clock moves, what has been let through is covered by its
      forward moves; if it never runs backwards, by the time since creation.
    */
    method CheckBucket(now: int) returns (ok: bool)
      requires Valid()
      modifies this
      ensures Valid() && created == old(created) && granted == old(granted) + (if ok then 1 else 0)
      ensures steady == (old(steady) && (old(bucket) == 0 ==> old(bucketTime) <= now))
      ensures steady && bucketTime <= now ==> granted <= BUCKET_TOKENS_MAX + BUCKET_TOKENS_PER_SEC * (now - created)
      ensures ok <==> old(bucket) > 0 || now > old(bucketTime)
      ensures old(bucket) > 0 ==> bucket == old(bucket) - 1 && bucketTime == old(bucketTime)
      ensures old(bucket) == 0 && now > old(bucketTime) ==>
        bucket == Min(200, 40 * (now - old(bucketTime))) - 1 && bucketTime == now
      ensures old(bucket) == 0 && now <= old(bucketTime) ==> bucket == 0 && bucketTime == now
      ensures State() == Checked(old(State()), now) && ok == Grants(old(State()), now)
    {
      if bucket <= 0 {
        var seconds := now - bucketTime;
        if seconds > 0 {
          bucket := Min(BUCKET_TOKENS_MAX, seconds * BUCKET_TOKENS_PER_SEC);
          forward := forward + seconds;
        }
        steady := steady && seconds >= 0;
        bucketTime := now;
      }
      if bucket > 0 {
        bucket := bucket - 1;
        granted := granted + 1;
        ok := true;
      } else {
        ok := false;
      }
    }
  }
}
