/** The Finder's token bucket. Clock readings are reals in seconds; rounding of
    the source's float64 is not modelled. */
module RateLimiter {

  datatype Bucket = Bucket(tokens: real, burst: real, rate: real, last: real)
  {
    predicate Disabled() {
      rate <= 0.0 || burst <= 0.0
    }

    ghost predicate Valid() {
      rate > 0.0 && 0.0 <= tokens <= burst && burst > 0.0
    }
  }

  function New(rate: real, burst: real, now: real): Bucket {
    Bucket(burst, burst, rate, now)
  }

  function Earned(elapsed: real, rate: real): real {
    elapsed * rate
  }

  /** The refill: only forward clock movement adds tokens, capped at burst. */
  function Refill(b: Bucket, now: real): Bucket {
    if now > b.last then
      var t := b.tokens + Earned(now - b.last, b.rate);
      b.(tokens := if t > b.burst then b.burst else t, last := now)
    else b
  }

  predicate Grants(b: Bucket, now: real) {
    b.Disabled() || Refill(b, now).tokens >= 1.0
  }

  function Allow(b: Bucket, now: real): Bucket {
    if b.Disabled() then b
    else
      var r := Refill(b, now);
      if r.tokens >= 1.0 then r.(tokens := r.tokens - 1.0) else r
  }

  class Limiter {
    var tokens: real
    var last: real
    const burst: real
    const rate: real

    ghost function State(): Bucket
      reads this
    {
      Bucket(tokens, burst, rate, last)
    }

    constructor (rate: real, burst: real, now: real)
      ensures State() == New(rate, burst, now)
    {
      this.tokens, this.last := burst, now;
      this.burst, this.rate := burst, rate;
    }

    /** One request at clock reading `now`; the mutex makes the call atomic. */
    method Request(now: real) returns (ok: bool)
      modifies this
      ensures State() == Allow(old(State()), now)
      ensures ok == Grants(old(State()), now)
    {
      if rate <= 0.0 || burst <= 0.0 {
        return true;
      }
      var elapsed := now - last;
      if elapsed > 0.0 {
        tokens := tokens + Earned(elapsed, rate);
        if tokens > burst {
          tokens := burst;
        }
        last := now;
      }
      if tokens >= 1.0 {
        tokens := tokens - 1.0;
        return true;
      }
      return false;
    }
  }

  // ---- whole runs ----------------------------------------------------------

  /** The bucket after requests at the readings ts, in order. */
  ghost function After(b: Bucket, ts: seq<real>): Bucket
    decreases |ts|
  {
    if ts == [] then b else After(Allow(b, ts[0]), ts[1..])
  }

  ghost function Granted(b: Bucket, ts: seq<real>): nat
    decreases |ts|
  {
    if ts == [] then 0 else (if Grants(b, ts[0]) then 1 else 0) + Granted(Allow(b, ts[0]), ts[1..])
  }

  ghost function Latest(t: real, ts: seq<real>): real
    decreases |ts|
  {
    if ts == [] then t else Latest(if ts[0] > t then ts[0] else t, ts[1..])
  }

  lemma AllowKeepsValid(b: Bucket, now: real)
    requires b.Valid()
    ensures Allow(b, now).Valid()
    ensures Allow(b, now).tokens + (if Grants(b, now) then 1.0 else 0.0)
            <= b.tokens + Earned(Allow(b, now).last - b.last, b.rate)
  {
    assert now > b.last ==> Earned(now - b.last, b.rate) >= 0.0;
  }

  /** No tokens out of thin air: what a window grants plus what is left at its
      end is at most what it started with plus the refill of the clock's advance. */
  lemma {:induction false} WindowBudget(b: Bucket, ts: seq<real>)
    requires b.Valid()
    ensures After(b, ts).Valid()
    ensures After(b, ts).burst == b.burst && After(b, ts).rate == b.rate
    ensures After(b, ts).last == Latest(b.last, ts)
    ensures After(b, ts).tokens + Granted(b, ts) as real <= b.tokens + Earned(After(b, ts).last - b.last, b.rate)
    decreases |ts|
  {
    hide Earned;
    Distribute(b.rate, b.last, b.last, b.last);
    if ts != [] {
      var b' := Allow(b, ts[0]);
      AllowKeepsValid(b, ts[0]);
      WindowBudget(b', ts[1..]);
      Distribute(b.rate, b.last, b'.last, After(b', ts[1..]).last);
    }
  }

  lemma Distribute(rate: real, a: real, b: real, c: real)
    ensures Earned(b - a, rate) + Earned(c - b, rate) == Earned(c - a, rate)
    ensures Earned(a - a, rate) == 0.0
  {
  }

  /** The promise of the limiter, for any sequence of clock readings including
      backward jumps: any window of the run grants at most
      burst + rate * (advance of the latest reading), and tokens stay in range. */
  lemma WindowBound(rate: real, burst: real, created: real, before: seq<real>, window: seq<real>)
    requires rate > 0.0 && burst > 0.0
    ensures var b := After(New(rate, burst, created), before);
            var e := After(b, window);
            && 0.0 <= e.tokens <= burst
            && b.last == Latest(created, before) && e.last == Latest(b.last, window)
            && Granted(b, window) as real <= burst + Earned(e.last - b.last, rate)
  {
    hide Earned, Allow;
    WindowBudget(New(rate, burst, created), before);
    WindowBudget(After(New(rate, burst, created), before), window);
  }

  // ---- no token is lost ----------------------------------------------------

  /** What a refill at `now` could not hold. */
  function Overflow(b: Bucket, now: real): real {
    if now > b.last && b.tokens + Earned(now - b.last, b.rate) > b.burst
    then b.tokens + Earned(now - b.last, b.rate) - b.burst else 0.0
  }

  ghost function Spilled(b: Bucket, ts: seq<real>): real
    decreases |ts|
  {
    if ts == [] then 0.0 else Overflow(b, ts[0]) + Spilled(Allow(b, ts[0]), ts[1..])
  }

  /** Tokens are neither made nor lost: over any readings, what is left, what was
      granted and what a full bucket could not hold add up to what there was and
      what the clock's advance earned. In particular a refusal takes nothing. */
  lemma {:induction false} TokensAreConserved(b: Bucket, ts: seq<real>)
    requires b.Valid()
    ensures After(b, ts).tokens + Granted(b, ts) as real + Spilled(b, ts) ==
              b.tokens + Earned(After(b, ts).last - b.last, b.rate)
    decreases |ts|
  {
    hide Earned;
    Distribute(b.rate, b.last, b.last, b.last);
    if ts != [] {
      var b' := Allow(b, ts[0]);
      AllowKeepsValid(b, ts[0]);
      TokensAreConserved(b', ts[1..]);
      Distribute(b.rate, b.last, b'.last, After(b', ts[1..]).last);
    }
  }

  /** Nobody waits in vain: once what is there and what the clock has earned make a
      token, the next call is granted, however many refused calls lie between. So
      after any grant a wait of 1/rate suffices. */
  lemma {:induction false} WaitingPays(b: Bucket, refused: seq<real>, now: real)
    requires b.Valid() && b.burst >= 1.0 && Granted(b, refused) == 0
    requires b.tokens + Earned(now - b.last, b.rate) >= 1.0
    ensures Grants(After(b, refused), now)
    decreases |refused|
  {
    hide Earned;
    EarnedSign(now - b.last, b.rate);
    if refused != [] {
      var b' := Allow(b, refused[0]);
      AllowKeepsValid(b, refused[0]);
      Distribute(b.rate, b.last, b'.last, now);
      WaitingPays(b', refused[1..], now);
    }
  }

  /** A limiter built with no rate or no burst limits nothing. */
  lemma {:induction false} DisabledGrantsAll(b: Bucket, ts: seq<real>)
    requires b.rate <= 0.0 || b.burst <= 0.0
    ensures Granted(b, ts) == |ts|
    decreases |ts|
  {
    if ts != [] { DisabledGrantsAll(Allow(b, ts[0]), ts[1..]); }
  }

  /** Calls at 0, 0.5 and 1 on a one-per-second limiter with burst one: served,
      refused, served. */
  lemma PollingIsServed()
    ensures var b := New(1.0, 1.0, 0.0);
            Grants(b, 0.0) && !Grants(After(b, [0.0]), 0.5) && Grants(After(b, [0.0, 0.5]), 1.0)
  {
    var b := New(1.0, 1.0, 0.0);
    assert [0.0, 0.5][1..] == [0.5] && [0.5][1..] == [] && [0.0][1..] == [];
    assert After(b, [0.0]) == Bucket(0.0, 1.0, 1.0, 0.0);
    assert After(b, [0.0, 0.5]) == Bucket(0.5, 1.0, 1.0, 0.5);
  }

  // ---- who is served -------------------------------------------------------

  /** Consecutive readings at least 1/rate apart. */
  ghost predicate Spaced(rate: real, ts: seq<real>) {
    forall i :: 0 <= i < |ts| - 1 ==> Earned(ts[i + 1] - ts[i], rate) >= 1.0
  }

  lemma EarnedSign(elapsed: real, rate: real)
    requires rate > 0.0
    ensures Earned(elapsed, rate) > 0.0 <==> elapsed > 0.0
    ensures elapsed == 0.0 ==> Earned(elapsed, rate) == 0.0
  {
  }

  lemma SpacedTail(rate: real, ts: seq<real>)
    requires Spaced(rate, ts) && ts != []
    ensures Spaced(rate, ts[1..])
  {
    var tail := ts[1..];
    forall i | 0 <= i < |tail| - 1 ensures Earned(tail[i + 1] - tail[i], rate) >= 1.0 {
      assert tail[i + 1] == ts[(i + 1) + 1] && tail[i] == ts[i + 1];
    }
  }

  lemma {:induction false} SpacedServed(b: Bucket, ts: seq<real>)
    requires b.Valid() && b.burst >= 1.0 && Spaced(b.rate, ts)
    requires ts != [] ==> ts[0] >= b.last && b.tokens + Earned(ts[0] - b.last, b.rate) >= 1.0
    ensures Granted(b, ts) == |ts|
    decreases |ts|
  {
    hide Earned;
    if ts != [] {
      var b' := Allow(b, ts[0]);
      AllowKeepsValid(b, ts[0]);
      EarnedSign(ts[0] - b.last, b.rate);
      assert Grants(b, ts[0]) && b'.last == ts[0];
      if |ts| > 1 {
        EarnedSign(ts[0 + 1] - ts[0], b.rate);
      }
      SpacedTail(b.rate, ts);
      SpacedServed(b', ts[1..]);
    }
  }

  /** A bucket smaller than one token never serves anyone. */
  lemma {:induction false} SmallBucketStarves(b: Bucket, ts: seq<real>)
    requires b.Valid() && b.burst < 1.0
    ensures Granted(b, ts) == 0
    decreases |ts|
  {
    if ts != [] {
      AllowKeepsValid(b, ts[0]);
      SmallBucketStarves(Allow(b, ts[0]), ts[1..]);
    }
  }

  lemma {:induction false} GrantedAtMost(b: Bucket, ts: seq<real>)
    ensures Granted(b, ts) <= |ts|
    decreases |ts|
  {
    if ts != [] { GrantedAtMost(Allow(b, ts[0]), ts[1..]); }
  }

  /** How many readings come before the clock reaches t. */
  function Early(t: real, ts: seq<real>): (k: nat)
    ensures k <= |ts|
  {
    if ts == [] || ts[0] >= t then 0 else 1 + Early(t, ts[1..])
  }

  /** The early calls fit into the tokens at hand, and the first later one finds
      a whole token. */
  ghost predicate EarlyCallsFit(b: Bucket, ts: seq<real>) {
    var k := Early(b.last, ts);
    && k as real <= b.tokens
    && (k < |ts| ==> b.burst >= 1.0 && b.tokens - k as real + Earned(ts[k] - b.last, b.rate) >= 1.0)
  }

  lemma {:induction false} SpacedExactly(b: Bucket, ts: seq<real>)
    requires b.Valid() && Spaced(b.rate, ts)
    ensures Granted(b, ts) == |ts| <==> EarlyCallsFit(b, ts)
    decreases |ts|
  {
    hide Earned;
    if ts != [] {
      var b' := Allow(b, ts[0]);
      AllowKeepsValid(b, ts[0]);
      EarnedSign(ts[0] - b.last, b.rate);
      GrantedAtMost(b', ts[1..]);
      if Grants(b, ts[0]) {
        SpacedTail(b.rate, ts);
        if ts[0] >= b.last {
          SpacedServed(b, ts);
        } else {
          SpacedExactly(b', ts[1..]);
          assert Early(b.last, ts) == 1 + Early(b'.last, ts[1..]);
        }
      }
    }
  }

  /** Callers spaced 1/rate apart, whenever they start: all are served exactly when
      the calls before the creation reading fit into the bucket and the first one
      after it finds a token. With no such early call that is: exactly when the
      bucket holds a whole token. */
  lemma SpacedCallersServed(rate: real, burst: real, created: real, ts: seq<real>)
    requires rate > 0.0 && burst > 0.0
    requires ts != [] && Spaced(rate, ts)
    ensures Granted(New(rate, burst, created), ts) == |ts| <==> EarlyCallsFit(New(rate, burst, created), ts)
    ensures ts[0] >= created ==> (Granted(New(rate, burst, created), ts) == |ts| <==> burst >= 1.0)
  {
    hide Granted, Earned, Spaced;
    SpacedExactly(New(rate, burst, created), ts);
    if ts[0] >= created {
      EarnedSign(ts[0] - created, rate);
    }
  }

  /** A clock that never passes the last reading refills nothing, however the
      calls are spaced: then everyone is served exactly when the tokens at hand
      suffice. */
  lemma {:induction false} StalledClock(b: Bucket, ts: seq<real>)
    requires b.Valid() && forall i :: 0 <= i < |ts| ==> ts[i] <= b.last
    ensures Granted(b, ts) == |ts| <==> |ts| as real <= b.tokens
    ensures Granted(b, ts) <= |ts|
    decreases |ts|
  {
    if ts != [] {
      var b' := Allow(b, ts[0]);
      AllowKeepsValid(b, ts[0]);
      StalledClock(b', ts[1..]);
      assert |ts| as real == |ts[1..]| as real + 1.0;
    }
  }

  /** So spacing alone is not enough: two calls a full second apart before the
      creation reading of a one-per-second limiter with burst one. */
  lemma SpacingBeforeCreationFails()
    ensures Spaced(1.0, [50.0, 51.0])
    ensures Granted(New(1.0, 1.0, 100.0), [50.0, 51.0]) != 2
  {
    StalledClock(New(1.0, 1.0, 100.0), [50.0, 51.0]);
  }
}
