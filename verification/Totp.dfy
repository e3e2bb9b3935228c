/** Time-based signatures: which ones a server accepts, and for how long. */
module Totp {
  import opened Basics

  const U64_MAX := 0xffff_ffff_ffff_ffff
  const SIG_LEN := 16

  type u64 = n: int | 0 <= n <= U64_MAX

  /** `hash(key, msg)` is `possibly_insecure_hash_with_key`, left abstract. */
  datatype Totp = Totp(key: seq<byte>, step: nat, skew: byte, hash: (seq<byte>, seq<byte>) -> seq<byte>)

  /** `u64::to_be_bytes`, generally. */
  function BigEndian(n: nat, width: nat): (b: seq<byte>)
    ensures |b| == width
  {
    if width == 0 then [] else BigEndian(n / 0x100, width - 1) + [n % 0x100]
  }

  function Truncate(b: seq<byte>): seq<byte> {
    if |b| <= SIG_LEN then b else b[..SIG_LEN]
  }

  function Generate(t: Totp, time: nat): seq<byte>
    requires t.step > 0
  {
    Truncate(t.hash(t.key, BigEndian(time / t.step, 8)))
  }

  function Sign(t: Totp, time: nat, nonce: seq<byte>): seq<byte>
    requires t.step > 0
  {
    Truncate(t.hash(Generate(t, time), nonce))
  }

  /** The signature of time step `s`: what signing at any second of that step gives. */
  function StepSignature(t: Totp, s: nat, nonce: seq<byte>): seq<byte> {
    Truncate(t.hash(Truncate(t.hash(t.key, BigEndian(s, 8))), nonce))
  }

  /** Overflow stands for arithmetic that panics in a checked build and wraps in a release build,
      and for division by a zero step. */
  datatype Verdict = Accept | Reject | Overflow

  /** No arithmetic in `verify` can overflow. */
  predicate InRange(t: Totp, time: nat) {
    && t.step > 0
    && t.skew <= 0x7f
    && time / t.step >= t.skew
    && (time / t.step + t.skew) * t.step <= U64_MAX
  }

  /** A step that some 64-bit time falls into. */
  predicate Reachable(t: Totp, s: nat) {
    s * t.step <= U64_MAX
  }

  /** A signature of one of the 2 * skew + 1 steps around the current one. */
  ghost predicate InWindow(t: Totp, nonce: seq<byte>, sig: seq<byte>, time: nat)
    requires t.step > 0
  {
    exists s: nat ::
      time / t.step - t.skew <= s <= time / t.step + t.skew && Reachable(t, s) && StepSignature(t, s, nonce) == sig
  }

  /** What `verify` answers from step `base + i` on. */
  function VerifyFrom(t: Totp, nonce: seq<byte>, sig: seq<byte>, base: nat, i: nat): Verdict
    requires t.step > 0 && i <= 2 * t.skew + 1
    decreases 2 * t.skew + 1 - i
  {
    if i > 2 * t.skew then Reject
    else if (base + i) * t.step > U64_MAX then Overflow
    else if Sign(t, (base + i) * t.step, nonce) == sig then Accept
    else VerifyFrom(t, nonce, sig, base, i + 1)
  }

  function VerifyAt(t: Totp, nonce: seq<byte>, sig: seq<byte>, time: nat): Verdict {
    if t.step == 0 || t.skew > 0x7f || time / t.step < t.skew then Overflow
    else VerifyFrom(t, nonce, sig, time / t.step - t.skew, 0)
  }

  method Verify(t: Totp, nonce: seq<byte>, sig: seq<byte>, time: nat) returns (v: Verdict)
    ensures v == VerifyAt(t, nonce, sig, time)
  {
    hide Sign;
    if t.step == 0 || time / t.step < t.skew || t.skew > 0x7f {
      return Overflow;
    }
    var base: nat := time / t.step - t.skew;
    var i: nat := 0;
    while i <= 2 * t.skew
      invariant i <= 2 * t.skew + 1
      invariant VerifyFrom(t, nonce, sig, base, i) == VerifyAt(t, nonce, sig, time)
    {
      var stepTime := (base + i) * t.step;
      if stepTime > U64_MAX {
        return Overflow;
      }
      if Sign(t, stepTime, nonce) == sig {
        return Accept;
      }
      i := i + 1;
    }
    return Reject;
  }

  // ---------- division ----------

  lemma MultiplyMonotone(a: int, b: int, step: nat)
    requires a <= b
    ensures a * step <= b * step
  {
    assert (b - a) * step >= 0;
  }

  lemma LessThanMultiple(a: int, b: int, step: nat)
    requires a * step < b * step
    ensures a < b
  {
    if b <= a {
      MultiplyMonotone(b, a, step);
    }
  }

  lemma DivOfMultiple(s: nat, step: nat)
    requires step > 0
    ensures (s * step) / step == s
  {
    var q: int, m: int := (s * step) / step, s * step;
    assert q * step <= m < q * step + step;
    assert (q + 1) * step == q * step + step && (s + 1) * step == m + step;
    LessThanMultiple(s, q + 1, step);
    LessThanMultiple(q, s + 1, step);
  }

  /** Seconds apart bound steps apart, from above. */
  lemma StepsApart(a: nat, b: nat, k: nat, step: nat)
    requires step > 0 && a <= b + k * step
    ensures a / step <= b / step + k
  {
    var qa: int, qb: int := a / step, b / step;
    assert qa * step <= a;
    assert b < qb * step + step;
    assert (qb + k + 1) * step == qb * step + k * step + step;
    LessThanMultiple(qa, qb + k + 1, step);
  }

  /** And from below. */
  lemma StepsApartAtLeast(a: nat, b: nat, k: nat, step: nat)
    requires step > 0 && a >= b + k * step
    ensures a / step >= b / step + k
  {
    var qa: int, qb: int := a / step, b / step;
    assert a < qa * step + step;
    assert qb * step <= b;
    assert (qa + 1) * step == qa * step + step;
    assert (qb + k) * step == qb * step + k * step;
    LessThanMultiple(qb + k, qa + 1, step);
  }

  // ---------- the window ----------

  lemma SignIsStepSignature(t: Totp, time: nat, nonce: seq<byte>)
    requires t.step > 0
    ensures Sign(t, time, nonce) == StepSignature(t, time / t.step, nonce)
  {
  }

  lemma {:induction false} VerifyFromIsSearch(t: Totp, nonce: seq<byte>, sig: seq<byte>, base: nat, i: nat)
    requires t.step > 0 && i <= 2 * t.skew + 1
    ensures VerifyFrom(t, nonce, sig, base, i) == Accept ==>
              exists s: nat ::
                base + i <= s <= base + 2 * t.skew && Reachable(t, s) && StepSignature(t, s, nonce) == sig
    ensures (base + 2 * t.skew) * t.step <= U64_MAX ==>
              && VerifyFrom(t, nonce, sig, base, i) != Overflow
              && ((exists s: nat :: base + i <= s <= base + 2 * t.skew && StepSignature(t, s, nonce) == sig)
                  ==> VerifyFrom(t, nonce, sig, base, i) == Accept)
    decreases 2 * t.skew + 1 - i
  {
    hide StepSignature, Sign;
    if i <= 2 * t.skew {
      VerifyFromIsSearch(t, nonce, sig, base, i + 1);
      DivOfMultiple(base + i, t.step);
      SignIsStepSignature(t, (base + i) * t.step, nonce);
      assert (base + 2 * t.skew - (base + i)) * t.step >= 0;
    }
  }

  /** `verify` accepts exactly the signatures of the window, and accepts nothing else even when
      its arithmetic could overflow. */
  lemma VerifyIsWindow(t: Totp, nonce: seq<byte>, sig: seq<byte>, time: nat)
    ensures VerifyAt(t, nonce, sig, time) == Accept ==> t.step > 0 && InWindow(t, nonce, sig, time)
    ensures InRange(t, time) ==>
              && VerifyAt(t, nonce, sig, time) != Overflow
              && (InWindow(t, nonce, sig, time) ==> VerifyAt(t, nonce, sig, time) == Accept)
  {
    hide StepSignature, VerifyFrom;
    if t.step > 0 && t.skew <= 0x7f && time / t.step >= t.skew {
      var base := time / t.step - t.skew;
      assert base + 2 * t.skew == time / t.step + t.skew;
      VerifyFromIsSearch(t, nonce, sig, base, 0);
    }
  }

  /** Distinct steps that 64-bit times fall into sign this nonce differently. */
  ghost predicate CollisionFree(t: Totp, nonce: seq<byte>) {
    forall a: nat, b: nat ::
      Reachable(t, a) && Reachable(t, b) && StepSignature(t, a, nonce) == StepSignature(t, b, nonce) ==> a == b
  }

  lemma {:induction false} BigEndianInjective(a: nat, b: nat, width: nat)
    requires a < Power(width) && b < Power(width) && BigEndian(a, width) == BigEndian(b, width)
    ensures a == b
  {
    if width > 0 {
      var x, y := BigEndian(a / 0x100, width - 1), BigEndian(b / 0x100, width - 1);
      assert BigEndian(a, width) == x + [a % 0x100] && BigEndian(b, width) == y + [b % 0x100];
      assert |x| == |y| == width - 1;
      assert x == (x + [a % 0x100])[..width - 1] == (y + [b % 0x100])[..width - 1] == y;
      assert a % 0x100 == (x + [a % 0x100])[width - 1] == (y + [b % 0x100])[width - 1] == b % 0x100;
      BigEndianInjective(a / 0x100, b / 0x100, width - 1);
    }
  }

  /** How many numbers `width` bytes can hold. */
  function Power(width: nat): nat {
    if width == 0 then 1 else 0x100 * Power(width - 1)
  }

  lemma StepBelowPower(t: Totp, s: nat)
    requires t.step > 0 && Reachable(t, s)
    ensures s < Power(8)
  {
    assert Power(8) == U64_MAX + 1 by {
      assert Power(2) == 0x1_0000 && Power(4) == 0x1_0000_0000 && Power(6) == 0x1_0000_0000_0000;
    }
    MultiplyMonotone(1, t.step, s);
    assert s * t.step == t.step * s;
  }

  /** The assumption is not empty: for any step and skew some keyed hash has no collisions at all. */
  lemma CollisionFreeExists(step: nat, skew: byte) returns (t: Totp)
    requires step > 0
    ensures t.step == step && t.skew == skew
    ensures forall nonce :: CollisionFree(t, nonce)
  {
    t := Totp([], step, skew, (key, msg) => if key == [] then msg else key);
    forall nonce: seq<byte>, a: nat, b: nat |
      Reachable(t, a) && Reachable(t, b) && StepSignature(t, a, nonce) == StepSignature(t, b, nonce)
      ensures a == b
    {
      StepBelowPower(t, a);
      StepBelowPower(t, b);
      assert StepSignature(t, a, nonce) == BigEndian(a, 8) && StepSignature(t, b, nonce) == BigEndian(b, 8);
      BigEndianInjective(a, b, 8);
    }
  }

  /** Anything signed within skew * step seconds, either way, verifies. */
  lemma RecentSignatureVerifies(t: Totp, nonce: seq<byte>, signed: nat, time: nat)
    requires InRange(t, time)
    requires signed <= time + t.skew * t.step && time <= signed + t.skew * t.step
    ensures VerifyAt(t, nonce, Sign(t, signed, nonce), time) == Accept
  {
    hide StepSignature, Sign, VerifyAt;
    SignIsStepSignature(t, signed, nonce);
    StepsApart(signed, time, t.skew, t.step);
    StepsApart(time, signed, t.skew, t.step);
    var s := signed / t.step;
    assert time / t.step - t.skew <= s <= time / t.step + t.skew;
    VerifyIsWindow(t, nonce, Sign(t, signed, nonce), time);
  }

  lemma WindowMeansClose(t: Totp, nonce: seq<byte>, sig: seq<byte>, s: nat, time: nat)
    requires t.step > 0 && CollisionFree(t, nonce)
    requires Reachable(t, s) && sig == StepSignature(t, s, nonce) && InWindow(t, nonce, sig, time)
    ensures time / t.step - t.skew <= s <= time / t.step + t.skew
  {
    hide StepSignature;
  }

  lemma TimeIsReachable(t: Totp, time: u64)
    requires t.step > 0
    ensures Reachable(t, time / t.step)
  {
  }

  /** Without collisions, nothing signed (skew + 1) * step or more seconds away verifies. */
  lemma StaleSignatureFails(t: Totp, nonce: seq<byte>, signed: u64, time: nat)
    requires t.step > 0 && CollisionFree(t, nonce)
    requires signed >= time + (t.skew + 1) * t.step || time >= signed + (t.skew + 1) * t.step
    ensures VerifyAt(t, nonce, Sign(t, signed, nonce), time) != Accept
  {
    hide *;
    FarStepsApart(signed, time, t.skew, t.step);
    StaleStepFails(t, nonce, signed, signed / t.step, time, time / t.step);
  }

  lemma StaleStepFails(t: Totp, nonce: seq<byte>, signed: u64, s: nat, time: nat, now: nat)
    requires t.step > 0 && CollisionFree(t, nonce) && s == signed / t.step && now == time / t.step
    requires s > now + t.skew || s < now - t.skew
    ensures VerifyAt(t, nonce, Sign(t, signed, nonce), time) != Accept
  {
    hide StepSignature, Sign, VerifyAt, InWindow, CollisionFree, Reachable;
    var sig := Sign(t, signed, nonce);
    SignIsStepSignature(t, signed, nonce);
    VerifyIsWindow(t, nonce, sig, time);
    if InWindow(t, nonce, sig, time) {
      TimeIsReachable(t, signed);
      WindowMeansClose(t, nonce, sig, s, time);
    }
  }

  lemma FarStepsApart(a: nat, b: nat, skew: nat, step: nat)
    requires step > 0 && (a >= b + (skew + 1) * step || b >= a + (skew + 1) * step)
    ensures a / step > b / step + skew || a / step < b / step - skew
  {
    if a >= b + (skew + 1) * step {
      StepsApartAtLeast(a, b, skew + 1, step);
    } else {
      StepsApartAtLeast(b, a, skew + 1, step);
    }
  }

  /** Two times at which the same signature verifies are less than (2 * skew + 1) * step apart. */
  lemma VerifiedTimesAreClose(t: Totp, nonce: seq<byte>, sig: seq<byte>, t1: nat, t2: nat)
    requires VerifyAt(t, nonce, sig, t1) == Accept && VerifyAt(t, nonce, sig, t2) == Accept
    requires CollisionFree(t, nonce)
    ensures t2 < t1 + (2 * t.skew + 1) * t.step
  {
    hide StepSignature, VerifyAt;
    VerifyIsWindow(t, nonce, sig, t1);
    VerifyIsWindow(t, nonce, sig, t2);
    var s: nat :| Reachable(t, s) && StepSignature(t, s, nonce) == sig;
    WindowMeansClose(t, nonce, sig, s, t1);
    WindowMeansClose(t, nonce, sig, s, t2);
    if t2 >= t1 + (2 * t.skew + 1) * t.step {
      StepsApartAtLeast(t2, t1, 2 * t.skew + 1, t.step);
    }
  }

  // ---------- what a signature binds ----------

  /** A signature is for one nonce: some keyed hash makes `verify` refuse it for every other short one. */
  lemma NonceMatters(step: nat, skew: byte, n1: seq<byte>, n2: seq<byte>, signed: nat, time: nat) returns (t: Totp)
    requires step > 0 && n1 != n2 && |n1| <= SIG_LEN && |n2| <= SIG_LEN
    ensures t.step == step && t.skew == skew
    ensures VerifyAt(t, n2, Sign(t, signed, n1), time) != Accept
  {
    t := Totp([], step, skew, (key, msg) => msg);
    assert Sign(t, signed, n1) == n1;
    VerifyIsWindow(t, n2, n1, time);
    assert forall s: nat :: StepSignature(t, s, n2) == n2;
  }

  /** And by one key: some hash makes `verify` refuse it under every other key of signature length. */
  lemma KeyMatters(step: nat, skew: byte, k1: seq<byte>, k2: seq<byte>, nonce: seq<byte>, signed: nat, time: nat)
    returns (t: Totp)
    requires step > 0 && k1 != k2 && |k1| <= SIG_LEN && |k2| <= SIG_LEN
    ensures t.step == step && t.skew == skew && t.key == k2
    ensures VerifyAt(t, nonce, Sign(t.(key := k1), signed, nonce), time) != Accept
  {
    t := Totp(k2, step, skew, (key, msg) => key);
    assert Sign(t.(key := k1), signed, nonce) == k1;
    VerifyIsWindow(t, nonce, k1, time);
    assert forall s: nat :: StepSignature(t, s, nonce) == k2;
  }
}
