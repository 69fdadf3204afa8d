/** Exponential backoff with jitter on 64-bit durations (internal/backoff/backoff.go). */
module Backoff {

  const WORD := 0x1_0000_0000_0000_0000
  const HALF_WORD := 0x8000_0000_0000_0000
  const SECOND := 1_000_000_000
  const MILLISECOND := 1_000_000

  /** Two's-complement 64-bit value of x. */
  function Wrap(x: int): (r: int)
    ensures -HALF_WORD <= r < HALF_WORD && (x - r) % WORD == 0
  {
    (x + HALF_WORD) % WORD - HALF_WORD
  }

  function Power2(n: nat): nat {
    if n == 0 then 1 else 2 * Power2(n - 1)
  }

  /** Go's `base << attempt` on an int64. */
  function ShiftLeft(base: int, attempt: nat): int {
    Wrap(base * Power2(attempt))
  }

  lemma NoWrap(x: int)
    requires 0 <= x < HALF_WORD
    ensures Wrap(x) == x
  {
  }

  lemma {:induction false} ShiftPositive(base: int, n: nat)
    requires base > 0
    ensures base * Power2(n) > 0
  {
    if n > 0 {
      ShiftPositive(base, n - 1);
      assert base * Power2(n) == 2 * (base * Power2(n - 1));
    }
  }

  function Clamped(base: int, cap: int, attempt: nat): int {
    var max := ShiftLeft(base, attempt);
    if max > cap then cap else max
  }

  /** `draw` is the generator: Int63n(n) for a positive n. */
  ghost predicate IsDraw(draw: int -> int) {
    forall n :: 0 < n ==> 0 <= draw(n) < n
  }

  /** The random bound is always positive, even when the shift overflows. */
  method FullJitter(base: int, cap: int, attempt: nat, draw: int -> int) returns (sleep: int)
    requires IsDraw(draw)
    ensures 0 <= sleep < if cap <= 0 then 30 * SECOND else cap
    ensures var b, c := if base <= 0 then 50 * MILLISECOND else base, if cap <= 0 then 30 * SECOND else cap;
      b * Power2(attempt) < HALF_WORD ==> sleep == draw(if b * Power2(attempt) < c then b * Power2(attempt) else c)
  {
    var b := if base <= 0 then 50 * MILLISECOND else base;
    var c := if cap <= 0 then 30 * SECOND else cap;
    ShiftPositive(b, attempt);
    if b * Power2(attempt) < HALF_WORD {
      NoWrap(b * Power2(attempt));
    }
    var max := ShiftLeft(b, attempt);
    if max > c {
      max := c;
    }
    if max <= 0 {
      max := c;
    }
    sleep := draw(max);
  }

  datatype Jitter = Slept(duration: int) | Panicked

  /** Int63n panics unless its bound is positive. */
  method EqualJitter(base: int, cap: int, attempt: nat, draw: int -> int) returns (r: Jitter)
    requires IsDraw(draw)
    ensures r.Slept? <==> Clamped(base, cap, attempt) >= 2
    ensures r.Slept? ==> var half := Clamped(base, cap, attempt) / 2;
      r.duration == half + draw(half) && half <= r.duration < 2 * half
  {
    var max := ShiftLeft(base, attempt);
    if max > cap {
      max := cap;
    }
    var half := if max >= 0 then max / 2 else -(-max / 2);
    if half <= 0 {
      return Panicked;
    }
    return Slept(half + draw(half));
  }

  /** At most five consecutive failures keep the shift far from overflow. */
  lemma SubscriberBackoff(failures: nat)
    requires 1 <= failures <= 5
    ensures 2 * SECOND <= Clamped(SECOND, 30 * SECOND, failures) <= 30 * SECOND
  {
    PowerBounds(failures);
  }

  lemma PowerBounds(failures: nat)
    requires 1 <= failures <= 5
    ensures 2 <= Power2(failures) <= 32
    ensures Wrap(SECOND * Power2(failures)) == SECOND * Power2(failures)
  {
    assert Power2(1) == 2 && Power2(2) == 4 && Power2(3) == 8 && Power2(4) == 16 && Power2(5) == 32;
    var x := Power2(failures);
    assert x == 2 || x == 4 || x == 8 || x == 16 || x == 32;
  }

  lemma {:induction false} PowerSum(a: nat, b: nat)
    ensures Power2(a + b) == Power2(a) * Power2(b)
  {
    if b > 0 {
      PowerSum(a, b - 1);
    }
  }

  lemma Power34()
    ensures Power2(34) == 17_179_869_184
  {
    PowerSum(4, 4);
    PowerSum(8, 8);
    PowerSum(16, 16);
    PowerSum(32, 2);
  }

  /** Without that bound it would not be safe: attempt 34 already overflows to a negative shift. */
  lemma LargeAttemptPanics()
    ensures Clamped(SECOND, 30 * SECOND, 34) < 0
  {
    Power34();
    var x := SECOND * 17_179_869_184;
    assert x + HALF_WORD == WORD + 7_956_497_147_145_224_192;
  }
}
