/**
 * Go's integer arithmetic, as the renderer uses it.
 *
 * Dafny's `/` on `int` is Euclidean; Go's `/` truncates toward zero. The
 * renderer only divides non-negative numbers by positive ones, where the two
 * agree, but the model spells Go's operator out so that every division in it
 * is the one the program performs. `Steps` counts the iterations of Go's
 * counting loop `for v := 0; v < bound; v += step`.
 */
module GoInt {

  function Abs(a: int): (r: int)
    ensures r >= 0 && (r == a || r == -a)
  {
    if a < 0 then -a else a
  }

  /** Go's `a / b`: the quotient truncated toward zero; the remainder
      `a - q*b` has the sign of `a` and is smaller than `b` in magnitude. */
  function Quo(a: int, b: int): (q: int)
    requires b != 0
    ensures a >= 0 ==> 0 <= a - q * b < Abs(b)
    ensures a < 0 ==> -Abs(b) < a - q * b <= 0
  {
    if a >= 0 then a / b else -((-a) / b)
  }

  /** On a non-negative dividend and a positive divisor Go's quotient is the
      floor quotient. */
  lemma QuoIsFloor(a: int, b: int)
    requires a >= 0 && b > 0
    ensures Quo(a, b) == a / b
    ensures Quo(a, b) * b <= a < (Quo(a, b) + 1) * b
  {
  }

  /** Number of iterations of `for v := 0; v < bound; v += step`. */
  function Steps(bound: int, step: int): (n: nat)
    requires step >= 1
    ensures bound <= 0 ==> n == 0
    ensures bound > 0 ==> n >= 1
  {
    if bound <= 0 then 0 else (bound + step - 1) / step
  }

  /** The k-th iteration of the counting loop (v == k*step) runs exactly
      when k is below `Steps`: the loop visits 0, step, 2*step, ... and stops
      at the first multiple of `step` that reaches `bound`. */
  lemma StepsSpec(bound: int, step: int, k: nat)
    requires step >= 1
    ensures k * step < bound <==> k < Steps(bound, step)
  {
    if bound > 0 {
      var n := Steps(bound, step);
      assert n * step <= bound + step - 1 < (n + 1) * step;
      if k < n {
        assert (k + 1) * step <= n * step by {
          MulMonotone(k + 1, n, step);
        }
      } else {
        assert n * step <= k * step by {
          MulMonotone(n, k, step);
        }
      }
    } else {
      assert k * step >= 0;
    }
  }

  lemma MulMonotone(a: int, b: int, c: int)
    ensures a <= b && c >= 0 ==> a * c <= b * c
  {
  }

  lemma Distrib(d: int, a: int, b: int)
    ensures (a + b) * d == a * d + b * d
  {
  }

  /** With a unit step the loop runs `bound` times. */
  lemma StepsUnit(bound: nat)
    ensures Steps(bound, 1) == bound
  {
  }
}
