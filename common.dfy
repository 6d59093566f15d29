/**
 * Shared vocabulary of the model: Kotlin's nullable values, bytes, the
 * 32-bit `Int` of the JVM, Kotlin's truncating division and powers of two.
 */
module Common {

  /** A Kotlin nullable value: `None` stands for `null`. */
  datatype Option<+T> = None | Some(value: T) {
    /** Kotlin's elvis operator `x ?: default`. */
    function GetOr(default: T): T {
      match this
      case Some(v) => v
      case None => default
    }
  }

  /** One byte of a stream (the unsigned view of a JVM `Byte`). */
  type byte = x: int | 0 <= x < 256

  /** The JVM's 32-bit `Int`. */
  type Int32 = x: int | -0x8000_0000 <= x < 0x8000_0000

  /**
   * Kotlin's `Int` division, which truncates toward zero (Dafny's `/` is
   * Euclidean and differs on negative dividends).
   */
  function TDiv(a: int, b: int): int
    requires b > 0
  {
    if a >= 0 then a / b else -((-a) / b)
  }

  /** 2 to the power `k`. */
  function Pow2(k: nat): (p: nat)
    ensures p >= 1
  {
    if k == 0 then 1 else 2 * Pow2(k - 1)
  }

  /** A truncated quotient of at least `m >= 1` needs a dividend of at least `m` times the divisor. */
  lemma QuotientBound(a: int, s: int, m: int)
    requires s >= 1 && m >= 1 && TDiv(a, s) >= m
    ensures m * s <= a
  {
    assert a >= 0;
    assert a / s >= m;
    assert (a / s) * s <= a;
    assert m * s <= (a / s) * s;
  }

  /** A multiple of `s` that fits in `a` is at most the quotient. */
  lemma DivLowerBound(a: int, s: int, q: int)
    requires s >= 1 && q >= 0 && q * s <= a
    ensures q <= a / s
  {
    var d := a / s;
    assert a < (d + 1) * s;
    assert q * s < (d + 1) * s;
  }

  /** For dividends of either sign, doubling the divisor never raises a truncated quotient above a positive bound. */
  lemma TDivDoubling(a: int, s: int)
    requires s >= 1
    ensures a >= 0 ==> TDiv(a, 2 * s) <= TDiv(a, s)
    ensures a < 0 ==> TDiv(a, 2 * s) <= 0
  {
    if a >= 0 {
      var q := a / (2 * s);
      assert q * (2 * s) <= a;
      assert q * s <= a;
      DivLowerBound(a, s, q);
    }
  }
}
