/** Shared vocabulary of the model: optional values, the Python exceptions
    that the modelled code lets escape, and the integer bit operations that
    Python applies to header fields. */
module Common {

  datatype Option<T> = None | Some(value: T)

  /** The exceptions the modelled Python code raises (or lets propagate). */
  datatype Exc =
    | IndexError         // indexing past the end of a byte string, or a missing layer
    | StructError        // struct.unpack(">I", b) with fewer than four bytes
    | AttributeError     // reading a field that no layer of the packet has
    | IOError            // raised explicitly when no injected frame was captured
    | ZeroDivisionError  // floor division by zero

  /** A value, or the exception that computing it raises. */
  datatype Result<T> = Ok(value: T) | Raises(exc: Exc)

  function Pow2(k: nat): (r: nat)
    ensures r >= 1
  {
    if k == 0 then 1 else 2 * Pow2(k - 1)
  }

  /** Python's `a | b` on non-negative integers, one bit at a time from the
      least significant end. The result covers both operands and is no
      larger than their sum. */
  function BitOr(a: nat, b: nat): (r: nat)
    ensures a <= r && b <= r
    ensures r <= a + b
    decreases a + b
  {
    if a == 0 then b
    else if b == 0 then a
    else
      var x := BitOr(a / 2, b / 2);
      var c := if a % 2 == 1 || b % 2 == 1 then 1 else 0;
      assert a == 2 * (a / 2) + a % 2 && b == 2 * (b / 2) + b % 2;
      2 * x + c
  }

  lemma MulAtLeast(a: int, d: int)
    requires a >= 1 && d > 0
    ensures a * d >= d
  {
    var e := a - 1;
    assert a * d == e * d + d;
    assert e * d >= 0;
  }

  /** Quotient and remainder are determined by `x == q * d + r`, `0 <= r < d`. */
  lemma DivModUnique(x: int, d: int, q: int, r: int)
    requires d > 0 && 0 <= r < d && x == q * d + r
    ensures x / d == q && x % d == r
  {
    var q', r' := x / d, x % d;
    assert x == q' * d + r';
    assert (q - q') * d == r' - r by {
      assert q * d - q' * d == (q - q') * d;
    }
    if q > q' { MulAtLeast(q - q', d); }
    if q < q' { MulAtLeast(q' - q, d); }
  }

  lemma HalveDivMod(x: nat, c: nat, p: nat)
    requires c < 2 && p >= 1
    ensures (2 * x + c) / (2 * p) == x / p
    ensures (2 * x + c) % (2 * p) == 2 * (x % p) + c
  {
    var q, r := x / p, x % p;
    assert 2 * x + c == q * (2 * p) + (2 * r + c) by {
      assert x == q * p + r;
      assert q * (2 * p) == 2 * (q * p);
    }
    DivModUnique(2 * x + c, 2 * p, q, 2 * r + c);
  }

  lemma HalfDivMod(a: nat, p: nat)
    requires p >= 1
    ensures a / (2 * p) == (a / 2) / p
    ensures (a % (2 * p)) / 2 == (a / 2) % p
    ensures (a % (2 * p)) % 2 == a % 2
  {
    HalveDivMod(a / 2, a % 2, p);
  }

  /** One step of the bitwise OR from the low end, valid for any `a` once
      `b` is non-zero. */
  lemma BitOrUnfold(a: nat, b: nat)
    requires b != 0
    ensures BitOr(a, b) == 2 * BitOr(a / 2, b / 2) + (if a % 2 == 1 || b % 2 == 1 then 1 else 0)
  {
    if a == 0 {
      assert BitOr(0, b / 2) == b / 2;
    }
  }

  /** OR-ing in a value below 2^k leaves every bit from k upwards alone, and
      the low k bits are the OR of the low k bits. */
  lemma {:induction false} BitOrLow(a: nat, b: nat, k: nat)
    requires b < Pow2(k)
    ensures BitOr(a, b) / Pow2(k) == a / Pow2(k)
    ensures BitOr(a, b) % Pow2(k) == BitOr(a % Pow2(k), b)
  {
    if k == 0 {
      assert b == 0 && BitOr(a, b) == a;
    } else if a == 0 {
      assert BitOr(a, b) == b;
      DivModUnique(b, Pow2(k), 0, b);
    } else if b == 0 {
      assert BitOr(a, b) == a && BitOr(a % Pow2(k), b) == a % Pow2(k);
    } else {
      var p := Pow2(k - 1);
      assert Pow2(k) == 2 * p;
      var x := BitOr(a / 2, b / 2);
      var c := if a % 2 == 1 || b % 2 == 1 then 1 else 0;
      BitOrUnfold(a, b);
      BitOrLow(a / 2, b / 2, k - 1);
      HalveDivMod(x, c, p);
      HalfDivMod(a, p);
      var q := 2 * p;
      BitOrUnfold(a % q, b);
      var lo := BitOr((a / 2) % p, b / 2);
      assert BitOr(a % q, b) == 2 * lo + c;
      assert BitOr(a, b) / q == a / q;
      assert BitOr(a, b) % q == 2 * lo + c;
    }
  }

  /** The two facts about `SC | i` that fragment building relies on. */
  lemma BitOrIntoZeroLowBits(a: nat, b: nat, k: nat)
    requires b < Pow2(k) && a % Pow2(k) == 0
    ensures BitOr(a, b) / Pow2(k) == a / Pow2(k)
    ensures BitOr(a, b) % Pow2(k) == b
  {
    BitOrLow(a, b, k);
  }

  lemma BitOrBelow(a: nat, b: nat, k: nat)
    requires a < Pow2(k) && b < Pow2(k)
    ensures BitOr(a, b) < Pow2(k)
  {
    BitOrLow(a, b, k);
  }
}
