/** JavaScript's bitwise operators `&`, `|` and `^` on non-negative integers of a given bit
    width. For operands below 2^31 the 32-bit operators act on the binary digits exactly as
    here; the colour library applies them to packed 24-bit colours. */
module Bits {
  import opened JsText

  datatype BitOp = AndOp | OrOp | XorOp

  /** The operator on one pair of bits. */
  predicate Apply(op: BitOp, x: bool, y: bool) {
    match op
    case AndOp => x && y
    case OrOp => x || y
    case XorOp => x != y
  }

  /** The operator applied to the lowest `w` binary digits of `m` and `n`. */
  function Bitwise(op: BitOp, m: nat, n: nat, w: nat): (k: nat)
    ensures k < Pow(2, w)
    decreases w
  {
    if w == 0 then 0
    else 2 * Bitwise(op, m / 2, n / 2, w - 1) + (if Apply(op, m % 2 == 1, n % 2 == 1) then 1 else 0)
  }

  /** Every bit of a number below 2^w survives an and with the all-ones mask 2^w - 1. */
  lemma {:induction false} AndAllOnes(n: nat, w: nat)
    requires n < Pow(2, w)
    ensures Bitwise(AndOp, n, Pow(2, w) - 1, w) == n
  {
    if w > 0 {
      var mask := Pow(2, w) - 1;
      assert mask / 2 == Pow(2, w - 1) - 1 && mask % 2 == 1;
      AndAllOnes(n / 2, w - 1);
    }
  }

  /** An or with 0 keeps a number below 2^w. */
  lemma {:induction false} OrZero(n: nat, w: nat)
    requires n < Pow(2, w)
    ensures Bitwise(OrOp, n, 0, w) == n
  {
    if w > 0 {
      OrZero(n / 2, w - 1);
    }
  }

  /** A number xor itself is 0. */
  lemma {:induction false} XorSelfZero(n: nat, w: nat)
    ensures Bitwise(XorOp, n, n, w) == 0
  {
    if w > 0 {
      XorSelfZero(n / 2, w - 1);
    }
  }

  /** Xor with the all-ones mask is the complement: 2^w - 1 - n. */
  lemma {:induction false} XorAllOnes(n: nat, w: nat)
    requires n < Pow(2, w)
    ensures Bitwise(XorOp, n, Pow(2, w) - 1, w) == Pow(2, w) - 1 - n
  {
    if w > 0 {
      var mask := Pow(2, w) - 1;
      assert mask / 2 == Pow(2, w - 1) - 1 && mask % 2 == 1;
      XorAllOnes(n / 2, w - 1);
    }
  }

  /** The number whose low `k` bits are `lo` and whose higher bits are `hi`: `(hi << k) | lo`. */
  function Join(hi: nat, lo: nat, k: nat): nat {
    hi * Pow(2, k) + lo
  }

  /** The operator on a number made of a high part above `k` low bits is the operator on the
      high parts joined to the operator on the low parts. */
  lemma {:induction false} BitwiseConcat(op: BitOp, mh: nat, ml: nat, nh: nat, nl: nat, k: nat, w: nat)
    requires ml < Pow(2, k) && nl < Pow(2, k)
    ensures Bitwise(op, Join(mh, ml, k), Join(nh, nl, k), k + w)
         == Join(Bitwise(op, mh, nh, w), Bitwise(op, ml, nl, k), k)
  {
    if k > 0 {
      var half := Pow(2, k - 1);
      var x, y := mh * half, nh * half;
      Twice(mh, half);
      Twice(nh, half);
      var m, n := 2 * x + ml, 2 * y + nl;
      assert m == Join(mh, ml, k) && n == Join(nh, nl, k);
      assert m / 2 == x + ml / 2 && m % 2 == ml % 2;
      assert n / 2 == y + nl / 2 && n % 2 == nl % 2;
      BitwiseConcat(op, mh, ml / 2, nh, nl / 2, k - 1, w);
      var hi := Bitwise(op, mh, nh, w);
      Twice(hi, half);
    }
  }

  /** Doubling a power of two doubles a product with it. */
  lemma Twice(a: nat, half: nat)
    ensures a * (2 * half) == 2 * (a * half)
  {
  }

  /** On three fields of `k` bits the operator acts on each field separately. */
  lemma BitwiseFields(op: BitOp, r1: nat, g1: nat, b1: nat, r2: nat, g2: nat, b2: nat, k: nat)
    requires r1 < Pow(2, k) && g1 < Pow(2, k) && b1 < Pow(2, k)
    requires r2 < Pow(2, k) && g2 < Pow(2, k) && b2 < Pow(2, k)
    ensures Bitwise(op, Join(Join(r1, g1, k), b1, k), Join(Join(r2, g2, k), b2, k), k + (k + k))
         == Join(Join(Bitwise(op, r1, r2, k), Bitwise(op, g1, g2, k), k), Bitwise(op, b1, b2, k), k)
  {
    BitwiseConcat(op, Join(r1, g1, k), b1, Join(r2, g2, k), b2, k, k + k);
    BitwiseConcat(op, r1, g1, r2, g2, k, k);
  }
}
