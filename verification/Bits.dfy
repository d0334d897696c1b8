/** Single bits of machine words, on integers. */
module Bits {
  import opened Arithmetic
  import opened Powers

  /** `(w >> b) & 1` */
  predicate TestBit(w: nat, b: nat) {
    if b == 0 then w % 2 == 1 else TestBit(w / 2, b - 1)
  }

  /** `w | 1 << b` */
  function SetBit(w: nat, b: nat): nat {
    if b == 0 then if w % 2 == 0 then w + 1 else w
    else 2 * SetBit(w / 2, b - 1) + w % 2
  }

  lemma {:induction false} SetBitSetsOne(w: nat, b: nat, c: nat)
    ensures TestBit(SetBit(w, b), c) <==> c == b || TestBit(w, c)
    decreases b
  {
    var s := SetBit(w, b);
    if b > 0 {
      assert s / 2 == SetBit(w / 2, b - 1) && s % 2 == w % 2;
      if c > 0 {
        SetBitSetsOne(w / 2, b - 1, c - 1);
      }
    } else if c > 0 {
      assert s / 2 == w / 2;
    }
  }

  /** Shifting right by `b` divides by 2^b; joining an absent bit adds 2^b. */
  lemma {:induction false} BitsAreArithmetic(w: nat, b: nat)
    ensures TestBit(w, b) <==> (w / Pow2(b)) % 2 == 1
    ensures SetBit(w, b) == if TestBit(w, b) then w else w + Pow2(b)
    decreases b
  {
    if b == 0 {
    } else {
      BitsAreArithmetic(w / 2, b - 1);
      DivTwice(w, Pow2(b - 1));
    }
  }

  lemma DivTwice(w: nat, p: nat)
    requires p > 0
    ensures w / 2 / p == w / (2 * p)
  {
    var q, r := w / 2 / p, w / 2 % p;
    assert w == 2 * (p * q + r) + w % 2;
    assert w == (2 * p) * q + (2 * r + w % 2) by {
      assert 2 * (p * q) == (2 * p) * q;
    }
    DivUnique(w, 2 * p, q, 2 * r + w % 2);
  }

  lemma {:induction false} SetBitBound(w: nat, b: nat, n: nat)
    requires w < Pow2(n) && b < n
    ensures SetBit(w, b) < Pow2(n)
    decreases b
  {
    if b == 0 {
    } else {
      assert w / 2 < Pow2(n - 1);
      SetBitBound(w / 2, b - 1, n - 1);
    }
  }
}
