/** Unsigned machine words as sequences of bits, lowest first, and the rounding built on them. */
module Words {
  import opened Numbers

  type word = seq<bool>

  function ToNat(w: word): nat {
    if w == [] then 0 else (if w[0] then 1 else 0) + 2 * ToNat(w[1..])
  }

  /** The lowest k bits of n, as a conversion to a word of k bits keeps them. */
  function FromNat(n: nat, k: nat): (w: word)
    ensures |w| == k
  {
    if k == 0 then [] else [n % 2 == 1] + FromNat(n / 2, k - 1)
  }

  function Shr(w: word, k: nat): (r: word)
    ensures |r| == |w|
  {
    seq(|w|, i requires 0 <= i < |w| => i + k < |w| && w[i + k])
  }

  function Or(a: word, b: word): (r: word)
    requires |a| == |b|
    ensures |r| == |a|
  {
    seq(|a|, i requires 0 <= i < |a| => a[i] || b[i])
  }

  lemma {:induction false} FromNatValue(n: nat, k: nat)
    requires n < Pow(2, k)
    ensures ToNat(FromNat(n, k)) == n
  {
    if k > 0 {
      FromNatValue(n / 2, k - 1);
    }
  }

  // ---- The highest set bit ----------------------------------------------------------------

  /** h is one more than the index of the highest set bit; 0 when no bit is set. */
  ghost predicate Top(w: word, h: nat) {
    h <= |w| && (h > 0 ==> w[h - 1]) && forall i :: h <= i < |w| ==> !w[i]
  }

  lemma {:induction false} TopExists(w: word) returns (h: nat)
    ensures Top(w, h)
  {
    h := |w|;
    while h > 0 && !w[h - 1]
      invariant h <= |w| && forall i :: h <= i < |w| ==> !w[i]
    {
      h := h - 1;
    }
  }

  lemma {:induction false} TopValue(w: word, h: nat)
    requires Top(w, h)
    ensures ToNat(w) < Pow(2, h) && (h > 0 ==> Pow(2, h - 1) <= ToNat(w))
  {
    if w != [] {
      if h > 0 {
        assert Top(w[1..], h - 1);
        TopValue(w[1..], h - 1);
      } else {
        TopValue(w[1..], 0);
      }
    }
  }

  /** All bits below h set: the value is 2^h - 1. */
  lemma {:induction false} OnesValue(w: word, h: nat)
    requires h <= |w| && forall i :: 0 <= i < |w| ==> w[i] == (i < h)
    ensures ToNat(w) == Pow(2, h) - 1
  {
    if w != [] {
      OnesValue(w[1..], if h > 0 then h - 1 else 0);
    }
  }

  /** The j highest bits below h are set, and none at or above h. */
  ghost predicate TopOnes(w: word, h: nat, j: nat) {
    h <= |w| && forall i :: 0 <= i < |w| ==> (i >= h ==> !w[i]) && (h <= i + j && i < h ==> w[i])
  }

  lemma SmearStep(w: word, h: nat, j: nat)
    requires TopOnes(w, h, j)
    ensures TopOnes(Or(w, Shr(w, j)), h, 2 * j)
  {
  }

  function Smear(x: word): (y: word)
    ensures |y| == |x|
  {
    var x1 := Or(x, Shr(x, 1));
    var x2 := Or(x1, Shr(x1, 2));
    var x3 := Or(x2, Shr(x2, 4));
    var x4 := Or(x3, Shr(x3, 8));
    Or(x4, Shr(x4, 16))
  }

  lemma SmearValue(x: word, h: nat)
    requires |x| == 32 && Top(x, h)
    ensures ToNat(Smear(x)) == Pow(2, h) - 1
  {
    var x1 := Or(x, Shr(x, 1));
    var x2 := Or(x1, Shr(x1, 2));
    var x3 := Or(x2, Shr(x2, 4));
    var x4 := Or(x3, Shr(x3, 8));
    SmearStep(x, h, 1);
    SmearStep(x1, h, 2);
    SmearStep(x2, h, 4);
    SmearStep(x3, h, 8);
    SmearStep(x4, h, 16);
    OnesValue(Smear(x), h);
  }

  // ---- Rounding up to a power of two ------------------------------------------------------

  function SmearPlusOne(x: word): nat {
    (ToNat(Smear(x)) + 1) % 0x1_0000_0000
  }

  /** http.go's round2: the arithmetic is that of uint32, so it wraps. */
  function Round2(n: int): int {
    if n <= 0 then 0 else SmearPlusOne(FromNat(n - 1, 32))
  }

  lemma PowThirtyTwo()
    ensures Pow(2, 31) == 0x8000_0000 && Pow(2, 32) == 0x1_0000_0000
  {
    assert Pow(2, 10) == 1024;
    assert Pow(2, 20) == 1048576;
    assert Pow(2, 30) == 1073741824;
  }

  /** A value below 2^m has its highest bit below m. */
  lemma TopBelow(w: word, h: nat, m: nat)
    requires Top(w, h) && ToNat(w) < Pow(2, m)
    ensures h <= m
  {
    TopValue(w, h);
    if h > m {
      PowMonotone(2, m, h - 1);
    }
  }

  /** The result in terms of the highest bit of n - 1: it wraps to zero when that is bit 31. */
  lemma Round2Top(x: word, h: nat)
    requires |x| == 32 && Top(x, h)
    ensures h < 32 ==> SmearPlusOne(x) == Pow(2, h) <= 0x8000_0000
    ensures h == 32 ==> SmearPlusOne(x) == 0
  {
    PowThirtyTwo();
    SmearValue(x, h);
    if h < 32 {
      PowMonotone(2, h, 31);
    }
  }

  /** Up to 2^31 the result is the least power of two that is not below n. */
  lemma Round2Least(n: int) returns (h: nat)
    requires 1 <= n <= 0x8000_0000
    ensures Round2(n) == Pow(2, h) && n <= Pow(2, h) && (h > 0 ==> Pow(2, h - 1) < n)
  {
    var x := FromNat(n - 1, 32);
    h := TopExists(x);
    PowThirtyTwo();
    FromNatValue(n - 1, 32);
    TopBelow(x, h, 31);
    TopValue(x, h);
    Round2Top(x, h);
  }

  /** The result is large enough exactly when n is at most 2^31; it never exceeds 2^31. */
  lemma Round2Enough(n: int)
    ensures Round2(n) >= n <==> n <= 0x8000_0000
    ensures 0 <= Round2(n) <= 0x8000_0000
  {
    if n > 0 {
      var h := TopExists(FromNat(n - 1, 32));
      Round2Top(FromNat(n - 1, 32), h);
      if n <= 0x8000_0000 {
        h := Round2Least(n);
      }
    }
  }
}
