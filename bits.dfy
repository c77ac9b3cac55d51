/** Bit arithmetic on natural numbers, the way the unsigned 8-bit rule number
    is taken apart by repeated `% 2` and `/ 2`. */
module Binary {

  /** 2 to the power k. */
  function Pow2(k: nat): (p: nat)
    ensures p >= 1
  {
    if k == 0 then 1 else 2 * Pow2(k - 1)
  }

  /** n shifted right by k places (`n >> k`). */
  function Shr(n: nat, k: nat): (r: nat)
    ensures r <= n
  {
    if k == 0 then n else Shr(n / 2, k - 1)
  }

  /** Bit k of n, counting from the least significant bit 0. */
  predicate Bit(n: nat, k: nat)
  {
    Shr(n, k) % 2 == 1
  }

  /** One more shift is one more halving. */
  lemma {:induction false} ShrStep(n: nat, k: nat)
    ensures Shr(n, k + 1) == Shr(n, k) / 2
  {
    if k > 0 {
      ShrStep(n / 2, k - 1);
    }
  }

  /** Shifting a k-bit number right by k places leaves nothing. */
  lemma {:induction false} ShrVanishes(n: nat, k: nat)
    requires n < Pow2(k)
    ensures Shr(n, k) == 0
  {
    if k > 0 {
      ShrVanishes(n / 2, k - 1);
    }
  }

  /** The w low bits of n, most significant first. */
  function Bits(n: nat, w: nat): (s: seq<bool>)
    ensures |s| == w
  {
    if w == 0 then [] else Bits(n / 2, w - 1) + [n % 2 == 1]
  }

  /** Position i of Bits(n, w) holds bit w - 1 - i of n. */
  lemma {:induction false} BitsAt(n: nat, w: nat, i: nat)
    requires i < w
    ensures Bits(n, w)[i] == Bit(n, w - 1 - i)
  {
    if i < w - 1 {
      BitsAt(n / 2, w - 1, i);
    }
  }

  /** The number whose binary digits, most significant first, are s. */
  function FromBits(s: seq<bool>): (n: nat)
    ensures n < Pow2(|s|)
  {
    if s == [] then 0 else 2 * FromBits(s[..|s| - 1]) + (if s[|s| - 1] then 1 else 0)
  }

  /** Reading back the w low bits of a w-bit number gives the number. */
  lemma {:induction false} FromBitsBits(n: nat, w: nat)
    requires n < Pow2(w)
    ensures FromBits(Bits(n, w)) == n
  {
    if w > 0 {
      var s, rest := Bits(n, w), Bits(n / 2, w - 1);
      assert s == rest + [n % 2 == 1];
      assert s[..w - 1] == rest;
      assert n / 2 < Pow2(w - 1);
      FromBitsBits(n / 2, w - 1);
      assert FromBits(s) == 2 * (n / 2) + n % 2;
    }
  }

  /** Writing out the digits of FromBits(s) in |s| places gives s back. */
  lemma {:induction false} BitsFromBits(s: seq<bool>)
    ensures Bits(FromBits(s), |s|) == s
  {
    if s != [] {
      var w := |s|;
      var init := s[..w - 1];
      var f := FromBits(init);
      var b := if s[w - 1] then 1 else 0;
      var n := 2 * f + b;
      assert FromBits(s) == n;
      assert n / 2 == f && n % 2 == b;
      assert Bits(n, w) == Bits(f, w - 1) + [s[w - 1]];
      BitsFromBits(init);
      assert s == init + [s[w - 1]];
    }
  }
}
