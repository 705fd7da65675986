// Bit-level arithmetic on natural numbers, as the codec's C++ uses it on
// `char`, `uint8_t` and `uint16_t` values: `(v >> k) & 1`, `x << k`,
// `a | b` and the truncating cast to an unsigned byte.
module BitOps {

  /** An unsigned 8-bit value, as `uint8_t`. */
  type byte = x: int | 0 <= x < 256

  function Pow2(k: nat): (r: nat)
    ensures r >= 1
  {
    if k == 0 then 1 else 2 * Pow2(k - 1)
  }

  /** Bit `j` of `v`, bit 0 being the least significant: `(v >> j) & 1`. */
  function Bit(v: nat, j: nat): bool
  {
    if j == 0 then v % 2 == 1 else Bit(v / 2, j - 1)
  }

  /** Bits 0..n-1 of `v`, least significant first. */
  function Bits(v: nat, n: nat): seq<bool>
  {
    seq(n, j requires 0 <= j < n => Bit(v, j))
  }

  /** The number whose bits, least significant first, are `bs` (and zero above). */
  function Pack(bs: seq<bool>): nat
  {
    if bs == [] then 0 else (if bs[0] then 1 else 0) + 2 * Pack(bs[1..])
  }

  /** `x >> k` on a non-negative value. */
  function Shr(x: nat, k: nat): nat
  {
    if k == 0 then x else Shr(x / 2, k - 1)
  }

  /** `x << k` on a non-negative value, without truncation. */
  function Shl(x: nat, k: nat): nat
  {
    if k == 0 then x else 2 * Shl(x, k - 1)
  }

  /** Bitwise `a | b`. */
  function Or(a: nat, b: nat): nat
    decreases a + b
  {
    if a == 0 && b == 0 then 0
    else 2 * Or(a / 2, b / 2) + (if a % 2 == 1 || b % 2 == 1 then 1 else 0)
  }

  // ---------------------------------------------------------------------
  // Facts about single bits

  lemma {:induction false} BitOfZero(j: nat)
    ensures !Bit(0, j)
  {
    if j > 0 { BitOfZero(j - 1); }
  }

  /** A value below 2^k has no bit at position k or above. */
  lemma {:induction false} BitAboveWidth(v: nat, k: nat, j: nat)
    requires v < Pow2(k) && k <= j
    ensures !Bit(v, j)
  {
    if k == 0 {
      assert v == 0;
      BitOfZero(j);
    } else {
      BitAboveWidth(v / 2, k - 1, j - 1);
    }
  }

  lemma {:induction false} BitOfOneBit(c: nat, j: nat)
    requires c < 2
    ensures Bit(c, j) <==> (j == 0 && c == 1)
  {
    if j > 0 { BitOfZero(j - 1); }
  }

  lemma {:induction false} ShrBit(x: nat, k: nat, j: nat)
    ensures Bit(Shr(x, k), j) == Bit(x, j + k)
  {
    if k > 0 {
      ShrBit(x / 2, k - 1, j);
      assert Bit(x, j + k) == Bit(x / 2, j + k - 1);
    }
  }

  lemma {:induction false} ShlBit(x: nat, k: nat, j: nat)
    ensures Bit(Shl(x, k), j) == (k <= j && Bit(x, j - k))
  {
    if k > 0 {
      if j == 0 {
      } else {
        ShlBit(x, k - 1, j - 1);
      }
    }
  }

  lemma {:induction false} OrBit(a: nat, b: nat, j: nat)
    ensures Bit(Or(a, b), j) == (Bit(a, j) || Bit(b, j))
    decreases a + b
  {
    if a == 0 && b == 0 {
      BitOfZero(j);
    } else if j > 0 {
      OrBit(a / 2, b / 2, j - 1);
    }
  }

  lemma {:induction false} OrBound(a: nat, b: nat, k: nat)
    requires a < Pow2(k) && b < Pow2(k)
    ensures Or(a, b) < Pow2(k)
    decreases a + b
  {
    if a == 0 && b == 0 {
    } else {
      assert k > 0;
      OrBound(a / 2, b / 2, k - 1);
    }
  }

  /** Setting bit k of a value below 2^k adds 2^k. */
  lemma {:induction false} OrHighBit(a: nat, k: nat)
    requires a < Pow2(k)
    ensures Or(a, Pow2(k)) == a + Pow2(k)
  {
    if k > 0 {
      OrHighBit(a / 2, k - 1);
    }
  }

  lemma {:induction false} Pow2Monotone(i: nat, j: nat)
    requires i <= j
    ensures Pow2(i) <= Pow2(j)
  {
    if i < j { Pow2Monotone(i, j - 1); }
  }

  lemma {:induction false} ShlOneBit(c: nat, k: nat)
    requires c < 2
    ensures Shl(c, k) == c * Pow2(k)
  {
    if k > 0 { ShlOneBit(c, k - 1); }
  }

  /** Truncation to 8 bits keeps bits 0..7: the cast to `uint8_t`. */
  lemma ModByteBit(x: nat, j: nat)
    requires j < 8
    ensures Bit(x % 256, j) == Bit(x, j)
  {
    assert Pow2(8) == 256;
    assert x == x % 256 + 256 * (x / 256);
    AddHighMultiple(x % 256, 8, x / 256, j);
  }

  /** Adding a multiple of 2^m leaves the bits below m alone. */
  lemma {:induction false} AddHighMultiple(x: nat, m: nat, k: nat, j: nat)
    requires j < m
    ensures Bit(x + Pow2(m) * k, j) == Bit(x, j)
  {
    var y := Pow2(m - 1) * k;
    assert Pow2(m) * k == 2 * y;
    assert (x + 2 * y) % 2 == x % 2;
    if j > 0 {
      assert (x + 2 * y) / 2 == x / 2 + y;
      AddHighMultiple(x / 2, m - 1, k, j - 1);
    }
  }

  // ---------------------------------------------------------------------
  // Whole bit strings

  /** Two values below 2^n with the same low n bits are equal. */
  lemma {:induction false} BitsDetermine(v: nat, w: nat, n: nat)
    requires v < Pow2(n) && w < Pow2(n)
    requires forall j :: 0 <= j < n ==> Bit(v, j) == Bit(w, j)
    ensures v == w
  {
    if n > 0 {
      forall j | 0 <= j < n - 1
        ensures Bit(v / 2, j) == Bit(w / 2, j)
      {
        assert Bit(v, j + 1) == Bit(w, j + 1);
      }
      assert Bit(v, 0) == Bit(w, 0);
      BitsDetermine(v / 2, w / 2, n - 1);
    }
  }

  lemma {:induction false} PackBound(bs: seq<bool>)
    ensures Pack(bs) < Pow2(|bs|)
  {
    if bs != [] {
      PackBound(bs[1..]);
    }
  }

  /** `Pack` is the inverse of `Bits`. */
  lemma {:induction false} PackBits(bs: seq<bool>)
    ensures Pack(bs) < Pow2(|bs|)
    ensures Bits(Pack(bs), |bs|) == bs
  {
    if bs != [] {
      PackBits(bs[1..]);
      var v := Pack(bs);
      assert v / 2 == Pack(bs[1..]);
      forall j | 0 <= j < |bs|
        ensures Bit(v, j) == bs[j]
      {
        if j > 0 {
          assert Bits(Pack(bs[1..]), |bs| - 1)[j - 1] == bs[1..][j - 1];
        }
      }
    }
  }

  /** Doubling shifts the bit string up by one and puts `c` at the bottom. */
  lemma BitsShiftIn(v: nat, c: nat, n: nat)
    requires c < 2
    ensures Bits(2 * v + c, n + 1) == [c == 1] + Bits(v, n)
  {
    var w := 2 * v + c;
    assert w / 2 == v;
    forall j | 1 <= j < n + 1
      ensures Bit(w, j) == Bit(v, j - 1)
    {
    }
  }
}
