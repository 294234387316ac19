/**
  Machine words as natural numbers, with the shift and mask operators of the
  source written out on binary digits, and the two-way translation between a
  word and its bit string (most significant bit first).
 */
module Words {

  type byte = x: nat | x < 256

  function Pow2(n: nat): (p: nat)
    ensures p >= 1
  {
    if n == 0 then 1 else 2 * Pow2(n - 1)
  }

  /** Bit `k` of `x`, counted from the least significant end. */
  predicate Bit(x: nat, k: nat) {
    if k == 0 then x % 2 == 1 else Bit(x / 2, k - 1)
  }

  function B2N(b: bool): nat { if b then 1 else 0 }

  function Shr(x: nat, n: nat): nat {
    if n == 0 then x else Shr(x / 2, n - 1)
  }

  function Shl(x: nat, n: nat): nat {
    x * Pow2(n)
  }

  function And(x: nat, y: nat): nat {
    if x == 0 || y == 0 then 0 else B2N(x % 2 == 1 && y % 2 == 1) + 2 * And(x / 2, y / 2)
  }

  function Or(x: nat, y: nat): nat
    decreases x + y
  {
    if x == 0 && y == 0 then 0 else B2N(x % 2 == 1 || y % 2 == 1) + 2 * Or(x / 2, y / 2)
  }

  function Xor(x: nat, y: nat): nat
    decreases x + y
  {
    if x == 0 && y == 0 then 0 else B2N((x % 2 == 1) != (y % 2 == 1)) + 2 * Xor(x / 2, y / 2)
  }

  /** Complement of an 8-bit word. */
  function Not8(x: byte): byte { 255 - x }

  /** Truncating cast `as u8`. */
  function U8(x: nat): byte { x % 256 }

  /** Mask of the `n` low bits: `(1 << n) - 1`. */
  function LowMask(n: nat): nat { Pow2(n) - 1 }

  // ---- what the operators do to each bit ----

  lemma {:induction false} BitOfZero(k: nat)
    ensures !Bit(0, k)
  {
    if k == 0 {
    } else {
      BitOfZero(k - 1);
    }
  }

  lemma {:induction false} BitOfAnd(x: nat, y: nat, k: nat)
    ensures Bit(And(x, y), k) == (Bit(x, k) && Bit(y, k))
  {
    BitOfZero(k);
    if x == 0 || y == 0 || k == 0 {
    } else {
      BitOfAnd(x / 2, y / 2, k - 1);
    }
  }

  lemma {:induction false} BitOfOr(x: nat, y: nat, k: nat)
    ensures Bit(Or(x, y), k) == (Bit(x, k) || Bit(y, k))
  {
    BitOfZero(k);
    if x == y == 0 || k == 0 {
    } else {
      BitOfOr(x / 2, y / 2, k - 1);
    }
  }

  lemma {:induction false} BitOfXor(x: nat, y: nat, k: nat)
    ensures Bit(Xor(x, y), k) == (Bit(x, k) != Bit(y, k))
  {
    BitOfZero(k);
    if x == y == 0 || k == 0 {
    } else {
      BitOfXor(x / 2, y / 2, k - 1);
    }
  }

  lemma {:induction false} BitOfShr(x: nat, n: nat, k: nat)
    ensures Bit(Shr(x, n), k) == Bit(x, k + n)
  {
    if n == 0 {
    } else {
      BitOfShr(x / 2, n - 1, k);
    }
  }

  lemma ShlStep(x: nat, n: nat)
    requires n > 0
    ensures Shl(x, n) == 2 * Shl(x, n - 1)
  {
    calc { x * Pow2(n); x * (2 * Pow2(n - 1)); 2 * (x * Pow2(n - 1)); }
  }

  lemma {:induction false} BitOfShl(x: nat, n: nat, k: nat)
    ensures Bit(Shl(x, n), k) == (k >= n && Bit(x, k - n))
  {
    if n == 0 {
    } else {
      ShlStep(x, n);
      if k > 0 {
        assert Shl(x, n) / 2 == Shl(x, n - 1);
        BitOfShl(x, n - 1, k - 1);
      }
    }
  }

  lemma {:induction false} BitOfMod(x: nat, w: nat, k: nat)
    ensures Bit(x % Pow2(w), k) == (k < w && Bit(x, k))
  {
    if w == 0 {
      BitOfZero(k);
    } else {
      HalfOfMod(x, w);
      if k > 0 { BitOfMod(x / 2, w - 1, k - 1); }
    }
  }

  lemma HalfOfMod(x: nat, w: nat)
    requires w > 0
    ensures (x % Pow2(w)) / 2 == (x / 2) % Pow2(w - 1)
    ensures (x % Pow2(w)) % 2 == x % 2
  {
    var p, h := Pow2(w), Pow2(w - 1);
    var q, r := (x / 2) / h, (x / 2) % h;
    assert x / 2 == q * h + r;
    assert x == q * p + (2 * r + x % 2) by {
      assert q * p == 2 * (q * h);
    }
    ModUnique(x, p, q, 2 * r + x % 2);
  }

  lemma ModUnique(x: nat, p: nat, q: nat, r: nat)
    requires p > 0 && r < p && x == q * p + r
    ensures x % p == r && x / p == q
  {
    var q', r' := x / p, x % p;
    assert x == q' * p + r';
    if q != q' {
      if q > q' { MulGap(q, q', p); } else { MulGap(q', q, p); }
    }
  }

  lemma MulGap(a: nat, b: nat, p: nat)
    requires a > b
    ensures a * p >= b * p + p
  {
    assert a * p == b * p + (a - b) * p;
    assert (a - b) * p == (a - b - 1) * p + p;
  }

  lemma {:induction false} BitOfMask(n: nat, k: nat)
    ensures Bit(LowMask(n), k) == (k < n)
  {
    if n == 0 {
      BitOfZero(k);
    } else if k > 0 {
      assert LowMask(n) / 2 == LowMask(n - 1);
      BitOfMask(n - 1, k - 1);
    }
  }

  /** `2^w - 1 - x` complements the low `w` bits. */
  lemma {:induction false} BitOfComplement(x: nat, w: nat, k: nat)
    requires x < Pow2(w)
    ensures Bit(Pow2(w) - 1 - x, k) == (k < w && !Bit(x, k))
  {
    if w == 0 {
      BitOfZero(k);
    } else if k > 0 {
      assert (Pow2(w) - 1 - x) / 2 == Pow2(w - 1) - 1 - x / 2;
      BitOfComplement(x / 2, w - 1, k - 1);
    }
  }

  lemma {:induction false} Pow2Mono(a: nat, b: nat)
    requires a <= b
    ensures Pow2(a) <= Pow2(b)
  {
    if a == b {
    } else {
      Pow2Mono(a, b - 1);
    }
  }

  lemma Pow2Of8()
    ensures Pow2(8) == 256
  {
    assert Pow2(4) == 16;
  }

  /** A word is below `2^w` exactly when no bit at or above `w` is set. */
  lemma {:induction false} BoundFromBits(x: nat, w: nat)
    requires forall k: nat :: k >= w ==> !Bit(x, k)
    ensures x < Pow2(w)
  {
    if w == 0 {
      if x > 0 {
        var k := TopBit(x);
        assert false;
      }
    } else {
      forall k: nat | k >= w - 1 ensures !Bit(x / 2, k) {
        assert !Bit(x, k + 1);
      }
      BoundFromBits(x / 2, w - 1);
    }
  }

  lemma {:induction false} TopBit(x: nat) returns (k: nat)
    requires x > 0
    ensures Bit(x, k)
  {
    if x % 2 == 1 { k := 0; } else { var j := TopBit(x / 2); k := j + 1; }
  }

  lemma {:induction false} BitsAboveBound(x: nat, w: nat, k: nat)
    requires x < Pow2(w) && k >= w
    ensures !Bit(x, k)
  {
    if w == 0 {
      BitOfZero(k);
    } else {
      BitsAboveBound(x / 2, w - 1, k - 1);
    }
  }

  // ---- bit strings ----

  /** The low `n` bits of `v`, most significant first. */
  function ToBits(v: nat, n: nat): (s: seq<bool>)
    ensures |s| == n
  {
    if n == 0 then [] else ToBits(v / 2, n - 1) + [v % 2 == 1]
  }

  /** The number a bit string denotes. */
  function FromBits(s: seq<bool>): (v: nat)
  {
    if s == [] then 0 else 2 * FromBits(s[..|s| - 1]) + B2N(s[|s| - 1])
  }

  lemma {:induction false} ToBitsAt(v: nat, n: nat, i: nat)
    requires i < n
    ensures ToBits(v, n)[i] == Bit(v, n - 1 - i)
  {
    if i == n - 1 {
    } else {
      ToBitsAt(v / 2, n - 1, i);
    }
  }

  lemma {:induction false} FromBitsBound(s: seq<bool>)
    ensures FromBits(s) < Pow2(|s|)
  {
    if s == [] {
    } else {
      FromBitsBound(s[..|s| - 1]);
    }
  }

  /** Reading a word back from its bit string. */
  lemma {:induction false} FromToBits(v: nat, n: nat)
    requires v < Pow2(n)
    ensures FromBits(ToBits(v, n)) == v
  {
    if n == 0 {
    } else {
      FromToBits(v / 2, n - 1);
      assert ToBits(v, n)[..n - 1] == ToBits(v / 2, n - 1);
    }
  }

  lemma {:induction false} ToFromBits(s: seq<bool>)
    ensures ToBits(FromBits(s), |s|) == s
  {
    if s == [] {
    } else {
      var p := s[..|s| - 1];
      ToFromBits(p);
      assert FromBits(s) / 2 == FromBits(p);
      assert s == p + [s[|s| - 1]];
    }
  }

  lemma {:induction false} FromBitsConcat(s: seq<bool>, t: seq<bool>)
    ensures FromBits(s + t) == Shl(FromBits(s), |t|) + FromBits(t)
  {
    if t == [] {
      assert s + t == s;
    } else {
      var t' := t[..|t| - 1];
      assert (s + t)[..|s + t| - 1] == s + t';
      FromBitsConcat(s, t');
      ShlStep(FromBits(s), |t|);
    }
  }

  /** Appending `y` below a word shifted up: `(x << n) | y` when `y` fits in `n` bits. */
  lemma {:induction false} OrAppends(x: nat, n: nat, y: nat)
    requires y < Pow2(n)
    ensures Or(Shl(x, n), y) == Shl(x, n) + y
  {
    if n == 0 {
      OrZero(x);
    } else {
      ShlStep(x, n);
      assert Shl(x, n) / 2 == Shl(x, n - 1);
      OrAppends(x, n - 1, y / 2);
    }
  }

  lemma {:induction false} OrZero(x: nat)
    ensures Or(x, 0) == x
  {
    if x == 0 {
    } else {
      OrZero(x / 2);
    }
  }

  /** Two words below `2^n` with the same bits are equal, so a bit string determines its word. */
  lemma SameBits(v: nat, s: seq<bool>)
    requires v < Pow2(|s|)
    requires forall i :: 0 <= i < |s| ==> s[i] == Bit(v, |s| - 1 - i)
    ensures v == FromBits(s)
  {
    forall i | 0 <= i < |s| ensures ToBits(v, |s|)[i] == s[i] { ToBitsAt(v, |s|, i); }
    assert ToBits(v, |s|) == s;
    FromToBits(v, |s|);
  }

  /** A word written as its high part followed by its `m` low bits. */
  lemma {:induction false} ToBitsSplit(v: nat, n: nat, m: nat)
    ensures ToBits(v, n + m) == ToBits(Shr(v, m), n) + ToBits(v % Pow2(m), m)
  {
    if m == 0 {
    } else {
      ToBitsSplit(v / 2, n, m - 1);
      HalfOfMod(v, m);
    }
  }

  lemma {:induction false} ShrBound(v: nat, n: nat, m: nat)
    requires v < Pow2(n + m)
    ensures Shr(v, m) < Pow2(n)
  {
    if m == 0 {
    } else {
      ShrBound(v / 2, n, m - 1);
    }
  }
}
